/**
 * String facts the JavaScript runtime supplies and the core relies on:
 * `Buffer.from(string)` (UTF-8 encoding), `crypto.timingSafeEqual`, `String.length`
 * (UTF-16 code units, which is what zod's `min`/`max` count), `indexOf`, `endsWith`,
 * `replace(string, "")` and `split('/')`.
 *
 * A Dafny `char` is a Unicode scalar value; JavaScript strings may also hold lone
 * surrogates, which this model does not represent.
 */
module Text {
  import opened Wrappers

  newtype byte = x: int | 0 <= x < 256

  type Bytes = seq<byte>

  // ---------------------------------------------------------------------------
  // UTF-8, as `Buffer.from(s)` encodes a string

  /** The UTF-8 encoding of one scalar value. */
  function EncodeChar(c: char): (r: Bytes)
    ensures 1 <= |r| <= 4 && LeadWidth(r[0]) == |r|
    ensures forall k :: 1 <= k < |r| ==> 0x80 <= r[k] < 0xC0
  {
    var cp := c as int;
    if cp < 0x80 then [cp as byte]
    else if cp < 0x800 then [(0xC0 + cp / 64) as byte, (0x80 + cp % 64) as byte]
    else if cp < 0x10000 then
      [(0xE0 + cp / 4096) as byte, (0x80 + (cp / 64) % 64) as byte, (0x80 + cp % 64) as byte]
    else
      [(0xF0 + cp / 262144) as byte, (0x80 + (cp / 4096) % 64) as byte,
       (0x80 + (cp / 64) % 64) as byte, (0x80 + cp % 64) as byte]
  }

  /** How many bytes a UTF-8 sequence starting with lead byte `b` occupies. */
  function LeadWidth(b: byte): nat {
    if b < 0x80 then 1 else if b < 0xE0 then 2 else if b < 0xF0 then 3 else 4
  }

  /** Reads back the scalar value from the bytes of one encoded character. */
  function DecodeScalar(r: Bytes): int
    requires 1 <= |r| <= 4
  {
    if |r| == 1 then r[0] as int
    else if |r| == 2 then (r[0] as int - 0xC0) * 64 + (r[1] as int - 0x80)
    else if |r| == 3 then
      (r[0] as int - 0xE0) * 4096 + (r[1] as int - 0x80) * 64 + (r[2] as int - 0x80)
    else
      (r[0] as int - 0xF0) * 262144 + (r[1] as int - 0x80) * 4096
        + (r[2] as int - 0x80) * 64 + (r[3] as int - 0x80)
  }

  lemma DecodeEncodeChar(c: char)
    ensures DecodeScalar(EncodeChar(c)) == c as int
  {
    var cp := c as int;
    if cp >= 0x10000 {
      var a, b, d, e := cp / 262144, (cp / 4096) % 64, (cp / 64) % 64, cp % 64;
      assert cp / 4096 == a * 64 + b;
      assert cp / 64 == (cp / 4096) * 64 + d;
      assert cp == (cp / 64) * 64 + e;
    } else if cp >= 0x800 {
      assert cp / 64 == (cp / 4096) * 64 + (cp / 64) % 64;
    }
  }

  /** `Buffer.from(s)`: the UTF-8 bytes of a string. */
  function Utf8(s: string): (r: Bytes)
    ensures |s| <= |r| <= 4 * |s|
    ensures r == [] <==> s == []
  {
    if s == [] then [] else EncodeChar(s[0]) + Utf8(s[1..])
  }

  /** Distinct strings have distinct UTF-8 encodings. */
  lemma {:induction false} Utf8Injective(s: string, t: string)
    requires Utf8(s) == Utf8(t)
    ensures s == t
  {
    if s != [] {
      var a, b := EncodeChar(s[0]), EncodeChar(t[0]);
      assert Utf8(s) == a + Utf8(s[1..]);
      assert Utf8(t) == b + Utf8(t[1..]);
      assert a[0] == Utf8(s)[0] == b[0];
      assert |a| == |b|;
      assert a == Utf8(s)[..|a|] == Utf8(t)[..|b|] == b;
      DecodeEncodeChar(s[0]);
      DecodeEncodeChar(t[0]);
      assert s[0] == t[0];
      assert Utf8(s[1..]) == Utf8(s)[|a|..] == Utf8(t)[|b|..] == Utf8(t[1..]);
      Utf8Injective(s[1..], t[1..]);
    }
  }

  /** A RangeError: `crypto.timingSafeEqual` was given buffers of different byte lengths. */
  datatype LengthMismatch = LengthMismatch(left: nat, right: nat)

  /** `crypto.timingSafeEqual(a, b)`: throws unless the lengths agree, else compares the bytes. */
  function TimingSafeEqual(a: Bytes, b: Bytes): (r: Result<bool, LengthMismatch>)
    ensures r.Err? <==> |a| != |b|
    ensures r == Ok(true) <==> a == b
  {
    if |a| != |b| then Err(LengthMismatch(|a|, |b|)) else Ok(a == b)
  }

  /**
   * `timingSafeEqual(Buffer.from(x), Buffer.from(y))` on two strings: an error exactly when
   * their byte lengths differ, and true exactly when the strings are equal.
   */
  lemma SafeEqualStrings(x: string, y: string)
    ensures TimingSafeEqual(Utf8(x), Utf8(y)) == Ok(true) <==> x == y
    ensures x == y ==> TimingSafeEqual(Utf8(x), Utf8(y)).Ok?
  {
    if Utf8(x) == Utf8(y) {
      Utf8Injective(x, y);
    }
  }

  // ---------------------------------------------------------------------------
  // UTF-16 length, as `String.prototype.length` counts

  /** The number of UTF-16 code units of `s`: characters above U+FFFF take two. */
  function JsLength(s: string): (n: nat)
    ensures |s| <= n <= 2 * |s|
  {
    if s == [] then 0 else (if s[0] as int >= 0x10000 then 2 else 1) + JsLength(s[1..])
  }

  /** A string within the Basic Multilingual Plane has as many code units as characters. */
  lemma {:induction false} JsLengthOfBmp(s: string)
    requires forall i :: 0 <= i < |s| ==> s[i] as int < 0x10000
    ensures JsLength(s) == |s|
  {
    if s != [] {
      JsLengthOfBmp(s[1..]);
    }
  }

  // ---------------------------------------------------------------------------
  // Searching

  /** `s.indexOf(c)`: the position of the first `c` in `s`, if any (see `IndexOfFirst`). */
  function IndexOf(s: string, c: char): (r: Option<nat>)
    ensures r.Some? ==> r.value < |s|
  {
    if s == [] then None
    else if s[0] == c then Some(0)
    else match IndexOf(s[1..], c)
      case None => None
      case Some(k) => Some(k + 1)
  }

  /** `indexOf` finds `c` exactly when it occurs, and then at its first occurrence. */
  lemma {:induction false} IndexOfFirst(s: string, c: char)
    ensures IndexOf(s, c).None? <==> c !in s
    ensures IndexOf(s, c).Some? ==> s[IndexOf(s, c).value] == c && c !in s[..IndexOf(s, c).value]
  {
    if s != [] && s[0] != c {
      IndexOfFirst(s[1..], c);
      assert s == [s[0]] + s[1..];
      if IndexOf(s[1..], c).Some? {
        var k := IndexOf(s[1..], c).value;
        assert s[..k + 1] == [s[0]] + s[1..][..k];
      }
    }
  }

  predicate StartsWith(s: string, prefix: string) {
    |prefix| <= |s| && s[..|prefix|] == prefix
  }

  /** `s.endsWith(suffix)`. */
  predicate EndsWith(s: string, suffix: string) {
    |suffix| <= |s| && s[|s| - |suffix|..] == suffix
  }

  /** `pat` occurs in `s` starting at position `i`. */
  predicate OccursAt(s: string, pat: string, i: int) {
    0 <= i && i + |pat| <= |s| && s[i..i + |pat|] == pat
  }

  /** An occurrence past the first position is an occurrence in the tail, one place earlier. */
  lemma OccursInTail(s: string, pat: string)
    requires s != []
    ensures forall j :: 0 < j ==> (OccursAt(s, pat, j) <==> OccursAt(s[1..], pat, j - 1))
  {
    forall j | 0 < j ensures OccursAt(s, pat, j) <==> OccursAt(s[1..], pat, j - 1) {
      if j + |pat| <= |s| {
        assert s[j..j + |pat|] == s[1..][j - 1..j - 1 + |pat|];
      }
    }
  }

  /** `s.indexOf(pat)` for a string pattern: the first position where `pat` occurs. */
  function Find(s: string, pat: string): (r: Option<nat>)
    ensures r.Some? ==> OccursAt(s, pat, r.value)
    ensures r.Some? ==> forall j :: 0 <= j < r.value ==> !OccursAt(s, pat, j)
    ensures r.None? ==> forall j :: !OccursAt(s, pat, j)
  {
    if |s| < |pat| then None
    else if s[..|pat|] == pat then Some(0)
    else
      OccursInTail(s, pat);
      match Find(s[1..], pat)
      case None => None
      case Some(k) => Some(k + 1)
  }

  /** `s.replace(pat, '')` with a string pattern: removes the first occurrence only. */
  function RemoveFirst(s: string, pat: string): (r: string)
    ensures Find(s, pat).None? ==> r == s
    ensures Find(s, pat).Some? ==>
      var i := Find(s, pat).value; r == s[..i] + s[i + |pat|..]
  {
    match Find(s, pat)
    case None => s
    case Some(i) => s[..i] + s[i + |pat|..]
  }

  // ---------------------------------------------------------------------------
  // Splitting on '/'

  /** `s.split('/')`: the pieces between slashes, at least one (possibly empty). */
  function SplitOnSlash(s: string): (parts: seq<string>)
    ensures |parts| >= 1
  {
    match IndexOf(s, '/')
    case None => [s]
    case Some(k) => [s[..k]] + SplitOnSlash(s[k + 1..])
  }

  /** The pieces after the first slash are those of the text after it. */
  lemma SplitOnSlashAt(s: string, i: nat)
    requires IndexOf(s, '/') == Some(i)
    ensures SplitOnSlash(s) == [s[..i]] + SplitOnSlash(s[i + 1..])
  {
  }

  /** Joining a first piece onto the rest puts one slash between them. */
  lemma JoinWithSlashCons(head: string, rest: seq<string>)
    requires |rest| >= 1
    ensures JoinWithSlash([head] + rest) == head + "/" + JoinWithSlash(rest)
  {
    assert ([head] + rest)[1..] == rest;
  }

  /** No piece of `s.split('/')` holds a slash. */
  lemma {:induction false} SplitOnSlashHasNoSlash(s: string)
    ensures forall k :: 0 <= k < |SplitOnSlash(s)| ==> '/' !in SplitOnSlash(s)[k]
    decreases |s|
  {
    IndexOfFirst(s, '/');
    match IndexOf(s, '/')
    case None =>
    case Some(i) =>
      var rest := SplitOnSlash(s[i + 1..]);
      SplitOnSlashHasNoSlash(s[i + 1..]);
      SplitOnSlashAt(s, i);
      forall k | 0 <= k < |SplitOnSlash(s)| ensures '/' !in SplitOnSlash(s)[k] {
        if k > 0 { assert SplitOnSlash(s)[k] == rest[k - 1]; }
      }
  }

  /** Joining the pieces of `s.split('/')` with slashes gives back `s`. */
  lemma {:induction false} SplitOnSlashJoins(s: string)
    ensures JoinWithSlash(SplitOnSlash(s)) == s
    decreases |s|
  {
    IndexOfFirst(s, '/');
    match IndexOf(s, '/')
    case None =>
    case Some(i) =>
      var head, tail := s[..i], s[i + 1..];
      SplitOnSlashJoins(tail);
      SplitOnSlashAt(s, i);
      JoinWithSlashCons(head, SplitOnSlash(tail));
      assert s == head + "/" + tail;
  }

  /** No piece holds a slash, and joining the pieces with slashes gives back `s`. */
  lemma SplitOnSlashPieces(s: string)
    ensures forall k :: 0 <= k < |SplitOnSlash(s)| ==> '/' !in SplitOnSlash(s)[k]
    ensures JoinWithSlash(SplitOnSlash(s)) == s
  {
    SplitOnSlashHasNoSlash(s);
    SplitOnSlashJoins(s);
  }

  /** `parts.join('/')`. */
  function JoinWithSlash(parts: seq<string>): string
    requires |parts| >= 1
  {
    if |parts| == 1 then parts[0] else parts[0] + "/" + JoinWithSlash(parts[1..])
  }

  /** `parts.filter(Boolean)`: drops the empty strings, keeps the order. */
  function NonEmpty(parts: seq<string>): (r: seq<string>)
    ensures |r| <= |parts|
  {
    if parts == [] then []
    else (if parts[0] == "" then [] else [parts[0]]) + NonEmpty(parts[1..])
  }

  /** What `filter(Boolean)` keeps is non-empty and was there, and every non-empty piece is kept. */
  lemma {:induction false} NonEmptyKeeps(parts: seq<string>)
    ensures forall k :: 0 <= k < |NonEmpty(parts)| ==> NonEmpty(parts)[k] != "" && NonEmpty(parts)[k] in parts
    ensures forall k :: 0 <= k < |parts| && parts[k] != "" ==> parts[k] in NonEmpty(parts)
  {
    if parts != [] {
      NonEmptyKeeps(parts[1..]);
      var head := if parts[0] == "" then [] else [parts[0]];
      var r := NonEmpty(parts);
      assert r == head + NonEmpty(parts[1..]);
      forall k | 0 <= k < |r| ensures r[k] != "" && r[k] in parts {
        if k >= |head| {
          assert r[k] == NonEmpty(parts[1..])[k - |head|];
        }
      }
      forall k | 0 <= k < |parts| && parts[k] != "" ensures parts[k] in r {
        if k > 0 {
          assert parts[k] == parts[1..][k - 1];
        }
      }
    }
  }

  /**
   * `filter(Boolean)` distributes over concatenation; with its value on a single piece this
   * makes it the order-preserving filter.
   */
  lemma {:induction false} NonEmptyAppend(a: seq<string>, b: seq<string>)
    ensures NonEmpty(a + b) == NonEmpty(a) + NonEmpty(b)
  {
    if a != [] {
      assert (a + b)[1..] == a[1..] + b;
      NonEmptyAppend(a[1..], b);
    } else {
      assert a + b == b;
    }
  }

  /** On a single piece, `filter(Boolean)` keeps it exactly when it is non-empty. */
  lemma NonEmptySingle(x: string)
    ensures NonEmpty([x]) == if x == "" then [] else [x]
  {
    assert [x][1..] == [];
  }

  predicate AllSlashes(s: string) {
    forall i :: 0 <= i < |s| ==> s[i] == '/'
  }
}
