/**
 * lumin-server/src/utils/github.ts: replacing a project's file tree with the contents of a
 * repository archive (`processZipFileUpload`), the webhook signature check
 * (`validateWebhookSignature`) and the reading of repository fields from a push payload
 * (`extractRepoInfo`).
 *
 * The archive arrives as bytes and is parsed by `unzip` (JSZip); MIME types come from
 * `lookup` (mime-types); the HMAC-SHA256 hex digest comes from `hmacHex`. All three are
 * parameters: the model does not say what they compute.
 */
module GithubUtils {
  import opened Wrappers
  import opened Text
  import opened FileStore
  import opened ProjectModel
  import opened GithubApi

  /** One entry of `zip.files`, in the order `Object.values` lists them. */
  datatype ZipEntry = ZipEntry(name: string, dir: bool, content: Bytes)

  // ---------------------------------------------------------------------------
  // Paths

  /** `name.match(/^[^\/]+\/$/)`: a single non-empty segment followed by one slash. */
  predicate IsTopLevelDir(name: string) {
    |name| >= 2 && IndexOf(name, '/') == Some(|name| - 1)
  }

  /** `name.replace(/^[^\/]+\//, '')`: drops a leading non-empty segment and its slash. */
  function StripTopLevel(name: string): string {
    match IndexOf(name, '/')
    case None => name
    case Some(k) => if k > 0 then name[k + 1..] else name
  }

  /** A name without a leading segment followed by a slash is left as it is. */
  lemma StripKeepsUnprefixed(name: string)
    requires name == "" || name[0] == '/' || '/' !in name
    ensures StripTopLevel(name) == name
  {
    IndexOfFirst(name, '/');
  }

  /** Stripping removes exactly the first segment of a path that has one. */
  lemma StripPrefixedPath(segment: string, rest: string)
    requires segment != "" && '/' !in segment
    ensures StripTopLevel(segment + "/" + rest) == rest
  {
    var s := segment + "/" + rest;
    IndexOfFirst(s, '/');
    assert s[|segment|] == '/';
    assert s[..|segment|] == segment;
    assert s[|segment| + 1..] == rest;
  }

  /**
   * Stripping yields the empty path exactly for the empty name and the bare top-level
   * directory; so the `!relativePath` guard after stripping never skips an entry that the
   * guard before it let through.
   */
  lemma StripEmptyIff(name: string)
    ensures StripTopLevel(name) == "" <==> name == "" || IsTopLevelDir(name)
  {
    IndexOfFirst(name, '/');
    match IndexOf(name, '/')
    case None =>
    case Some(k) =>
      if k > 0 && name[k + 1..] == "" {
        assert k == |name| - 1;
      }
  }

  /** `relativePath.split('/').filter(Boolean)`, last element: the file name, if any. */
  function FileName(relativePath: string): Option<string> {
    var parts := NonEmpty(SplitOnSlash(relativePath));
    if parts == [] then None else Some(parts[|parts| - 1])
  }

  /** `n` is the last segment of `s`: it starts `s` or follows a slash, and only slashes follow it. */
  predicate LastSegmentAt(s: string, n: string, j: int) {
    0 <= j && j + |n| <= |s| && s[j..j + |n|] == n
    && (j == 0 || s[j - 1] == '/') && AllSlashes(s[j + |n|..])
  }

  /** The pieces of a path with a slash at `k`: the first piece, then those of the rest. */
  lemma PiecesAfterSlash(s: string, k: nat)
    requires IndexOf(s, '/') == Some(k)
    ensures NonEmpty(SplitOnSlash(s)) == (if s[..k] == "" then [] else [s[..k]]) + NonEmpty(SplitOnSlash(s[k + 1..]))
  {
    var parts := SplitOnSlash(s);
    assert parts == [s[..k]] + SplitOnSlash(s[k + 1..]);
    assert parts[1..] == SplitOnSlash(s[k + 1..]);
  }

  /** A last segment of the text after a slash is a last segment of the whole. */
  lemma LastSegmentAfterSlash(s: string, k: nat, n: string, j: int)
    requires k < |s| && s[k] == '/' && LastSegmentAt(s[k + 1..], n, j)
    ensures LastSegmentAt(s, n, k + 1 + j)
  {
    var rest := s[k + 1..];
    assert s[k + 1 + j..k + 1 + j + |n|] == rest[j..j + |n|];
    assert s[k + 1 + j + |n|..] == rest[j + |n|..];
    assert j > 0 ==> s[k + j] == rest[j - 1];
  }

  /** A slash followed by slashes only is slashes only. */
  lemma SlashThenSlashes(s: string, k: nat)
    requires k < |s| && s[k] == '/' && AllSlashes(s[k + 1..])
    ensures AllSlashes(s[k..])
  {
    forall i | 0 <= i < |s[k..]| ensures s[k..][i] == '/' {
      if i > 0 { assert s[k..][i] == s[k + 1..][i - 1]; }
    }
  }

  /** A path without a slash is its own file name, unless it is empty. */
  lemma FileNameWithoutSlash(s: string)
    requires IndexOf(s, '/').None?
    ensures FileName(s) == if s == "" then None else Some(s)
  {
    assert SplitOnSlash(s) == [s];
    assert NonEmpty([s]) == (if s == "" then [] else [s]) + NonEmpty([]);
  }

  /**
   * With a slash at `k`, the file name is that of the text after the slash, or the piece
   * before the slash when the rest has none.
   */
  lemma FileNameAfterSlash(s: string, k: nat)
    requires IndexOf(s, '/') == Some(k)
    ensures FileName(s) == if FileName(s[k + 1..]).Some? then FileName(s[k + 1..])
                           else if s[..k] == "" then None else Some(s[..k])
  {
    PiecesAfterSlash(s, k);
    var head: seq<string> := if s[..k] == "" then [] else [s[..k]];
    var tail := NonEmpty(SplitOnSlash(s[k + 1..]));
    if tail != [] {
      assert (head + tail)[|head + tail| - 1] == tail[|tail| - 1];
    } else {
      assert head + tail == head;
    }
  }

  /**
   * The file name is the last non-empty `/`-separated segment of the path; there is none
   * exactly when the path is made of slashes only.
   */
  lemma {:induction false} FileNameIsLastSegment(s: string)
    ensures FileName(s).None? <==> AllSlashes(s)
    ensures FileName(s).Some? ==>
      var n := FileName(s).value;
      n != "" && '/' !in n && exists j :: LastSegmentAt(s, n, j)
    decreases |s|
  {
    IndexOfFirst(s, '/');
    match IndexOf(s, '/')
    case None =>
      FileNameWithoutSlash(s);
      if s != "" {
        assert s[0] != '/';
        assert s[0..|s|] == s;
        assert LastSegmentAt(s, s, 0);
      }
    case Some(k) =>
      var head, rest := s[..k], s[k + 1..];
      FileNameAfterSlash(s, k);
      FileNameIsLastSegment(rest);
      if FileName(rest).Some? {
        var n := FileName(rest).value;
        var j :| LastSegmentAt(rest, n, j);
        LastSegmentAfterSlash(s, k, n, j);
        var i :| 0 <= i < |rest| && rest[i] != '/';
        assert s[k + 1 + i] == rest[i];
      } else {
        SlashThenSlashes(s, k);
        if k == 0 {
          assert s[k..] == s;
        } else {
          assert s[0] == head[0];
          assert s[0..|head|] == head;
          assert LastSegmentAt(s, head, 0);
        }
      }
  }

  /** `lookup(fileName) || 'text/plain'`: an unknown (or missing) name reads as plain text. */
  function MimeType(fileName: Option<string>, lookup: string -> Option<string>): string {
    match fileName
    case None => "text/plain"
    case Some(n) =>
      match lookup(n)
      case Some(t) => if t != "" then t else "text/plain"
      case None => "text/plain"
  }

  /**
   * The MIME type is never empty: the looked-up type when there is a file name and the
   * lookup gives a non-empty type, `text/plain` otherwise.
   */
  lemma MimeTypeFallback(fileName: Option<string>, lookup: string -> Option<string>)
    ensures MimeType(fileName, lookup) != ""
    ensures fileName.Some? && lookup(fileName.value).Some? && lookup(fileName.value).value != ""
            ==> MimeType(fileName, lookup) == lookup(fileName.value).value
    ensures fileName.None? || lookup(fileName.value).None? || lookup(fileName.value).value == ""
            ==> MimeType(fileName, lookup) == "text/plain"
  {
  }

  // ---------------------------------------------------------------------------
  // Which entries become rows

  /**
   * The entry gets a row: it is neither the empty name nor the top-level directory
   * (line 40), its stripped path is not empty (line 48), and it is not a directory (line 56).
   */
  predicate ProducesRow(e: ZipEntry) {
    !(IsTopLevelDir(e.name) || e.name == "") && StripTopLevel(e.name) != "" && !e.dir
  }

  /** The entries that get a row, in archive order. */
  function FileEntries(entries: seq<ZipEntry>): (r: seq<ZipEntry>)
    ensures |r| <= |entries|
  {
    if entries == [] then []
    else
      var last := entries[|entries| - 1];
      FileEntries(entries[..|entries| - 1]) + (if ProducesRow(last) then [last] else [])
  }

  /** Every file entry gets a row and comes from the archive; the order is kept. */
  lemma {:induction false} FileEntriesProduce(entries: seq<ZipEntry>)
    ensures forall k :: 0 <= k < |FileEntries(entries)| ==>
      ProducesRow(FileEntries(entries)[k]) && FileEntries(entries)[k] in entries
  {
    if entries != [] {
      var init := entries[..|entries| - 1];
      FileEntriesProduce(init);
      var r := FileEntries(entries);
      forall k | 0 <= k < |r| ensures ProducesRow(r[k]) && r[k] in entries {
        if k < |FileEntries(init)| {
          assert r[k] == FileEntries(init)[k];
          var j :| 0 <= j < |init| && init[j] == r[k];
          assert entries[j] == init[j];
        } else {
          assert r[k] == entries[|entries| - 1];
        }
      }
    }
  }

  /** Exactly the non-directory entries whose stripped path is non-empty get a row. */
  lemma {:induction false} FileEntriesExactly(entries: seq<ZipEntry>, e: ZipEntry)
    ensures e in FileEntries(entries) <==> e in entries && !e.dir && StripTopLevel(e.name) != ""
  {
    StripEmptyIff(e.name);
    if entries != [] {
      var init := entries[..|entries| - 1];
      FileEntriesExactly(init, e);
      assert entries == init + [entries[|entries| - 1]];
    }
  }

  /** `relativePath === "index.html"` for some entry that got a row, scanning in order. */
  function HasIndex(entries: seq<ZipEntry>): bool {
    if entries == [] then false
    else
      var last := entries[|entries| - 1];
      HasIndex(entries[..|entries| - 1]) || (ProducesRow(last) && StripTopLevel(last.name) == "index.html")
  }

  /**
   * The archive has an index document iff some file entry's path, once stripped, is exactly
   * `index.html`; `repo/docs/index.html` does not count.
   */
  lemma {:induction false} HasIndexIff(entries: seq<ZipEntry>)
    ensures HasIndex(entries) <==>
      exists k :: 0 <= k < |entries| && !entries[k].dir && StripTopLevel(entries[k].name) == "index.html"
  {
    if entries != [] {
      var init := entries[..|entries| - 1];
      var last := entries[|entries| - 1];
      HasIndexIff(init);
      StripEmptyIff(last.name);
      if HasIndex(init) {
        var k :| 0 <= k < |init| && !init[k].dir && StripTopLevel(init[k].name) == "index.html";
        assert entries[k] == init[k];
      }
      if exists k :: 0 <= k < |entries| && !entries[k].dir && StripTopLevel(entries[k].name) == "index.html" {
        var k :| 0 <= k < |entries| && !entries[k].dir && StripTopLevel(entries[k].name) == "index.html";
        if k < |init| {
          assert init[k] == entries[k];
        } else {
          StripEmptyIff(entries[k].name);
        }
      }
    }
  }

  /** A single-entry archive has an index document iff that entry is the file `index.html`. */
  lemma SingleEntryHasIndex(e: ZipEntry)
    ensures HasIndex([e]) <==> !e.dir && StripTopLevel(e.name) == "index.html"
  {
    StripEmptyIff(e.name);
    assert [e][..0] == [];
  }

  lemma IndexAtTopLevelCounts(repoDir: string, content: Bytes)
    requires repoDir != "" && '/' !in repoDir
    ensures HasIndex([ZipEntry(repoDir + "/" + "index.html", false, content)])
  {
    StripPrefixedPath(repoDir, "index.html");
    SingleEntryHasIndex(ZipEntry(repoDir + "/" + "index.html", false, content));
  }

  lemma NestedIndexDoesNotCount(repoDir: string, content: Bytes)
    requires repoDir != "" && '/' !in repoDir
    ensures !HasIndex([ZipEntry(repoDir + "/" + "docs/index.html", false, content)])
  {
    StripPrefixedPath(repoDir, "docs/index.html");
    SingleEntryHasIndex(ZipEntry(repoDir + "/" + "docs/index.html", false, content));
  }

  // ---------------------------------------------------------------------------
  // The rows an archive becomes

  /** The File row for a file entry, under the root `rootId`, pointing at blob `blob`. */
  function FileRowFor(e: ZipEntry, projectId: nat, rootId: nat, id: nat, blob: BlobId,
                      lookup: string -> Option<string>): FileRow
  {
    var relativePath := StripTopLevel(e.name);
    var name := FileName(relativePath);
    FileRow(id, name, false, projectId, Some(rootId), Some(relativePath), Some(blob),
            Some(MimeType(name, lookup)))
  }

  /** The rows for the file entries: ids from `firstId` on, blob ids from `firstBlob` on. */
  function FileRows(files: seq<ZipEntry>, projectId: nat, rootId: nat, firstId: nat, firstBlob: nat,
                    lookup: string -> Option<string>): (rows: seq<FileRow>)
    ensures |rows| == |files|
  {
    seq(|files|, k requires 0 <= k < |files| =>
      FileRowFor(files[k], projectId, rootId, firstId + k, firstBlob + k, lookup))
  }

  /** The bytes saved for the file entries, in order. */
  function Contents(files: seq<ZipEntry>): (blobs: seq<Bytes>)
    ensures |blobs| == |files|
  {
    seq(|files|, k requires 0 <= k < |files| => files[k].content)
  }

  /** Every row is accepted by the database (checked from the last row back). */
  predicate AllAccepted(rows: seq<FileRow>, accepts: FileRow -> bool) {
    rows == [] || (AllAccepted(rows[..|rows| - 1], accepts) && accepts(rows[|rows| - 1]))
  }

  lemma {:induction false} AllAcceptedEvery(rows: seq<FileRow>, accepts: FileRow -> bool)
    ensures AllAccepted(rows, accepts) <==> forall k :: 0 <= k < |rows| ==> accepts(rows[k])
  {
    if rows != [] {
      var init := rows[..|rows| - 1];
      AllAcceptedEvery(init, accepts);
      if forall k :: 0 <= k < |rows| ==> accepts(rows[k]) {
        forall k | 0 <= k < |init| ensures accepts(init[k]) {
          assert init[k] == rows[k];
        }
      }
      if AllAccepted(rows, accepts) {
        forall k | 0 <= k < |rows| ensures accepts(rows[k]) {
          if k < |init| { assert rows[k] == init[k]; }
        }
      }
    }
  }

  datatype IngestError = RootNotCreated | ArchiveUnreadable | RowNotCreated

  /** What one run of `processZipFileUpload` leaves: its outcome, the File rows, the saved blobs. */
  datatype Ingest = Ingest(result: Result<bool, IngestError>, rows: seq<FileRow>, saved: seq<Bytes>)

  /**
   * The whole transaction: delete the project's rows, add the Root (id `nextId`), parse the
   * archive, save each file entry's content and add its row. If the Root or any row is
   * refused, or the archive cannot be parsed, the rows are as before; blobs saved before
   * the failure are kept, as they are written outside the transaction. On success the
   * result carries the `hasIndex` flag the project is updated with.
   */
  function IngestSpec(rows: seq<FileRow>, nextId: nat, firstBlob: nat, projectId: nat,
                      data: Bytes, unzip: Bytes -> Option<seq<ZipEntry>>,
                      lookup: string -> Option<string>, accepts: FileRow -> bool): Ingest
  {
    if !accepts(RootRow(nextId, projectId)) then Ingest(Err(RootNotCreated), rows, [])
    else match unzip(data)
      case None => Ingest(Err(ArchiveUnreadable), rows, [])
      case Some(entries) =>
        var files := FileEntries(entries);
        var fileRows := FileRows(files, projectId, nextId, nextId + 1, firstBlob, lookup);
        if AllAccepted(fileRows, accepts) then
          Ingest(Ok(HasIndex(entries)),
                 WithoutProject(rows, projectId) + ([RootRow(nextId, projectId)] + fileRows),
                 Contents(files))
        else Ingest(Err(RowNotCreated), rows, Contents(files))
  }

  /**
   * Once the Root is accepted and the archive read, the run succeeds with the project's
   * rows replaced by the Root and the file rows exactly when every file row is accepted;
   * either way the file entries' contents are saved.
   */
  lemma IngestReadArchive(rows: seq<FileRow>, nextId: nat, firstBlob: nat, p: nat,
                          data: Bytes, unzip: Bytes -> Option<seq<ZipEntry>>,
                          lookup: string -> Option<string>, accepts: FileRow -> bool,
                          entries: seq<ZipEntry>)
    requires accepts(RootRow(nextId, p)) && unzip(data) == Some(entries)
    ensures var files := FileEntries(entries);
      var fileRows := FileRows(files, p, nextId, nextId + 1, firstBlob, lookup);
      IngestSpec(rows, nextId, firstBlob, p, data, unzip, lookup, accepts)
        == if AllAccepted(fileRows, accepts)
           then Ingest(Ok(HasIndex(entries)), (WithoutProject(rows, p) + [RootRow(nextId, p)]) + fileRows,
                       Contents(files))
           else Ingest(Err(RowNotCreated), rows, Contents(files))
  {
    var files := FileEntries(entries);
    AppendAssoc(WithoutProject(rows, p), [RootRow(nextId, p)], FileRows(files, p, nextId, nextId + 1, firstBlob, lookup));
  }

  /**
   * A run fails exactly when the Root is refused, the archive is unreadable or some file
   * row is refused; a failed run leaves the rows as they were, and saves nothing when it
   * fails before the archive is read. A run that succeeds reports whether the archive
   * holds a top-level `index.html`.
   */
  lemma IngestOutcome(rows: seq<FileRow>, nextId: nat, firstBlob: nat, p: nat,
                      data: Bytes, unzip: Bytes -> Option<seq<ZipEntry>>,
                      lookup: string -> Option<string>, accepts: FileRow -> bool)
    ensures var r := IngestSpec(rows, nextId, firstBlob, p, data, unzip, lookup, accepts);
      && (r.result.Err? ==> r.rows == rows)
      && (r.result.Ok? <==>
            accepts(RootRow(nextId, p)) && unzip(data).Some?
            && AllAccepted(FileRows(FileEntries(unzip(data).value), p, nextId, nextId + 1, firstBlob, lookup), accepts))
      && (r.result.Ok? ==> r.result.value == HasIndex(unzip(data).value))
      && (!accepts(RootRow(nextId, p)) || unzip(data).None? ==> r.saved == [])
  {
  }

  /** The rows, blobs and flag of a successful run. */
  lemma IngestSucceeded(rows: seq<FileRow>, nextId: nat, firstBlob: nat, p: nat,
                        data: Bytes, unzip: Bytes -> Option<seq<ZipEntry>>,
                        lookup: string -> Option<string>, accepts: FileRow -> bool)
    requires IngestSpec(rows, nextId, firstBlob, p, data, unzip, lookup, accepts).result.Ok?
    ensures unzip(data).Some?
    ensures var r := IngestSpec(rows, nextId, firstBlob, p, data, unzip, lookup, accepts);
      var files := FileEntries(unzip(data).value);
      && r.rows == WithoutProject(rows, p) + ([RootRow(nextId, p)] + FileRows(files, p, nextId, nextId + 1, firstBlob, lookup))
      && r.saved == Contents(files)
  {
  }

  /**
   * After a successful run the project's rows are its new Root followed by one row per
   * file entry, in order, and there is exactly one root.
   */
  lemma NewTreeOfProject(rows: seq<FileRow>, nextId: nat, firstBlob: nat, p: nat,
                         data: Bytes, unzip: Bytes -> Option<seq<ZipEntry>>,
                         lookup: string -> Option<string>, accepts: FileRow -> bool)
    requires IngestSpec(rows, nextId, firstBlob, p, data, unzip, lookup, accepts).result.Ok?
    ensures unzip(data).Some?
    ensures var r := IngestSpec(rows, nextId, firstBlob, p, data, unzip, lookup, accepts);
      var files := FileEntries(unzip(data).value);
      && RowsOf(r.rows, p) == [RootRow(nextId, p)] + FileRows(files, p, nextId, nextId + 1, firstBlob, lookup)
      && |RowsOf(r.rows, p)| == 1 + |files|
      && RootsOf(r.rows, p) == [RootRow(nextId, p)]
  {
    IngestSucceeded(rows, nextId, firstBlob, p, data, unzip, lookup, accepts);
    var files := FileEntries(unzip(data).value);
    ReplacedTree(rows, RootRow(nextId, p), FileRows(files, p, nextId, nextId + 1, firstBlob, lookup), p);
  }

  /** A run leaves the rows of every other project as they were, whatever its outcome. */
  lemma OtherProjectsUntouched(rows: seq<FileRow>, nextId: nat, firstBlob: nat, p: nat, q: nat,
                               data: Bytes, unzip: Bytes -> Option<seq<ZipEntry>>,
                               lookup: string -> Option<string>, accepts: FileRow -> bool)
    requires q != p
    ensures RowsOf(IngestSpec(rows, nextId, firstBlob, p, data, unzip, lookup, accepts).rows, q) == RowsOf(rows, q)
  {
    if IngestSpec(rows, nextId, firstBlob, p, data, unzip, lookup, accepts).result.Ok? {
      IngestSucceeded(rows, nextId, firstBlob, p, data, unzip, lookup, accepts);
      var files := FileEntries(unzip(data).value);
      ReplacedTreeKeepsOthers(rows, [RootRow(nextId, p)] + FileRows(files, p, nextId, nextId + 1, firstBlob, lookup), p, q);
    }
  }

  /**
   * Every file row of a successful run hangs directly under the new Root, is not a folder,
   * carries the stripped path, its last segment as name, the looked-up MIME type, and a
   * blob id under which exactly that entry's content was saved.
   */
  lemma FileRowsDescribeEntries(rows: seq<FileRow>, nextId: nat, firstBlob: nat, p: nat,
                                data: Bytes, unzip: Bytes -> Option<seq<ZipEntry>>,
                                lookup: string -> Option<string>, accepts: FileRow -> bool)
    requires IngestSpec(rows, nextId, firstBlob, p, data, unzip, lookup, accepts).result.Ok?
    ensures unzip(data).Some?
    ensures var r := IngestSpec(rows, nextId, firstBlob, p, data, unzip, lookup, accepts);
      var files := FileEntries(unzip(data).value);
      var tree := RowsOf(r.rows, p);
      && |tree| == 1 + |files| && |r.saved| == |files|
      && forall k :: 0 <= k < |files| ==> DescribesEntry(tree[k + 1], files[k], nextId, firstBlob + k, lookup)
                                           && r.saved[k] == files[k].content
  {
    NewTreeOfProject(rows, nextId, firstBlob, p, data, unzip, lookup, accepts);
    IngestSucceeded(rows, nextId, firstBlob, p, data, unzip, lookup, accepts);
    TreeDescribesFiles(nextId, firstBlob, p, FileEntries(unzip(data).value), lookup);
  }

  /**
   * The row of a file entry: directly under the Root, not a folder, with the stripped path,
   * its last segment as name, the looked-up MIME type and the given blob.
   */
  predicate DescribesEntry(row: FileRow, e: ZipEntry, rootId: nat, blob: BlobId, lookup: string -> Option<string>) {
    var relativePath := StripTopLevel(e.name);
    && row.parentId == Some(rootId) && !row.folder
    && row.path == Some(relativePath)
    && row.name == FileName(relativePath)
    && row.mimeType == Some(MimeType(FileName(relativePath), lookup))
    && row.fileId == Some(blob)
  }

  lemma TreeDescribesFiles(nextId: nat, firstBlob: nat, p: nat, files: seq<ZipEntry>, lookup: string -> Option<string>)
    ensures var tree := [RootRow(nextId, p)] + FileRows(files, p, nextId, nextId + 1, firstBlob, lookup);
      forall k :: 0 <= k < |files| ==> DescribesEntry(tree[k + 1], files[k], nextId, firstBlob + k, lookup)
  {
    var fileRows := FileRows(files, p, nextId, nextId + 1, firstBlob, lookup);
    var tree := [RootRow(nextId, p)] + fileRows;
    forall k | 0 <= k < |files| ensures DescribesEntry(tree[k + 1], files[k], nextId, firstBlob + k, lookup) {
      assert tree[k + 1] == fileRows[k];
    }
  }

  /** The ids of a new tree are the Root's and those after it. */
  lemma TreeIdsFrom(nextId: nat, firstBlob: nat, p: nat, files: seq<ZipEntry>, lookup: string -> Option<string>)
    ensures var tree := [RootRow(nextId, p)] + FileRows(files, p, nextId, nextId + 1, firstBlob, lookup);
      forall k :: 0 <= k < |tree| ==> tree[k].id == nextId + k
  {
    var fileRows := FileRows(files, p, nextId, nextId + 1, firstBlob, lookup);
    var tree := [RootRow(nextId, p)] + fileRows;
    forall k | 0 <= k < |tree| ensures tree[k].id == nextId + k {
      if k > 0 {
        assert tree[k] == fileRows[k - 1];
      }
    }
  }

  /** No row of a successful run's tree is one of the project's rows from before. */
  lemma PriorRowsGone(rows: seq<FileRow>, nextId: nat, firstBlob: nat, p: nat,
                      data: Bytes, unzip: Bytes -> Option<seq<ZipEntry>>,
                      lookup: string -> Option<string>, accepts: FileRow -> bool)
    requires forall k :: 0 <= k < |rows| ==> rows[k].id < nextId
    requires IngestSpec(rows, nextId, firstBlob, p, data, unzip, lookup, accepts).result.Ok?
    ensures var tree := RowsOf(IngestSpec(rows, nextId, firstBlob, p, data, unzip, lookup, accepts).rows, p);
      forall k :: 0 <= k < |tree| ==> tree[k] !in rows && tree[k].id == nextId + k
  {
    NewTreeOfProject(rows, nextId, firstBlob, p, data, unzip, lookup, accepts);
    TreeIdsFrom(nextId, firstBlob, p, FileEntries(unzip(data).value), lookup);
  }

  // ---------------------------------------------------------------------------
  // processZipFileUpload

  /** The row given to `File.create` and the row stored under the id it gets. */
  lemma RowGetsId(e: ZipEntry, projectId: nat, rootId: nat, blob: BlobId, lookup: string -> Option<string>, id: nat)
    ensures FileRowFor(e, projectId, rootId, 0, blob, lookup).(id := id) == FileRowFor(e, projectId, rootId, id, blob, lookup)
  {
  }

  lemma AppendAssoc<T>(a: seq<T>, b: seq<T>, c: seq<T>)
    ensures (a + b) + c == a + (b + c)
  {
  }

  /** One more entry scanned: it is added to the file entries iff it produces a row. */
  lemma ScanStep(entries: seq<ZipEntry>, i: nat)
    requires i < |entries|
    ensures ProducesRow(entries[i]) ==> FileEntries(entries[..i + 1]) == FileEntries(entries[..i]) + [entries[i]]
    ensures !ProducesRow(entries[i]) ==> FileEntries(entries[..i + 1]) == FileEntries(entries[..i])
    ensures HasIndex(entries[..i + 1])
         == (HasIndex(entries[..i]) || (ProducesRow(entries[i]) && StripTopLevel(entries[i].name) == "index.html"))
  {
    assert entries[..i + 1][..i] == entries[..i];
  }

  lemma AllAcceptedSnoc(rows: seq<FileRow>, row: FileRow, accepts: FileRow -> bool)
    ensures AllAccepted(rows + [row], accepts) == (AllAccepted(rows, accepts) && accepts(row))
  {
    assert (rows + [row])[..|rows|] == rows;
  }

  lemma FileRowsSnoc(files: seq<ZipEntry>, e: ZipEntry, p: nat, rootId: nat, firstId: nat, firstBlob: nat,
                     lookup: string -> Option<string>)
    ensures FileRows(files + [e], p, rootId, firstId, firstBlob, lookup)
         == FileRows(files, p, rootId, firstId, firstBlob, lookup)
            + [FileRowFor(e, p, rootId, firstId + |files|, firstBlob + |files|, lookup)]
    ensures Contents(files + [e]) == Contents(files) + [e.content]
  {
    var a := FileRows(files + [e], p, rootId, firstId, firstBlob, lookup);
    var b := FileRows(files, p, rootId, firstId, firstBlob, lookup)
             + [FileRowFor(e, p, rootId, firstId + |files|, firstBlob + |files|, lookup)];
    forall k | 0 <= k < |a| ensures a[k] == b[k] {
      if k < |files| {
        assert (files + [e])[k] == files[k];
      }
    }
    var c, d := Contents(files + [e]), Contents(files) + [e.content];
    forall k | 0 <= k < |c| ensures c[k] == d[k] {
      if k < |files| {
        assert (files + [e])[k] == files[k];
      }
    }
  }

  /**
   * One pass of the loop over `Object.values(zip.files)`: an entry that gets a row has its
   * content saved and its row inserted under `rootId`. Reports whether the entry got a
   * row, whether it is the top-level `index.html`, and whether the insert was accepted.
   */
  method AddEntry(e: ZipEntry, projectId: nat, rootId: nat, lookup: string -> Option<string>,
                  files: FileTable, blobs: BlobStore)
      returns (produced: bool, isIndex: bool, ok: bool, ghost row: FileRow)
    requires files.Valid()
    modifies files, blobs
    ensures files.Valid()
    ensures produced == ProducesRow(e)
    ensures isIndex == (produced && StripTopLevel(e.name) == "index.html")
    ensures !produced ==> files.rows == old(files.rows) && files.nextId == old(files.nextId)
                          && blobs.blobs == old(blobs.blobs) && ok
    ensures produced ==>
      && row == FileRowFor(e, projectId, rootId, old(files.nextId), old(|blobs.blobs|), lookup)
      && blobs.blobs == old(blobs.blobs) + [e.content]
      && files.nextId == old(files.nextId) + 1
      && ok == files.accepts(row)
      && files.rows == (if ok then old(files.rows) + [row] else old(files.rows))
  {
    produced, isIndex, ok := false, false, true;
    row := RootRow(0, projectId);
    if !(IsTopLevelDir(e.name) || e.name == "") {
      var relativePath := StripTopLevel(e.name);
      if relativePath != "" {
        var parentId := rootId;
        if !e.dir {
          var fileId := blobs.Save(e.content);
          var id;
          id, ok := files.Create(FileRowFor(e, projectId, parentId, 0, fileId, lookup));
          RowGetsId(e, projectId, rootId, fileId, lookup, id);
          row := FileRowFor(e, projectId, rootId, id, fileId, lookup);
          produced := true;
          if relativePath == "index.html" {
            isIndex := true;
          }
        }
      }
    }
  }

  /**
   * What the loop over the first `i` entries has computed: the file entries among them,
   * their rows (ids from `n`, blobs from `b0`), their contents, and the `hasIndex` flag.
   */
  ghost predicate Scanned(entries: seq<ZipEntry>, i: nat, projectId: nat, rootId: nat,
                          lookup: string -> Option<string>, n: nat, b0: nat,
                          done: seq<ZipEntry>, added: seq<FileRow>, saved: seq<Bytes>, hasIndex: bool)
  {
    && i <= |entries|
    && done == FileEntries(entries[..i]) && hasIndex == HasIndex(entries[..i])
    && added == FileRows(done, projectId, rootId, n, b0, lookup) && saved == Contents(done)
  }

  /** One pass of the loop, with its effect on what has been scanned. */
  method ScanEntry(entries: seq<ZipEntry>, i: nat, projectId: nat, rootId: nat,
                   lookup: string -> Option<string>, files: FileTable, blobs: BlobStore,
                   ghost n: nat, ghost b0: nat, ghost rows0: seq<FileRow>, ghost blobs0: seq<Bytes>,
                   ghost done: seq<ZipEntry>, ghost added: seq<FileRow>, ghost saved: seq<Bytes>,
                   hasIndex: bool, allOk: bool)
      returns (hasIndex': bool, allOk': bool,
               ghost done': seq<ZipEntry>, ghost added': seq<FileRow>, ghost saved': seq<Bytes>)
    requires i < |entries| && Scanned(entries, i, projectId, rootId, lookup, n, b0, done, added, saved, hasIndex)
    requires files.Valid()
    requires files.nextId == n + |done| && |blobs.blobs| == b0 + |done|
    requires blobs.blobs == blobs0 + saved
    requires allOk == AllAccepted(added, files.accepts)
    requires allOk ==> files.rows == rows0 + added
    modifies files, blobs
    ensures Scanned(entries, i + 1, projectId, rootId, lookup, n, b0, done', added', saved', hasIndex')
    ensures files.Valid()
    ensures files.nextId == n + |done'| && |blobs.blobs| == b0 + |done'|
    ensures blobs.blobs == blobs0 + saved'
    ensures allOk' == AllAccepted(added', files.accepts)
    ensures allOk' ==> files.rows == rows0 + added'
  {
    ScanStep(entries, i);
    var produced, isIndex, ok, row := AddEntry(entries[i], projectId, rootId, lookup, files, blobs);
    done', added', saved' := done, added, saved;
    if produced {
      FileRowsSnoc(done, entries[i], projectId, rootId, n, b0, lookup);
      AllAcceptedSnoc(added, row, files.accepts);
      AppendAssoc(blobs0, saved, [entries[i].content]);
      if allOk && ok {
        AppendAssoc(rows0, added, [row]);
      }
      done', added', saved' := done + [entries[i]], added + [row], saved + [entries[i].content];
    }
    allOk' := allOk && ok;
    hasIndex' := hasIndex || isIndex;
  }

  /**
   * The loop over `Object.values(zip.files)` and the `Promise.all` over the inserts it
   * starts. The inserts, which the source issues together, are made one after another; a
   * refused insert does not stop the loop. Returns whether some row is `index.html` and
   * whether every insert succeeded.
   */
  method AddEntries(entries: seq<ZipEntry>, projectId: nat, rootId: nat, lookup: string -> Option<string>,
                    files: FileTable, blobs: BlobStore)
      returns (hasIndex: bool, allOk: bool)
    requires files.Valid()
    modifies files, blobs
    ensures files.Valid()
    ensures files.nextId == old(files.nextId) + |FileEntries(entries)|
    ensures blobs.blobs == old(blobs.blobs) + Contents(FileEntries(entries))
    ensures hasIndex == HasIndex(entries)
    ensures var added := FileRows(FileEntries(entries), projectId, rootId, old(files.nextId), old(|blobs.blobs|), lookup);
      && allOk == AllAccepted(added, files.accepts)
      && (allOk ==> files.rows == old(files.rows) + added)
  {
    ghost var n, b0, rows0, blobs0 := files.nextId, |blobs.blobs|, files.rows, blobs.blobs;
    // the file entries scanned so far, their rows and their contents
    ghost var done: seq<ZipEntry>, added: seq<FileRow>, saved: seq<Bytes> := [], [], [];
    hasIndex, allOk := false, true;
    var i := 0;
    while i < |entries|
      invariant Scanned(entries, i, projectId, rootId, lookup, n, b0, done, added, saved, hasIndex)
      invariant files.Valid()
      invariant files.nextId == n + |done| && |blobs.blobs| == b0 + |done|
      invariant blobs.blobs == blobs0 + saved
      invariant allOk == AllAccepted(added, files.accepts)
      invariant allOk ==> files.rows == rows0 + added
    {
      hasIndex, allOk, done, added, saved :=
        ScanEntry(entries, i, projectId, rootId, lookup, files, blobs, n, b0, rows0, blobs0,
                  done, added, saved, hasIndex, allOk);
      i := i + 1;
    }
    assert entries[..i] == entries;
  }

  /**
   * The part of the transaction after the Root is in: parse the archive, add its entries,
   * and roll back to `snapshot` if the archive is unreadable or a row is refused.
   */
  method IngestArchive(data: Bytes, projectId: nat, rootId: nat, unzip: Bytes -> Option<seq<ZipEntry>>,
                       lookup: string -> Option<string>, files: FileTable, blobs: BlobStore,
                       snapshot: seq<FileRow>, ghost b0: nat)
      returns (r: Result<bool, IngestError>)
    requires files.Valid() && files.nextId == rootId + 1 && |blobs.blobs| == b0
    requires Increasing(snapshot) && forall k :: 0 <= k < |snapshot| ==> snapshot[k].id < rootId
    requires files.accepts(RootRow(rootId, projectId))
    requires files.rows == WithoutProject(snapshot, projectId) + [RootRow(rootId, projectId)]
    modifies files, blobs
    ensures files.Valid() && files.nextId >= old(files.nextId)
    ensures var spec := IngestSpec(snapshot, rootId, b0, projectId, data, unzip, lookup, files.accepts);
      files.rows == spec.rows && blobs.blobs == old(blobs.blobs) + spec.saved && r == spec.result
  {
    var parsed := unzip(data);
    if parsed.None? {
      files.Rollback(snapshot);
      return Err(ArchiveUnreadable);
    }
    IngestReadArchive(snapshot, rootId, b0, projectId, data, unzip, lookup, files.accepts, parsed.value);
    var hasIndex, allOk := AddEntries(parsed.value, projectId, rootId, lookup, files, blobs);
    if !allOk {
      files.Rollback(snapshot);
      return Err(RowNotCreated);
    }
    r := Ok(hasIndex);
  }

  /**
   * The `sequelize.transaction` callback of `processZipFileUpload`: its outcome (the
   * `hasIndex` flag on success), the File rows and the saved blobs are as `IngestSpec` says.
   * A failure rolls the rows back to the snapshot taken at the start.
   */
  method IngestTransaction(data: Bytes, projectId: nat, unzip: Bytes -> Option<seq<ZipEntry>>,
                           lookup: string -> Option<string>, files: FileTable, blobs: BlobStore)
      returns (r: Result<bool, IngestError>)
    requires files.Valid()
    modifies files, blobs
    ensures files.Valid() && files.nextId >= old(files.nextId)
    ensures var spec := IngestSpec(old(files.rows), old(files.nextId), old(|blobs.blobs|), projectId,
                                   data, unzip, lookup, files.accepts);
      files.rows == spec.rows && blobs.blobs == old(blobs.blobs) + spec.saved && r == spec.result
  {
    var snapshot := files.rows;
    files.Destroy(projectId);
    var rootId, rootOk := files.Create(RootRow(0, projectId));
    assert RootRow(0, projectId).(id := rootId) == RootRow(rootId, projectId);
    if !rootOk {
      files.Rollback(snapshot);
      return Err(RootNotCreated);
    }
    r := IngestArchive(data, projectId, rootId, unzip, lookup, files, blobs, snapshot, |blobs.blobs|);
  }

  /**
   * `processZipFileUpload(arrayBuffer, project)`: the transaction, then, once it has
   * committed, `project.update({ hasIndex })`. A failed transaction rejects the call and
   * leaves the project as it was.
   */
  method ProcessZipFileUpload(data: Bytes, projectId: nat, unzip: Bytes -> Option<seq<ZipEntry>>,
                              lookup: string -> Option<string>,
                              files: FileTable, blobs: BlobStore, projects: ProjectTable)
      returns (r: Result<(), IngestError>)
    requires files.Valid() && projects.Valid()
    modifies files, blobs, projects
    ensures files.Valid() && projects.Valid() && files.nextId >= old(files.nextId)
    ensures projects.nextId == old(projects.nextId)
    ensures var spec := IngestSpec(old(files.rows), old(files.nextId), old(|blobs.blobs|), projectId,
                                   data, unzip, lookup, files.accepts);
      && files.rows == spec.rows
      && blobs.blobs == old(blobs.blobs) + spec.saved
      && (r.Ok? <==> spec.result.Ok?)
      && (r.Err? ==> r.error == spec.result.error)
      && projects.rows == (if spec.result.Ok? && projectId in old(projects.rows)
                           then old(projects.rows)[projectId := old(projects.rows)[projectId].(hasIndex := Some(spec.result.value))]
                           else old(projects.rows))
  {
    var outcome := IngestTransaction(data, projectId, unzip, lookup, files, blobs);
    if outcome.Err? {
      return Err(outcome.error);
    }
    projects.SetHasIndex(projectId, outcome.value);
    r := Ok(());
  }

  // ---------------------------------------------------------------------------
  // validateWebhookSignature

  /** `'sha256=' + hmac.digest('hex')`: the header value GitHub sends for a payload. */
  function ExpectedSignature(secret: string, payload: string, hmacHex: (string, string) -> string): string {
    "sha256=" + hmacHex(secret, payload)
  }

  /**
   * `validateWebhookSignature(payload, signature, secret)`: `timingSafeEqual` over the UTF-8
   * bytes, which throws when the byte lengths differ.
   */
  function ValidateWebhookSignature(payload: string, signature: string, secret: string,
                                    hmacHex: (string, string) -> string): (r: Result<bool, LengthMismatch>)
    ensures r == Ok(true) <==> signature == ExpectedSignature(secret, payload, hmacHex)
    ensures r.Err? <==> |Utf8(signature)| != |Utf8(ExpectedSignature(secret, payload, hmacHex))|
  {
    SafeEqualStrings(ExpectedSignature(secret, payload, hmacHex), signature);
    TimingSafeEqual(Utf8(ExpectedSignature(secret, payload, hmacHex)), Utf8(signature))
  }

  // ---------------------------------------------------------------------------
  // extractRepoInfo

  datatype RepoInfo = RepoInfo(owner: Option<string>, repo: Option<string>, ref: string, sha: Option<string>)

  /** A TypeError: a property was read from `undefined` or `null`, or `replace` from a missing ref. */
  datatype TypeError = TypeError

  const HeadsPrefix: string := "refs/heads/"

  /** `extractRepoInfo(payload)`. */
  function ExtractRepoInfo(payload: PushBody): (r: Result<RepoInfo, TypeError>)
    ensures r.Ok? <==> payload.Fields? && payload.repository.Some?
                       && payload.repository.value.owner.Some? && payload.ref.Some?
    ensures r.Ok? ==> (r.value.owner == payload.repository.value.owner.value.login
                       && r.value.repo == payload.repository.value.name
                       && r.value.sha == payload.after)
    ensures r.Ok? && Find(payload.ref.value, HeadsPrefix).None? ==> r.value.ref == payload.ref.value
    ensures r.Ok? && Find(payload.ref.value, HeadsPrefix).Some? ==>
      var i := Find(payload.ref.value, HeadsPrefix).value;
      r.value.ref == payload.ref.value[..i] + payload.ref.value[i + |HeadsPrefix|..]
  {
    match payload
    case NullBody => Err(TypeError)
    case Fields(_, repository, ref, after) =>
      match repository
      case None => Err(TypeError)
      case Some(repo) =>
        match repo.owner
        case None => Err(TypeError)
        case Some(owner) =>
          match ref
          case None => Err(TypeError)
          case Some(refText) => Ok(RepoInfo(owner.login, repo.name, RemoveFirst(refText, HeadsPrefix), after))
  }

  /** A branch ref `refs/heads/<branch>` yields the bare branch name. */
  lemma BranchRefYieldsBranch(payload: PushBody, branch: string)
    requires payload.Fields? && payload.repository.Some? && payload.repository.value.owner.Some?
    requires payload.ref == Some(HeadsPrefix + branch)
    ensures ExtractRepoInfo(payload).Ok? && ExtractRepoInfo(payload).value.ref == branch
  {
    var s := HeadsPrefix + branch;
    assert s[..|HeadsPrefix|] == HeadsPrefix;
    assert Find(s, HeadsPrefix) == Some(0);
  }
}
