/**
 * The `File` table (one row per file-tree node of a project) and the blob store that
 * `saveFile` writes content into. The File model's own definition and `saveFile` are not
 * part of this model; what the core relies on is stated here: rows get auto-incremented
 * ids, an insert may be refused by the database (the `accepts` oracle), and a transaction
 * can be rolled back to a snapshot of the rows.
 */
module FileStore {
  import opened Wrappers
  import opened Text

  /** An opaque reference to saved content, as returned by `saveFile`. */
  type BlobId = nat

  /** One row of the File table. Every attribute but `id`, `folder` and `projectId` is nullable. */
  datatype FileRow = FileRow(
    id: nat,
    name: Option<string>,
    folder: bool,
    projectId: nat,
    parentId: Option<nat>,
    path: Option<string>,
    fileId: Option<BlobId>,
    mimeType: Option<string>)

  /** The folder row that heads a project's tree. */
  function RootRow(id: nat, projectId: nat): FileRow {
    FileRow(id, Some("Root"), true, projectId, None, None, None, None)
  }

  predicate IsRootOf(r: FileRow, projectId: nat) {
    r.projectId == projectId && r.parentId.None? && r.folder && r.name == Some("Root")
  }

  /** The rows of one project, in table order. */
  function RowsOf(rows: seq<FileRow>, projectId: nat): (r: seq<FileRow>)
    ensures |r| <= |rows|
    ensures forall k :: 0 <= k < |r| ==> r[k].projectId == projectId && r[k] in rows
  {
    if rows == [] then []
    else (if rows[0].projectId == projectId then [rows[0]] else []) + RowsOf(rows[1..], projectId)
  }

  /** What `File.destroy({ where: { projectId } })` leaves behind. */
  function WithoutProject(rows: seq<FileRow>, projectId: nat): (r: seq<FileRow>)
    ensures |r| <= |rows|
    ensures forall k :: 0 <= k < |r| ==> r[k].projectId != projectId && r[k] in rows
  {
    if rows == [] then []
    else (if rows[0].projectId != projectId then [rows[0]] else []) + WithoutProject(rows[1..], projectId)
  }

  /** The root rows of one project. */
  function RootsOf(rows: seq<FileRow>, projectId: nat): (r: seq<FileRow>)
    ensures forall k :: 0 <= k < |r| ==> IsRootOf(r[k], projectId) && r[k] in rows
  {
    if rows == [] then []
    else (if IsRootOf(rows[0], projectId) then [rows[0]] else []) + RootsOf(rows[1..], projectId)
  }

  lemma {:induction false} RowsOfAppend(a: seq<FileRow>, b: seq<FileRow>, projectId: nat)
    ensures RowsOf(a + b, projectId) == RowsOf(a, projectId) + RowsOf(b, projectId)
  {
    if a != [] {
      assert (a + b)[1..] == a[1..] + b;
      RowsOfAppend(a[1..], b, projectId);
    } else {
      assert a + b == b;
    }
  }

  lemma {:induction false} RootsOfAppend(a: seq<FileRow>, b: seq<FileRow>, projectId: nat)
    ensures RootsOf(a + b, projectId) == RootsOf(a, projectId) + RootsOf(b, projectId)
  {
    if a != [] {
      assert (a + b)[1..] == a[1..] + b;
      RootsOfAppend(a[1..], b, projectId);
    } else {
      assert a + b == b;
    }
  }

  /** Rows of no other project are touched by deleting one project's rows. */
  lemma {:induction false} WithoutProjectKeepsOthers(rows: seq<FileRow>, p: nat, q: nat)
    ensures RowsOf(WithoutProject(rows, p), p) == []
    ensures q != p ==> RowsOf(WithoutProject(rows, p), q) == RowsOf(rows, q)
  {
    if rows != [] {
      var head := if rows[0].projectId != p then [rows[0]] else [];
      WithoutProjectKeepsOthers(rows[1..], p, q);
      RowsOfAppend(head, WithoutProject(rows[1..], p), p);
      RowsOfAppend(head, WithoutProject(rows[1..], p), q);
    }
  }

  /** A project's roots are found among the project's rows. */
  lemma {:induction false} RootsOfRowsOf(rows: seq<FileRow>, p: nat)
    ensures RootsOf(rows, p) == RootsOf(RowsOf(rows, p), p)
  {
    if rows != [] {
      var head := if rows[0].projectId == p then [rows[0]] else [];
      RootsOfRowsOf(rows[1..], p);
      RootsOfAppend(head, RowsOf(rows[1..], p), p);
    }
  }

  lemma {:induction false} RowsOfSingleProject(rows: seq<FileRow>, p: nat, q: nat)
    requires forall k :: 0 <= k < |rows| ==> rows[k].projectId == p
    ensures RowsOf(rows, q) == if q == p then rows else []
  {
    if rows != [] {
      RowsOfSingleProject(rows[1..], p, q);
      assert rows == [rows[0]] + rows[1..];
    }
  }

  lemma {:induction false} NoRootsAmongChildren(rows: seq<FileRow>, p: nat)
    requires forall k :: 0 <= k < |rows| ==> rows[k].parentId.Some?
    ensures RootsOf(rows, p) == []
  {
    if rows != [] {
      NoRootsAmongChildren(rows[1..], p);
    }
  }

  /**
   * Replacing a project's rows by a root and rows under it: the project's rows are then
   * exactly those, and it has exactly one root.
   */
  lemma ReplacedTree(rows: seq<FileRow>, root: FileRow, children: seq<FileRow>, p: nat)
    requires IsRootOf(root, p)
    requires forall k :: 0 <= k < |children| ==> children[k].projectId == p && children[k].parentId.Some?
    ensures RowsOf(WithoutProject(rows, p) + ([root] + children), p) == [root] + children
    ensures RootsOf(WithoutProject(rows, p) + ([root] + children), p) == [root]
  {
    var others, tree := WithoutProject(rows, p), [root] + children;
    RowsOfAppend(others, tree, p);
    WithoutProjectKeepsOthers(rows, p, p);
    RowsOfSingleProject(tree, p, p);
    RootsOfRowsOf(others + tree, p);
    RootsOfAppend([root], children, p);
    NoRootsAmongChildren(children, p);
  }

  /** ... and every other project keeps its rows. */
  lemma ReplacedTreeKeepsOthers(rows: seq<FileRow>, tree: seq<FileRow>, p: nat, q: nat)
    requires q != p
    requires forall k :: 0 <= k < |tree| ==> tree[k].projectId == p
    ensures RowsOf(WithoutProject(rows, p) + tree, q) == RowsOf(rows, q)
  {
    RowsOfAppend(WithoutProject(rows, p), tree, q);
    WithoutProjectKeepsOthers(rows, p, q);
    RowsOfSingleProject(tree, p, q);
  }

  /** Ids strictly increase along the table: what auto-increment gives. */
  ghost predicate Increasing(rows: seq<FileRow>) {
    forall i, j :: 0 <= i < j < |rows| ==> rows[i].id < rows[j].id
  }

  lemma {:induction false} WithoutProjectIncreasing(rows: seq<FileRow>, p: nat, bound: nat)
    requires Increasing(rows)
    requires forall k :: 0 <= k < |rows| ==> rows[k].id < bound
    ensures Increasing(WithoutProject(rows, p))
    ensures forall k :: 0 <= k < |WithoutProject(rows, p)| ==> WithoutProject(rows, p)[k].id < bound
  {
    if rows != [] {
      WithoutProjectIncreasing(rows[1..], p, bound);
      var rest := WithoutProject(rows[1..], p);
      forall k | 0 <= k < |rest| ensures rows[0].id < rest[k].id {
        var m :| 0 <= m < |rows[1..]| && rows[1..][m] == rest[k];
        assert rows[m + 1] == rest[k];
      }
    }
  }

  /** The File table. */
  class FileTable {
    var rows: seq<FileRow>
    /** The next auto-increment id. Like a database sequence it is not rolled back. */
    var nextId: nat
    /** Whether the database accepts a row (constraints, connection): an oracle. */
    const accepts: FileRow -> bool

    ghost predicate Valid()
      reads this
    {
      Increasing(rows) && forall k :: 0 <= k < |rows| ==> rows[k].id < nextId
    }

    constructor (accepts: FileRow -> bool)
      ensures Valid() && rows == [] && nextId == 0 && this.accepts == accepts
    {
      rows, nextId, this.accepts := [], 0, accepts;
    }

    /** `File.destroy({ where: { projectId } })`. */
    method Destroy(projectId: nat)
      requires Valid()
      modifies this
      ensures Valid() && nextId == old(nextId)
      ensures rows == WithoutProject(old(rows), projectId)
    {
      WithoutProjectIncreasing(rows, projectId, nextId);
      rows := WithoutProject(rows, projectId);
    }

    /**
     * `File.create(...)`: the row gets the next id; it is appended when the database
     * accepts it, and the call fails otherwise.
     */
    method Create(r: FileRow) returns (id: nat, ok: bool)
      requires Valid()
      modifies this
      ensures Valid()
      ensures id == old(nextId) && nextId == old(nextId) + 1
      ensures ok == accepts(r.(id := id))
      ensures rows == if ok then old(rows) + [r.(id := id)] else old(rows)
    {
      id := nextId;
      nextId := nextId + 1;
      ok := accepts(r.(id := id));
      if ok {
        rows := rows + [r.(id := id)];
      }
    }

    /** Undoes a transaction: the rows return to the snapshot taken at its start. */
    method Rollback(snapshot: seq<FileRow>)
      requires Valid()
      requires Increasing(snapshot)
      requires forall k :: 0 <= k < |snapshot| ==> snapshot[k].id < nextId
      modifies this
      ensures Valid() && rows == snapshot && nextId == old(nextId)
    {
      rows := snapshot;
    }
  }

  /** Content storage written by `saveFile`; it lies outside the database transaction. */
  class BlobStore {
    var blobs: seq<Bytes>

    constructor ()
      ensures blobs == []
    {
      blobs := [];
    }

    /** `saveFile(content)`: stores the bytes and returns their id. */
    method Save(content: Bytes) returns (id: BlobId)
      modifies this
      ensures blobs == old(blobs) + [content] && id == old(|blobs|)
      ensures blobs[id] == content
    {
      id := |blobs|;
      blobs := blobs + [content];
    }
  }
}
