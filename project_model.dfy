/**
 * The `projects` table: attribute defaults and nullability, the auto-incremented id, and
 * the `afterCreate` hook that inserts the project's Root folder row into the File table.
 */
module ProjectModel {
  import opened Wrappers
  import opened FileStore

  /** A stored project. Nullable columns are `Option`s. */
  datatype Project = Project(
    id: nat,
    name: string,
    description: Option<string>,
    userId: nat,
    domain: Option<string>,
    hasIndex: Option<bool>,
    githubRepo: Option<string>,
    githubOwner: Option<string>)

  /** A creation attribute: left out, given as `null`, or given a value. */
  datatype Given<+T> = Omitted | Null | Set(value: T) {
    /** The given value, or `default` when the attribute was left out or null. */
    function GetOr(default: T): T {
      match this
      case Set(v) => v
      case _ => default
    }
  }

  /** The attributes `Project.create` receives (`id` is never given). */
  datatype NewProject = NewProject(
    name: Given<string>,
    description: Given<string>,
    userId: Given<nat>,
    domain: Given<string>,
    hasIndex: Given<bool>,
    githubRepo: Given<string>,
    githubOwner: Given<string>)

  /**
   * Why `Project.create` rejects: a notNull violation (a non-nullable attribute without
   * default was null), the database refusing the project row, or the hook's Root insert
   * being refused.
   */
  datatype CreateError = NameIsNull | UserIdIsNull | ProjectRejected | RootRejected

  /** The name a new project gets when none is given. */
  const DefaultName: string := "未命名"

  /** A nullable attribute: `defaultValue` when left out, null when given null. */
  function Nullable<T>(g: Given<T>, default: Option<T>): (r: Option<T>)
    ensures g.Set? ==> r == Some(g.value)
    ensures g.Null? ==> r.None?
    ensures g.Omitted? ==> r == default
  {
    match g
    case Omitted => default
    case Null => None
    case Set(v) => Some(v)
  }

  /**
   * The row Sequelize stores for the given attributes under a fresh id, or the
   * validation error it raises.
   */
  function Resolve(id: nat, np: NewProject): (r: Result<Project, CreateError>)
    ensures r.Ok? <==> !np.name.Null? && np.userId.Set?
    ensures np.name.Null? ==> r == Err(NameIsNull)
    ensures r.Ok? ==> r.value.id == id && r.value.userId == np.userId.value
    ensures r.Ok? ==> r.value.name == (if np.name.Set? then np.name.value else DefaultName)
    ensures r.Ok? ==> r.value.description == Nullable(np.description, Some(""))
    ensures r.Ok? ==> r.value.hasIndex == Nullable(np.hasIndex, Some(false))
    ensures r.Ok? ==> r.value.domain == Nullable(np.domain, None)
    ensures r.Ok? ==> r.value.githubRepo == Nullable(np.githubRepo, None)
    ensures r.Ok? ==> r.value.githubOwner == Nullable(np.githubOwner, None)
  {
    if np.name.Null? then Err(NameIsNull)
    else
      var name := np.name.GetOr(DefaultName);
      match np.userId
      case Set(uid) =>
        Ok(Project(id, name,
                   Nullable(np.description, Some("")), uid,
                   Nullable(np.domain, None), Nullable(np.hasIndex, Some(false)),
                   Nullable(np.githubRepo, None), Nullable(np.githubOwner, None)))
      case _ => Err(UserIdIsNull)
  }

  /** A project created with no attributes but its owner gets every default. */
  lemma DefaultsOfBareProject(id: nat, uid: nat)
    ensures Resolve(id, NewProject(Omitted, Omitted, Set(uid), Omitted, Omitted, Omitted, Omitted))
         == Ok(Project(id, "未命名", Some(""), uid, None, Some(false), None, None))
  {
  }

  /** The rows a creation leaves in the File table for the new project, over those it had. */
  lemma {:induction false} CreatedProjectHasOnlyRoot(before: seq<FileRow>, rootId: nat, p: nat)
    requires RowsOf(before, p) == []
    ensures RowsOf(before + [RootRow(rootId, p)], p) == [RootRow(rootId, p)]
    ensures |RootsOf(before + [RootRow(rootId, p)], p)| == 1
  {
    RowsOfAppend(before, [RootRow(rootId, p)], p);
    RootsOfRowsOf(before, p);
    RootsOfAppend(before, [RootRow(rootId, p)], p);
    assert RootsOf(before, p) == RootsOf([], p);
  }

  /** The `projects` table. */
  class ProjectTable {
    var rows: map<nat, Project>
    /** The next auto-increment id; like a database sequence it is never reused. */
    var nextId: nat
    /** Whether the database accepts a project row (the `userId` foreign key): an oracle. */
    const accepts: Project -> bool

    ghost predicate Valid()
      reads this
    {
      forall k :: k in rows ==> k < nextId && rows[k].id == k
    }

    constructor (accepts: Project -> bool)
      ensures Valid() && rows == map[] && nextId == 0 && this.accepts == accepts
    {
      rows, nextId, this.accepts := map[], 0, accepts;
    }

    /**
     * `Project.create(attrs, { transaction })` followed by its `afterCreate` hook, which
     * inserts the Root folder row under `options.transaction`. A validation error stops
     * before any insert. The project insert takes the next id and may be refused. When the
     * caller passed a transaction (`inTransaction`), a refused Root insert rolls the project
     * row back with it; without one the project insert has already committed and stays,
     * although `create` rejects.
     */
    method Create(np: NewProject, inTransaction: bool, files: FileTable) returns (r: Result<nat, CreateError>)
      requires Valid() && files.Valid()
      modifies this, files
      ensures Valid() && files.Valid()
      ensures var resolved := Resolve(old(nextId), np);
        resolved.Err? ==>
          && r == Err(resolved.error) && rows == old(rows) && nextId == old(nextId)
          && files.rows == old(files.rows) && files.nextId == old(files.nextId)
      ensures var resolved := Resolve(old(nextId), np);
        resolved.Ok? ==>
          && nextId == old(nextId) + 1 && old(nextId) !in old(rows)
          && files.nextId == old(files.nextId) + (if accepts(resolved.value) then 1 else 0)
      ensures var resolved := Resolve(old(nextId), np);
        resolved.Ok? && !accepts(resolved.value) ==>
          r == Err(ProjectRejected) && rows == old(rows) && files.rows == old(files.rows)
      ensures var resolved := Resolve(old(nextId), np);
        resolved.Ok? && accepts(resolved.value) ==>
          var stored := old(rows)[old(nextId) := resolved.value];
          var root := RootRow(old(files.nextId), old(nextId));
          && (r.Ok? <==> files.accepts(root))
          && (r.Ok? ==> r.value == old(nextId) && rows == stored && files.rows == old(files.rows) + [root])
          && (r.Err? ==> r.error == RootRejected && files.rows == old(files.rows)
                         && rows == if inTransaction then old(rows) else stored)
    {
      var id := nextId;
      var resolved := Resolve(id, np);
      if resolved.Err? {
        return Err(resolved.error);
      }
      nextId := nextId + 1;
      if !accepts(resolved.value) {
        return Err(ProjectRejected);
      }
      rows := rows[id := resolved.value];
      var rootId, ok := files.Create(FileRow(0, Some("Root"), true, id, None, None, None, None));
      if !ok {
        if inTransaction {
          rows := rows - {id};
          assert rows == old(rows);
        }
        return Err(RootRejected);
      }
      r := Ok(id);
    }

    /** `project.update({ hasIndex })`; an update of a missing project changes nothing. */
    method SetHasIndex(id: nat, hasIndex: bool)
      requires Valid()
      modifies this
      ensures Valid() && nextId == old(nextId)
      ensures rows == if id in old(rows) then old(rows)[id := old(rows)[id].(hasIndex := Some(hasIndex))] else old(rows)
    {
      if id in rows {
        rows := rows[id := rows[id].(hasIndex := Some(hasIndex))];
      }
    }
  }
}
