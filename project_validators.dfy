/**
 * The zod schemas of `validators/project.ts`. A request body is either not an object or an
 * object whose values are either strings or something else; zod's `object` keeps only the
 * keys a schema names. String lengths count UTF-16 code units, as zod's `min` and `max` do.
 */
module ProjectValidators {
  import opened Wrappers
  import opened Text

  /** A JSON value, as far as a string schema distinguishes it. */
  datatype Value = Str(s: string) | NonString

  /** A request body: `z.object` rejects anything that is not an object. */
  datatype Input = NotAnObject | Object(fields: map<string, Value>)

  /**
   * A failed parse: the paths of the fields with issues; the empty path stands for the body
   * itself.
   */
  type Issues = set<string>

  /** `z.string().optional()` with a refinement `valid`: absent, or a string that passes. */
  predicate FieldOk(fields: map<string, Value>, key: string, valid: string -> bool) {
    key !in fields || (fields[key].Str? && valid(fields[key].s))
  }

  /** The parsed value of an optional string field that passed. */
  function FieldValue(fields: map<string, Value>, key: string): Option<string>
    requires key !in fields || fields[key].Str?
  {
    if key in fields then Some(fields[key].s) else None
  }

  // ---------------------------------------------------------------------------
  // updateProjectSchema

  /** `[a-zA-Z0-9_]`. */
  predicate WordChar(c: char) {
    'a' <= c <= 'z' || 'A' <= c <= 'Z' || '0' <= c <= '9' || c == '_'
  }

  /** `z.string().min(1).max(12).regex(/^[a-zA-Z0-9_]+$/)`. */
  predicate ValidDomain(s: string) {
    1 <= JsLength(s) <= 12 && forall i :: 0 <= i < |s| ==> WordChar(s[i])
  }

  /** A domain is 1 to 12 characters from `[A-Za-z0-9_]`: all of them take one code unit. */
  lemma ValidDomainIff(s: string)
    ensures ValidDomain(s) <==> 1 <= |s| <= 12 && forall i :: 0 <= i < |s| ==> WordChar(s[i])
  {
    if forall i :: 0 <= i < |s| ==> WordChar(s[i]) {
      JsLengthOfBmp(s);
    }
  }

  /** `z.string().min(1).max(12)`. */
  predicate ValidName(s: string) {
    1 <= JsLength(s) <= 12
  }

  /** `z.string().max(4089)`. */
  predicate ValidDescription(s: string) {
    JsLength(s) <= 4089
  }

  /** The output of `updateProjectSchema`: each field is optional. */
  datatype UpdateProject = UpdateProject(domain: Option<string>, name: Option<string>, description: Option<string>)

  function ParseUpdateProject(input: Input): (r: Result<UpdateProject, Issues>)
    ensures input.NotAnObject? ==> r == Err({""})
    ensures input.Object? ==>
      (r.Ok? <==> FieldOk(input.fields, "domain", ValidDomain) && FieldOk(input.fields, "name", ValidName)
                  && FieldOk(input.fields, "description", ValidDescription))
    ensures input.Object? && r.Err? ==>
      && ("domain" in r.error <==> !FieldOk(input.fields, "domain", ValidDomain))
      && ("name" in r.error <==> !FieldOk(input.fields, "name", ValidName))
      && ("description" in r.error <==> !FieldOk(input.fields, "description", ValidDescription))
      && r.error <= {"domain", "name", "description"}
    ensures r.Ok? ==>
      && (r.value.domain.Some? <==> "domain" in input.fields)
      && (r.value.domain.Some? ==> input.fields["domain"] == Str(r.value.domain.value) && ValidDomain(r.value.domain.value))
      && (r.value.name.Some? <==> "name" in input.fields)
      && (r.value.name.Some? ==> input.fields["name"] == Str(r.value.name.value) && ValidName(r.value.name.value))
      && (r.value.description.Some? <==> "description" in input.fields)
      && (r.value.description.Some? ==> input.fields["description"] == Str(r.value.description.value)
                                        && ValidDescription(r.value.description.value))
  {
    match input
    case NotAnObject => Err({""})
    case Object(fields) =>
      var bad := (if FieldOk(fields, "domain", ValidDomain) then {} else {"domain"})
               + (if FieldOk(fields, "name", ValidName) then {} else {"name"})
               + (if FieldOk(fields, "description", ValidDescription) then {} else {"description"});
      if bad != {} then Err(bad)
      else Ok(UpdateProject(FieldValue(fields, "domain"), FieldValue(fields, "name"), FieldValue(fields, "description")))
  }

  /** Every field is optional: an empty object updates nothing. */
  lemma EmptyUpdateIsValid()
    ensures ParseUpdateProject(Object(map[])) == Ok(UpdateProject(None, None, None))
  {
  }

  /** Keys the schema does not name neither fail the parse nor reach its output. */
  lemma UpdateIgnoresOtherKeys(fields: map<string, Value>, key: string, v: Value)
    requires key !in {"domain", "name", "description"}
    ensures ParseUpdateProject(Object(fields[key := v])) == ParseUpdateProject(Object(fields))
  {
    var fields' := fields[key := v];
    assert FieldOk(fields', "domain", ValidDomain) == FieldOk(fields, "domain", ValidDomain);
    assert FieldOk(fields', "name", ValidName) == FieldOk(fields, "name", ValidName);
    assert FieldOk(fields', "description", ValidDescription) == FieldOk(fields, "description", ValidDescription);
  }

  // ---------------------------------------------------------------------------
  // createProjectSchema and queryProjectSchema

  /** `createProjectSchema`: any object passes, and nothing of it is kept. */
  function ParseCreateProject(input: Input): (r: Result<(), Issues>)
    ensures r.Ok? <==> input.Object?
    ensures r.Err? ==> r.error == {""}
  {
    if input.Object? then Ok(()) else Err({""})
  }

  /** The output of `queryProjectSchema`. */
  datatype ProjectQuery = ProjectQuery(name: Option<string>, hasIndex: Option<string>, userId: Option<string>)

  function AnyString(s: string): bool { true }

  /** `queryProjectSchema`: three optional strings with no other constraint. */
  function ParseQuery(input: Input): (r: Result<ProjectQuery, Issues>)
    ensures input.NotAnObject? ==> r == Err({""})
    ensures input.Object? ==>
      (r.Ok? <==> forall k :: k in {"name", "hasIndex", "userId"} && k in input.fields ==> input.fields[k].Str?)
    ensures r.Ok? ==>
      && r.value.name == (if "name" in input.fields then Some(input.fields["name"].s) else None)
      && r.value.hasIndex == (if "hasIndex" in input.fields then Some(input.fields["hasIndex"].s) else None)
      && r.value.userId == (if "userId" in input.fields then Some(input.fields["userId"].s) else None)
  {
    match input
    case NotAnObject => Err({""})
    case Object(fields) =>
      var bad := (if FieldOk(fields, "name", AnyString) then {} else {"name"})
               + (if FieldOk(fields, "hasIndex", AnyString) then {} else {"hasIndex"})
               + (if FieldOk(fields, "userId", AnyString) then {} else {"userId"});
      if bad != {} then Err(bad)
      else Ok(ProjectQuery(FieldValue(fields, "name"), FieldValue(fields, "hasIndex"), FieldValue(fields, "userId")))
  }

  /** Any combination of the three fields, given as strings, is accepted as it is. */
  lemma QueryAcceptsAnyStrings(name: Option<string>, hasIndex: Option<string>, userId: Option<string>)
    ensures
      var fields := (if name.Some? then map["name" := Str(name.value)] else map[])
                  + (if hasIndex.Some? then map["hasIndex" := Str(hasIndex.value)] else map[])
                  + (if userId.Some? then map["userId" := Str(userId.value)] else map[]);
      ParseQuery(Object(fields)) == Ok(ProjectQuery(name, hasIndex, userId))
  {
  }

  // ---------------------------------------------------------------------------
  // uploadZipSchema

  /** A `File` from a multipart form: its name, its declared MIME type and its bytes. */
  datatype Upload = Upload(name: string, mimeType: string, content: Bytes)

  /** 100 MiB, the upload limit. */
  const MaxUploadBytes: nat := 100 * 1024 * 1024

  const NotZipMessage: string := "必须上传 ZIP 文件"
  const TooLargeMessage: string := "文件大小不能超过 100MB"

  /**
   * The first refinement, `type === 'application/zip' || name.endsWith('.zip') && hasZipMagic`:
   * `&&` binds tighter than `||`, so a declared ZIP type passes without the magic check.
   */
  predicate LooksLikeZip(f: Upload, hasZipMagic: Bytes -> bool) {
    f.mimeType == "application/zip" || (EndsWith(f.name, ".zip") && hasZipMagic(f.content))
  }

  /** The second refinement, `size <= 100 * 1024 * 1024`. */
  predicate WithinSizeLimit(f: Upload) {
    |f.content| <= MaxUploadBytes
  }

  /**
   * `uploadZipSchema` on the `file` field (`None` when it is not a `File`). Refinement issues
   * do not abort the parse, so a file failing both gets both messages, in order.
   */
  function ParseUpload(file: Option<Upload>, hasZipMagic: Bytes -> bool): (r: Result<Upload, seq<string>>)
    ensures r.Ok? <==> file.Some? && LooksLikeZip(file.value, hasZipMagic) && WithinSizeLimit(file.value)
    ensures r.Ok? ==> r.value == file.value
    ensures file.Some? && r.Err? ==>
      && (NotZipMessage in r.error <==> !LooksLikeZip(file.value, hasZipMagic))
      && (TooLargeMessage in r.error <==> !WithinSizeLimit(file.value))
  {
    match file
    case None => Err(["Input not instance of File"])
    case Some(f) =>
      var issues := (if LooksLikeZip(f, hasZipMagic) then [] else [NotZipMessage])
                  + (if WithinSizeLimit(f) then [] else [TooLargeMessage]);
      if issues == [] then Ok(f) else Err(issues)
  }

  /** A declared ZIP type of acceptable size passes whatever its name and bytes. */
  lemma DeclaredZipSuffices(name: string, content: Bytes, hasZipMagic: Bytes -> bool)
    requires |content| <= MaxUploadBytes
    ensures ParseUpload(Some(Upload(name, "application/zip", content)), hasZipMagic).Ok?
  {
  }

  /** Without the declared type, a `.zip` name alone is not enough: the bytes must look like ZIP. */
  lemma ZipNameNeedsMagic(f: Upload, hasZipMagic: Bytes -> bool)
    requires f.mimeType != "application/zip"
    ensures ParseUpload(Some(f), hasZipMagic).Ok?
        <==> EndsWith(f.name, ".zip") && hasZipMagic(f.content) && WithinSizeLimit(f)
  {
  }

  /**
   * The precedence matters: reading the check as `(type || name) && magic` would reject a
   * declared ZIP whose bytes fail the magic check, which the schema accepts.
   */
  lemma PrecedenceMatters(hasZipMagic: Bytes -> bool)
    requires !hasZipMagic([])
    ensures var f := Upload("notes.txt", "application/zip", []);
      LooksLikeZip(f, hasZipMagic)
      && !((f.mimeType == "application/zip" || EndsWith(f.name, ".zip")) && hasZipMagic(f.content))
  {
  }
}
