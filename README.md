# lumin-web: GitHub ingestion, in Dafny

This project models the part of lumin-web that turns a GitHub repository into a project's
file tree. It also proves properties of that model. The model covers:

- **Materializing an archive** (`processZipFileUpload`). The project's File rows are deleted. A
  new `Root` folder row is created. Every file entry of the archive has its content saved and
  a row inserted under the Root. All of this runs in one transaction that is rolled back on
  any failure. The `hasIndex` flag is written to the project afterwards.
- **The webhook routes**. `/gh_callback` checks the HMAC signature on the raw body. It then
  processes `push` events only. `processPush` makes four GitHub calls in a fixed order: token,
  check-run creation, zipball download, check-run update. The installation token and the
  check-run id are threaded through those calls. `/_private/_webhook` runs `processPush` with
  no signature check.
- **The GitHub service**. This covers the archive URL and its default branch, the
  download-then-materialize sequence that reports `true`/`false`, and the check-run report
  with its title and summary.
- **The `Project` record**. This covers attribute defaults and nullability, auto-incremented
  ids, and the `afterCreate` hook that inserts the project's Root row.
- **The zod schemas** for projects and for ZIP uploads.
- **The client's user store**. It mirrors a token, a user and a login flag into `localStorage`.

Modules:

- `Wrappers`: `Option`, `Result`.
- `Text`: UTF-8 encoding, `timingSafeEqual`, UTF-16 length, `indexOf`, `replace`, `split`.
- `FileStore`: the File table and the blob store, as classes.
- `ProjectModel`: the Project record and the `projects` table.
- `GithubApi`: payload fields, outbound requests, and a `Host` that records calls and answers
  them through an oracle.
- `GithubUtils`: `utils/github.ts`.
- `GithubRouter`: `routers/github.ts`.
- `GithubService`: `services/githubService.ts`.
- `ProjectValidators`: `validators/project.ts`.
- `UserStore`: `stores/user.ts`.

Imperative code is modelled imperatively:

- the ingestion loop;
- the transaction;
- the handlers;
- the service calls;
- the store.

Each method is proved against a pure function, and the properties are lemmas about that
function. Examples:

- `IngestTransaction` is proved against `IngestSpec`.
- `ProcessPush` is proved against `PushTrace`.
- `GhCallback` is proved against `CallbackSpec`.
- `Store.Logout` is proved against `AfterLogout`.

Some behaviour comes from outside the core. It is passed in as a parameter, and the model does
not say what it computes:

- `unzip` stands for JSZip;
- `lookup` stands for mime-types;
- `hmacHex` stands for HMAC-SHA256 with a hex digest;
- `hasZipMagic`;
- `parseJson` stands for `JSON.parse`;
- the `accepts` predicates of the File table and of the projects table decide whether the database accepts an insert;
- the `reply` oracle of `Host` stands for the network.

Environment variables are parameters too.

Points of the code the model keeps as written:

- `timingSafeEqual` throws on buffers of different byte length
  (`lumin-server/src/utils/github.ts:98`, `lumin-server/src/routers/github.ts:14`). The model
  returns an error in that case, and `/gh_callback` answers 500 (`WrongLengthSignatureFails`).
- The router does no project lookup and sends no 404. Its `processPush` unzips the archive
  but stores it nowhere (`lumin-server/src/routers/github.ts:50-51`).
- `project.update({ hasIndex })` runs after the transaction has committed, not inside it
  (`lumin-server/src/utils/github.ts:84`).
- The loop over the entries is a plain `for` loop (`lumin-server/src/utils/github.ts:38-78`).
  The model reads its inserts sequentially: they are made one after another in loop order,
  every content is saved, and then `Promise.all` fails if some insert was refused. That
  reading is a choice of the model. In the code the inserts run alongside the loop,
  `Promise.all` rejects with the first refusal only, and an insert refused while the loop is
  still awaiting `zipEntry.async` or `saveFile` (lines 57-58) has no handler until line 80.
- After `logout`, a reloaded store believes it is logged in. `logout` stores the string
  `"false"`, and `Boolean("false")` is true (`UserStore.ReloadAfterLogout`).

## Model

| member | source | states |
|---|---|---|
| Text.TimingSafeEqual | lumin-server/src/utils/github.ts:98 | an error exactly when the byte lengths differ; true exactly when the buffers are equal |
| Text.Utf8Injective | lumin-server/src/utils/github.ts:98 | `Buffer.from` is injective on strings, so comparing bytes compares strings |
| Text.SafeEqualStrings | lumin-server/src/utils/github.ts:98 | `timingSafeEqual` of two strings' bytes is true iff the strings are equal, and equal strings never throw |
| Text.JsLength | lumin-server/src/validators/project.ts:11-13 | the UTF-16 length zod counts lies between the number of characters and twice that |
| Text.JsLengthOfBmp | lumin-server/src/validators/project.ts:11 | for characters in the Basic Multilingual Plane, the UTF-16 length is the number of characters |
| Text.Utf8 | lumin-server/src/utils/github.ts:98 | `Buffer.from(s)`: the UTF-8 bytes of the string, one to four per character, empty iff the string is |
| Text.IndexOf | lumin-server/src/utils/github.ts:36 | the first slash, which the `^[^/]+/` regex looks for: a position inside the string, or none |
| Text.EndsWith | lumin-server/src/validators/project.ts:26 | `name.endsWith('.zip')`: the string's last characters are the suffix |
| Text.IndexOfFirst | lumin-server/src/utils/github.ts:36 | `indexOf` finds a character iff it occurs, and then at its first occurrence |
| Text.Find | lumin-server/src/utils/github.ts:112 | the string `indexOf` gives the first position where the pattern occurs, or none when it occurs nowhere |
| Text.RemoveFirst | lumin-server/src/utils/github.ts:112 | `replace` with a string pattern removes only the first occurrence, and leaves the string unchanged when there is none |
| Text.SplitOnSlash | lumin-server/src/utils/github.ts:52 | `split('/')`: the pieces between slashes, at least one |
| Text.NonEmpty | lumin-server/src/utils/github.ts:52 | `filter(Boolean)`: the non-empty pieces, never more than given |
| Text.SplitOnSlashPieces | lumin-server/src/utils/github.ts:52 | no piece of `split('/')` holds a slash, and joining the pieces with `/` gives the string back |
| Text.NonEmptyKeeps | lumin-server/src/utils/github.ts:52 | `filter(Boolean)` keeps only non-empty pieces, all taken from the input, and keeps every non-empty piece |
| Text.NonEmptyAppend | lumin-server/src/utils/github.ts:52 | `filter(Boolean)` distributes over concatenation, so it keeps the order of the pieces |
| Text.NonEmptySingle | lumin-server/src/utils/github.ts:52 | on one piece, `filter(Boolean)` keeps it iff it is non-empty |
| FileStore.RootRow | lumin-server/src/utils/github.ts:22-27 | the Root row literal: named Root, a folder, no parent, no path, blob or MIME type (the same literal as models/project.ts:75-80) |
| FileStore.WithoutProject | lumin-server/src/utils/github.ts:19 | deleting a project's rows keeps only rows of other projects, each taken from the table |
| FileStore.WithoutProjectKeepsOthers | lumin-server/src/utils/github.ts:19 | after the deletion the project has no rows, and every other project has exactly its old rows |
| FileStore.ReplacedTree | lumin-server/src/utils/github.ts:19-27 | replacing a project's rows by a root and rows under it leaves exactly those rows and exactly one root |
| FileStore.ReplacedTreeKeepsOthers | lumin-server/src/utils/github.ts:19 | replacing one project's tree leaves every other project's rows unchanged |
| FileStore.FileTable.Destroy | lumin-server/src/utils/github.ts:19 | `File.destroy` removes exactly the project's rows and keeps ids increasing |
| FileStore.FileTable.Create | lumin-server/src/utils/github.ts:22-27 | `File.create` uses the next id, which is consumed even on refusal; the row is appended iff the database accepts it |
| FileStore.FileTable.Rollback | lumin-server/src/utils/github.ts:17 | a rolled-back transaction restores the rows and keeps the id counter |
| FileStore.BlobStore.Save | lumin-server/src/utils/github.ts:58 | `saveFile` stores the bytes under a fresh id |
| ProjectModel.Nullable | lumin-server/src/database/models/project.ts:37-66 | a nullable attribute takes its default when omitted, is null when given null, and otherwise takes the given value |
| ProjectModel.Resolve | lumin-server/src/database/models/project.ts:25-67 | creation fails iff `name` is null or `userId` is missing; otherwise `name` defaults to 未命名, `description` to "", `hasIndex` to false, and `domain`, `githubRepo`, `githubOwner` to null |
| ProjectModel.DefaultsOfBareProject | lumin-server/src/database/models/project.ts:32-58 | a project created with only its owner gets every default |
| ProjectModel.CreatedProjectHasOnlyRoot | lumin-server/src/database/models/project.ts:73-84 | after creation the project's only File row is its Root, so it has exactly one root |
| ProjectModel.ProjectTable.Create | lumin-server/src/database/models/project.ts:25-84 | a validation error inserts nothing; a refused project row stores nothing; once the project row is in, creation succeeds iff the Root row (folder, no parent, named Root, with the new id) is accepted, and a refused Root leaves the project row stored exactly when no transaction was passed; ids are fresh |
| ProjectModel.ProjectTable.SetHasIndex | lumin-server/src/utils/github.ts:84 | `project.update({ hasIndex })` changes that flag of that project only |
| GithubApi.Host.Send | lumin-server/src/routers/github.ts:27-63 | every outbound call is appended to the log and answered by the host's oracle |
| GithubUtils.IsTopLevelDir | lumin-server/src/utils/github.ts:40 | `/^[^\/]+\/$/`: one non-empty segment followed by the only slash |
| GithubUtils.StripTopLevel | lumin-server/src/utils/github.ts:45 | `replace(/^[^\/]+\//, '')`: drops a leading non-empty segment and its slash |
| GithubUtils.StripKeepsUnprefixed | lumin-server/src/utils/github.ts:45 | a name that has no slash or starts with one is left unchanged by the `^[^/]+/` replace |
| GithubUtils.StripPrefixedPath | lumin-server/src/utils/github.ts:36-45 | `segment/rest` becomes `rest` when the segment is non-empty and has no slash |
| GithubUtils.StripEmptyIff | lumin-server/src/utils/github.ts:40-50 | the stripped path is empty iff the name is empty or a bare top-level directory |
| GithubUtils.FileName | lumin-server/src/utils/github.ts:52-59 | the last element of `split('/').filter(Boolean)`, or none when that is empty |
| GithubUtils.FileNameIsLastSegment | lumin-server/src/utils/github.ts:52-59 | the row name is the last non-empty `/`-segment of the path; there is none iff the path is all slashes |
| GithubUtils.MimeType | lumin-server/src/utils/github.ts:70 | `lookup(fileName) or 'text/plain'` |
| GithubUtils.MimeTypeFallback | lumin-server/src/utils/github.ts:70 | the MIME type is the lookup's non-empty answer, otherwise `text/plain`; it is never empty |
| GithubUtils.ProducesRow | lumin-server/src/utils/github.ts:40-56 | an entry gets a row iff it is not empty or the top-level directory, its stripped path is non-empty, and it is no directory |
| GithubUtils.FileEntries | lumin-server/src/utils/github.ts:38-56 | the entries that get a row are no more than the entries |
| GithubUtils.FileEntriesProduce | lumin-server/src/utils/github.ts:38-56 | each of them passes the skip, empty-path and directory guards and comes from the archive |
| GithubUtils.FileEntriesExactly | lumin-server/src/utils/github.ts:40-56 | an entry gets a row iff it is not a directory and its stripped path is non-empty |
| GithubUtils.HasIndex | lumin-server/src/utils/github.ts:74-76 | the flag after the loop: some entry that got a row has the stripped path `index.html` |
| GithubUtils.HasIndexIff | lumin-server/src/utils/github.ts:74-76 | `hasIndex` is set iff some file entry's stripped path is exactly `index.html` |
| GithubUtils.SingleEntryHasIndex | lumin-server/src/utils/github.ts:74-76 | a single entry sets the flag iff it is the file `index.html` once stripped |
| GithubUtils.IndexAtTopLevelCounts | lumin-server/src/utils/github.ts:45-76 | `repo/index.html` sets the flag |
| GithubUtils.NestedIndexDoesNotCount | lumin-server/src/utils/github.ts:45-76 | `repo/docs/index.html` does not set the flag |
| GithubUtils.FileRowFor | lumin-server/src/utils/github.ts:63-71 | the inserted row: the file name, not a folder, the project, the Root as parent, the stripped path, the saved blob and the MIME type |
| GithubUtils.FileRows | lumin-server/src/utils/github.ts:62-71 | one row per file entry |
| GithubUtils.Contents | lumin-server/src/utils/github.ts:57-58 | one saved blob per file entry |
| GithubUtils.AllAccepted | lumin-server/src/utils/github.ts:80 | the success condition of `Promise.all`: every insert accepted |
| GithubUtils.AllAcceptedEvery | lumin-server/src/utils/github.ts:80 | `Promise.all` succeeds iff every insert is accepted |
| GithubUtils.IngestSpec | lumin-server/src/utils/github.ts:17-81 | the transaction as a function: refused Root, unreadable archive or refused row leave the rows as before; success replaces the project's rows by the Root and the file rows; contents saved once the archive is read |
| GithubUtils.IngestReadArchive | lumin-server/src/utils/github.ts:17-81 | once the Root is in and the archive read, the run commits the Root and the file rows exactly when every row is accepted, and saves the contents either way |
| GithubUtils.IngestOutcome | lumin-server/src/utils/github.ts:17-81 | the run fails iff the Root is refused, the archive is unreadable or a row is refused; a failure leaves the rows as they were; success reports `hasIndex` |
| GithubUtils.IngestSucceeded | lumin-server/src/utils/github.ts:17-81 | a successful run leaves the other projects' rows, then the Root, then one row per file entry, and saves each file's content |
| GithubUtils.NewTreeOfProject | lumin-server/src/utils/github.ts:19-72 | after success the project's rows are its new Root and one row per file entry, giving 1 + files rows and exactly one root |
| GithubUtils.OtherProjectsUntouched | lumin-server/src/utils/github.ts:19 | whatever the outcome, other projects keep their rows |
| GithubUtils.FileRowsDescribeEntries | lumin-server/src/utils/github.ts:52-71 | every file row hangs under the new Root, is not a folder, carries the stripped path, the last segment as name, the looked-up MIME type, and the blob holding exactly that entry's content |
| GithubUtils.TreeDescribesFiles | lumin-server/src/utils/github.ts:54-70 | each row of a new tree describes its entry |
| GithubUtils.TreeIdsFrom | lumin-server/src/utils/github.ts:22-71 | a new tree's ids run consecutively from the Root's |
| GithubUtils.PriorRowsGone | lumin-server/src/utils/github.ts:19-27 | no row of the new tree is a row from before the call |
| GithubUtils.ScanStep | lumin-server/src/utils/github.ts:38-76 | one more scanned entry adds a row iff it passes the guards, and sets the flag iff it is `index.html` |
| GithubUtils.AddEntry | lumin-server/src/utils/github.ts:38-77 | one loop pass: an entry that passes the guards has its content saved and its row inserted under the Root; any other entry changes nothing |
| GithubUtils.ScanEntry | lumin-server/src/utils/github.ts:38-78 | one pass keeps the loop's account of the file entries seen, their rows, their saved contents and the flag |
| GithubUtils.AddEntries | lumin-server/src/utils/github.ts:38-80 | the loop saves the contents of exactly the file entries, computes `hasIndex`, and inserts all their rows when every insert is accepted |
| GithubUtils.IngestArchive | lumin-server/src/utils/github.ts:29-81 | after the Root is in, the rest of the transaction leaves the rows, blobs and outcome `IngestSpec` gives, rolling back on an unreadable archive or a refused row |
| GithubUtils.IngestTransaction | lumin-server/src/utils/github.ts:17-81 | the transaction leaves exactly the rows, blobs and outcome of `IngestSpec` |
| GithubUtils.ProcessZipFileUpload | lumin-server/src/utils/github.ts:13-85 | the transaction, then `hasIndex` written to the project iff it committed; a failure is reported and leaves the project unchanged |
| GithubUtils.ExpectedSignature | lumin-server/src/utils/github.ts:97 | `'sha256=' + hex digest` of the payload under the secret |
| GithubUtils.ValidateWebhookSignature | lumin-server/src/utils/github.ts:90-99 | true iff the signature equals `sha256=` + hex digest; an error iff the byte lengths differ |
| GithubUtils.ExtractRepoInfo | lumin-server/src/utils/github.ts:104-116 | fails iff the payload is null or lacks repository, owner or ref; copies owner, repo and sha unchanged; removes the first `refs/heads/` from ref |
| GithubUtils.BranchRefYieldsBranch | lumin-server/src/utils/github.ts:112 | `refs/heads/<branch>` yields `<branch>` |
| GithubRouter.VerifySignature | lumin-server/src/routers/github.ts:9-15 | false when the secret or signature is empty or absent; true iff the signature is `sha256=` + hex digest; an error (a throw) iff the byte lengths differ |
| GithubRouter.VerifyIsValidate | lumin-server/src/routers/github.ts:11-14 | past its guard, the router's check is `validateWebhookSignature` |
| GithubRouter.InstallationId | lumin-server/src/routers/github.ts:18 | `body.installation?.id` |
| GithubRouter.SkipsPush | lumin-server/src/routers/github.ts:18-21 | the early return: a falsy installation id or a missing repository |
| GithubRouter.PushTrace | lumin-server/src/routers/github.ts:17-64 | no call iff the installation id is missing or 0 or the repository is missing (a null body throws); otherwise token, check run (in_progress, head_sha = after), zipball at ref = after, then patch (completed, success, returned check-run id), each made iff the previous step got the reply it expects (and the owner is present, and the archive unzips); resolves iff it returned early or the patch was accepted |
| GithubRouter.PushCompletes | lumin-server/src/routers/github.ts:17-64 | when every reply has the expected form and the archive unzips, the calls are exactly token, create, zipball, patch, and the run resolves iff the patch is accepted |
| GithubRouter.ProcessPush | lumin-server/src/routers/github.ts:17-64 | makes exactly the calls of `PushTrace` and settles as it says |
| GithubRouter.WebhookSecret | lumin-server/src/routers/github.ts:71 | an unset secret reads as the empty string |
| GithubRouter.CallbackSpec | lumin-server/src/routers/github.ts:66-81 | 401 iff verification is false; no call unless verified; a length mismatch gives 500; a non-push event gives `{ok:true}` with no call; a verified push makes exactly the calls of `processPush` on the parsed body, and an unparseable one gives 500 with no call |
| GithubRouter.WrongLengthSignatureFails | lumin-server/src/routers/github.ts:14 | a signature shorter than `sha256=` makes the handler fail with 500 and no call |
| GithubRouter.GhCallback | lumin-server/src/routers/github.ts:66-81 | answers and calls as `CallbackSpec` says |
| GithubRouter.PrivateWebhookSpec | lumin-server/src/routers/github.ts:83-87 | never 401; malformed JSON gives 500 with no call; otherwise the calls of `processPush`, answering `{ok:true}` iff it resolves |
| GithubRouter.PrivateWebhook | lumin-server/src/routers/github.ts:83-87 | answers and calls as `PrivateWebhookSpec` says |
| GithubRouter.SignedPushAsPrivate | lumin-server/src/routers/github.ts:75-87 | a verified push to `/gh_callback` answers and calls exactly as the private route for the same body |
| GithubService.DefaultRef | lumin-server/src/services/githubService.ts:21 | the ref is the given one, or `main` when left out |
| GithubService.ArchiveUrl | lumin-server/src/services/githubService.ts:27 | the template `https://github.com/${owner}/${repo}/archive/refs/heads/${ref}.zip` |
| GithubService.ArchiveUrlRoundTrip | lumin-server/src/services/githubService.ts:27 | owner, repository and ref read back from the archive URL when owner and repository hold no slash |
| GithubService.ArchiveUrlInjective | lumin-server/src/services/githubService.ts:27 | distinct owner/repo/ref triples give distinct URLs |
| GithubService.DownloadAndProcessRepo | lumin-server/src/services/githubService.ts:17-41 | one download of the archive URL; true iff the download and the materialization both succeed; a failed download changes nothing; never throws |
| GithubService.CheckTitle | lumin-server/src/services/githubService.ts:73 | `Deployment completed` iff the status is completed, else `Deployment in progress` |
| GithubService.CheckSummary | lumin-server/src/services/githubService.ts:74-76 | succeeded iff completed with success; failed iff completed with another or no conclusion; in progress iff not completed |
| GithubService.TitleMatchesSummary | lumin-server/src/services/githubService.ts:73-76 | title and summary agree on whether the deployment is running |
| GithubService.CheckRequestFor | lumin-server/src/services/githubService.ts:64-77 | name `Lumin Deployment`, head_sha = sha, and status, conclusion and details_url passed through unchanged |
| GithubService.UpdateCheckStatus | lumin-server/src/services/githubService.ts:46-84 | exactly one check-run creation is sent, and the method returns normally whatever the reply |
| ProjectValidators.FieldOk | lumin-server/src/validators/project.ts:11-13 | `z.string().optional()` with a rule: the key is absent, or holds a string the rule accepts |
| ProjectValidators.ValidDomain | lumin-server/src/validators/project.ts:11 | `min(1).max(12)` in UTF-16 units and the `^[a-zA-Z0-9_]+$` regex |
| ProjectValidators.ValidName | lumin-server/src/validators/project.ts:12 | `min(1).max(12)` in UTF-16 units |
| ProjectValidators.ValidDescription | lumin-server/src/validators/project.ts:13 | `max(4089)` in UTF-16 units |
| ProjectValidators.ValidDomainIff | lumin-server/src/validators/project.ts:11 | a domain is valid iff it has 1 to 12 characters, all in `[A-Za-z0-9_]` |
| ProjectValidators.ParseUpdateProject | lumin-server/src/validators/project.ts:10-14 | passes iff every present field is a string meeting its rule (domain; name 1..12; description ≤ 4089); reports exactly the failing fields; outputs exactly the present fields |
| ProjectValidators.EmptyUpdateIsValid | lumin-server/src/validators/project.ts:10-14 | every field is optional |
| ProjectValidators.UpdateIgnoresOtherKeys | lumin-server/src/validators/project.ts:10-14 | keys the schema does not name change neither the verdict nor the output |
| ProjectValidators.ParseCreateProject | lumin-server/src/validators/project.ts:6-8 | any object passes; a non-object fails |
| ProjectValidators.ParseQuery | lumin-server/src/validators/project.ts:16-20 | passes iff each present field of `name`, `hasIndex`, `userId` is a string, and outputs them |
| ProjectValidators.QueryAcceptsAnyStrings | lumin-server/src/validators/project.ts:16-20 | any combination of the three fields given as strings is accepted as it is |
| ProjectValidators.LooksLikeZip | lumin-server/src/validators/project.ts:26 | a declared `application/zip` type, or a `.zip` name together with the ZIP magic bytes |
| ProjectValidators.WithinSizeLimit | lumin-server/src/validators/project.ts:30 | at most 100 MiB |
| ProjectValidators.ParseUpload | lumin-server/src/validators/project.ts:22-33 | accepted iff it is a File that passes both the type check and the 100 MiB limit; each failed check reports its own message |
| ProjectValidators.DeclaredZipSuffices | lumin-server/src/validators/project.ts:26 | the type `application/zip` passes without the magic check |
| ProjectValidators.ZipNameNeedsMagic | lumin-server/src/validators/project.ts:26 | otherwise a `.zip` name passes only together with the magic check |
| ProjectValidators.PrecedenceMatters | lumin-server/src/validators/project.ts:26 | reading the check as `(type or name) and magic` would reject a declared ZIP whose bytes fail the magic check, which the schema accepts |
| UserStore.GetItem | lumin-client/src/stores/user.ts:10 | `getItem` gives the stored string, or null when the key is absent |
| UserStore.Truthy | lumin-client/src/stores/user.ts:12 | `Boolean` of a stored value is true iff it is a non-empty string |
| UserStore.Loaded | lumin-client/src/stores/user.ts:10-12 | a new store takes the stored token or null, no user, and a flag that is true iff `isLogin` is stored non-empty |
| UserStore.AfterSetToken | lumin-client/src/stores/user.ts:14-17 | `setToken` sets the token and its stored copy, and leaves the user and the flag unchanged |
| UserStore.AfterLogout | lumin-client/src/stores/user.ts:19-25 | `logout` clears the token, the user and the flag, stores `isLogin = "false"`, removes `token`, and leaves other keys unchanged |
| UserStore.AfterLogin | lumin-client/src/stores/user.ts:27-31 | `login` sets the user and the flag, stores `isLogin = "true"`, and leaves the token and its stored copy unchanged |
| UserStore.LogoutIdempotent | lumin-client/src/stores/user.ts:19-25 | logging out twice gives the same state and storage as logging out once |
| UserStore.ReloadAfterLogout | lumin-client/src/stores/user.ts:12-23 | a store created after a logout has the flag set, because `"false"` is truthy, and has no token |
| UserStore.ReloadAfterLogin | lumin-client/src/stores/user.ts:10-31 | a store created after a login has the flag set and the same token, but no user |
| UserStore.ReloadAfterSetToken | lumin-client/src/stores/user.ts:10-17 | a store created after `setToken(t)` starts with token t |
| UserStore.Store.constructor | lumin-client/src/stores/user.ts:9-12 | the refs start as `Loaded` says |
| UserStore.Store.SetToken | lumin-client/src/stores/user.ts:14-17 | the new state is `AfterSetToken` of the old |
| UserStore.Store.Logout | lumin-client/src/stores/user.ts:19-25 | the new state is `AfterLogout` of the old |
| UserStore.Store.Login | lumin-client/src/stores/user.ts:27-31 | the new state is `AfterLogin` of the old |

## Left out

- JSZip is not modelled: the `unzip` oracle gives the entries, in `Object.values` order, or nothing when the archive cannot be read. Reading an entry's content (`zipEntry.async`) always succeeds in the model.
- `saveFile` (`utils/file`) is not part of this model. It always succeeds in the model, and the blob store hands out consecutive ids. Saved blobs survive a rollback, as they lie outside the database.
- HMAC-SHA256, its hex digest, the mime-types table and `hasZipMagic` are oracles.
- `File.destroy` and `project.update` always succeed in the model. Inserts can be refused: File rows through the File table's `accepts` oracle, project rows (the `userId` foreign key) through the projects table's.
- The inserts that `Promise.all` awaits together are made one after another, in loop order. Concurrent deliveries and transaction isolation are not modelled.
- Sequelize's mechanics are reduced to their effect on the rows: a failed transaction restores the rows, and an insert made outside a transaction commits on its own. Hooks and `sync` are not modelled beyond that. An id consumed by a refused or rolled-back insert is not reused, as with a database sequence.
- Network I/O (axios, Octokit, `@octokit/request`, the installation token) becomes requests recorded by `Host` and answered by its oracle. Header contents are reduced to the token they carry. A reply of a form other than the one a step expects counts as a rejection.
- Constructing the GitHub App (`new App(...)`, `lumin-server/src/routers/github.ts:23-26`) and the Octokit client (`services/githubService.ts`) from configuration always succeeds in the model: `GITHUB_APP_ID`, the private key and its `\n` unescaping are left out. If a constructor threw, `processPush` would reject with no call made and `updateCheckStatus` would send nothing; the model does not represent that. Whether Octokit accepts the `auth` object it is given is not modelled either. `getInstallationAccessToken` is modelled as the token request, which the `Host` oracle may refuse.
- `Number(installationId)`: installation ids are modelled as integers. Non-numeric ids are not represented.
- `processPush` in the router checks that the archive unzips but writes it nowhere. This is modelled as written.
- Hono is reduced to three answers: 401, 200 `{ok:true}`, and the 500 its default error handler gives for an escaped exception.
- `handleAuthCallback` (the OAuth exchange) is left out: it is network I/O only.
- `config.ts` and `index.ts` are left out: they hold configuration constants and route wiring.
- ProjectModel.ProjectTable.Create: a caller's transaction is reduced to the two rows this call writes; what else the caller does in it is not modelled. No caller of `Project.create` is part of this model, so whether one passes a transaction is a parameter.
- ProjectModel.CreatedProjectHasOnlyRoot: it takes as given that the File table holds no row for the new project id. No invariant tying File rows to existing project ids is kept across the two tables.
- `GithubService.DefaultRef`: an explicit `null` ref is not represented; only an omitted one is.
- The console logging is left out.
- ProjectValidators: zod's issue objects are reduced to the failing field paths, or to the messages of the upload refinements. Non-string JSON values are not told apart.
- Vue and Pinia reactivity are left out: the store is plain fields.
- `user` starts as `undefined` and becomes `null` on logout; both are `None`.
- Strings are sequences of Unicode scalar values. JavaScript strings may also hold lone surrogates, which the model does not represent. UTF-8 encoding and UTF-16 lengths are stated only for scalar values.
