/**
 * The GitHub service (`services/githubService.ts`): downloading a branch archive into a
 * project, and reporting a deployment as a check run. Both catch every error: the first
 * reports it as `false`, the second drops it.
 */
module GithubService {
  import opened Wrappers
  import opened Text
  import opened FileStore
  import opened ProjectModel
  import opened GithubApi
  import opened GithubUtils

  // ---------------------------------------------------------------------------
  // The archive URL

  /** The branch downloaded when the caller names none. */
  const DefaultBranch: string := "main"

  /** The `ref = 'main'` default parameter: it applies when the argument is left out. */
  function DefaultRef(ref: Option<string>): (r: string)
    ensures ref.Some? ==> r == ref.value
    ensures ref.None? ==> r == DefaultBranch
  {
    ref.GetOr(DefaultBranch)
  }

  const ArchiveHost: string := "https://github.com/"
  const ArchiveRoute: string := "archive/refs/heads/"
  const ArchiveSuffix: string := ".zip"

  /** The template `https://github.com/${owner}/${repo}/archive/refs/heads/${ref}.zip`. */
  function ArchiveUrl(owner: string, repo: string, ref: string): string {
    ArchiveHost + (owner + ("/" + (repo + ("/" + (ArchiveRoute + (ref + ArchiveSuffix))))))
  }

  /** What follows `prefix` in `s`, when `s` starts with it. */
  function AfterPrefix(s: string, prefix: string): Option<string> {
    if StartsWith(s, prefix) then Some(s[|prefix|..]) else None
  }

  /** What precedes `suffix` in `s`, when `s` ends with it. */
  function BeforeSuffix(s: string, suffix: string): Option<string> {
    if EndsWith(s, suffix) then Some(s[..|s| - |suffix|]) else None
  }

  /** The text before the first `c` and the text after it. */
  function SplitAtFirst(s: string, c: char): Option<(string, string)> {
    match IndexOf(s, c)
    case None => None
    case Some(i) => Some((s[..i], s[i + 1..]))
  }

  /**
   * Reads owner, repository and ref back from an archive URL: the owner and the repository
   * run up to the next slash; the ref is everything between the route and the suffix.
   */
  function ParseArchiveUrl(url: string): Option<(string, string, string)> {
    match AfterPrefix(url, ArchiveHost)
    case None => None
    case Some(rest) =>
      match SplitAtFirst(rest, '/')
      case None => None
      case Some((owner, afterOwner)) =>
        match SplitAtFirst(afterOwner, '/')
        case None => None
        case Some((repo, route)) =>
          match AfterPrefix(route, ArchiveRoute)
          case None => None
          case Some(file) =>
            match BeforeSuffix(file, ArchiveSuffix)
            case None => None
            case Some(ref) => Some((owner, repo, ref))
  }

  /** `indexOf` stops at the first occurrence. */
  lemma {:induction false} IndexOfAt(s: string, c: char, i: nat)
    requires i < |s| && s[i] == c && c !in s[..i]
    ensures IndexOf(s, c) == Some(i)
  {
    if i > 0 {
      assert s[0] in s[..i];
      assert s[1..][..i - 1] == s[..i][1..];
      IndexOfAt(s[1..], c, i - 1);
    }
  }

  lemma AfterPrefixOf(prefix: string, t: string)
    ensures AfterPrefix(prefix + t, prefix) == Some(t)
  {
    assert (prefix + t)[..|prefix|] == prefix;
    assert (prefix + t)[|prefix|..] == t;
  }

  lemma BeforeSuffixOf(t: string, suffix: string)
    ensures BeforeSuffix(t + suffix, suffix) == Some(t)
  {
    assert (t + suffix)[|t|..] == suffix;
    assert (t + suffix)[..|t|] == t;
  }

  lemma SplitAtFirstOf(a: string, c: char, b: string)
    requires c !in a
    ensures SplitAtFirst(a + ([c] + b), c) == Some((a, b))
  {
    var s := a + ([c] + b);
    assert s[..|a|] == a;
    IndexOfAt(s, c, |a|);
    assert s[|a| + 1..] == b;
  }

  /**
   * The URL determines the owner, the repository and the ref it was built from, provided
   * neither the owner nor the repository holds a slash (GitHub names never do).
   */
  lemma ArchiveUrlRoundTrip(owner: string, repo: string, ref: string)
    requires '/' !in owner && '/' !in repo
    ensures ParseArchiveUrl(ArchiveUrl(owner, repo, ref)) == Some((owner, repo, ref))
  {
    var file := ref + ArchiveSuffix;
    var route := ArchiveRoute + file;
    var afterOwner := repo + ("/" + route);
    var rest := owner + ("/" + afterOwner);
    AfterPrefixOf(ArchiveHost, rest);
    SplitAtFirstOf(owner, '/', afterOwner);
    SplitAtFirstOf(repo, '/', route);
    AfterPrefixOf(ArchiveRoute, file);
    BeforeSuffixOf(ref, ArchiveSuffix);
  }

  /** Distinct downloads go to distinct URLs. */
  lemma ArchiveUrlInjective(owner: string, repo: string, ref: string, owner': string, repo': string, ref': string)
    requires '/' !in owner && '/' !in repo && '/' !in owner' && '/' !in repo'
    requires ArchiveUrl(owner, repo, ref) == ArchiveUrl(owner', repo', ref')
    ensures owner == owner' && repo == repo' && ref == ref'
  {
    ArchiveUrlRoundTrip(owner, repo, ref);
    ArchiveUrlRoundTrip(owner', repo', ref');
  }

  // ---------------------------------------------------------------------------
  // downloadAndProcessRepo

  /**
   * `downloadAndProcessRepo(owner, repo, project, ref)`: one download of the archive URL,
   * then `processZipFileUpload` on the bytes. The result is true exactly when both settle
   * without error; a rejected download (any reply but an archive) changes nothing.
   */
  method DownloadAndProcessRepo(owner: string, repo: string, projectId: nat, ref: Option<string>,
                                unzip: Bytes -> Option<seq<ZipEntry>>, lookup: string -> Option<string>,
                                host: Host, files: FileTable, blobs: BlobStore, projects: ProjectTable)
      returns (ok: bool)
    requires files.Valid() && projects.Valid()
    modifies host, files, blobs, projects
    ensures files.Valid() && projects.Valid()
    ensures projects.nextId == old(projects.nextId) && files.nextId >= old(files.nextId)
    ensures host.sent == old(host.sent) + [Download(ArchiveUrl(owner, repo, DefaultRef(ref)))]
    ensures var reply := host.reply(Download(ArchiveUrl(owner, repo, DefaultRef(ref))));
      !reply.Archive? ==>
        && !ok && files.rows == old(files.rows) && blobs.blobs == old(blobs.blobs)
        && projects.rows == old(projects.rows) && files.nextId == old(files.nextId)
    ensures var reply := host.reply(Download(ArchiveUrl(owner, repo, DefaultRef(ref))));
      reply.Archive? ==>
        var spec := IngestSpec(old(files.rows), old(files.nextId), old(|blobs.blobs|), projectId,
                               reply.data, unzip, lookup, files.accepts);
        && (ok <==> spec.result.Ok?)
        && files.rows == spec.rows
        && blobs.blobs == old(blobs.blobs) + spec.saved
        && projects.rows == (if spec.result.Ok? && projectId in old(projects.rows)
                             then old(projects.rows)[projectId := old(projects.rows)[projectId].(hasIndex := Some(spec.result.value))]
                             else old(projects.rows))
  {
    var zipUrl := ArchiveUrl(owner, repo, DefaultRef(ref));
    var response := host.Send(Download(zipUrl));
    if !response.Archive? {
      return false;
    }
    var processed := ProcessZipFileUpload(response.data, projectId, unzip, lookup, files, blobs, projects);
    ok := processed.Ok?;
  }

  // ---------------------------------------------------------------------------
  // updateCheckStatus

  /** The name of the check run the service reports under. */
  const DeploymentCheckName: string := "Lumin Deployment"

  /** `output.title`. */
  function CheckTitle(status: CheckStatus): (title: string)
    ensures title == "Deployment completed" <==> status == Completed
    ensures title == "Deployment completed" || title == "Deployment in progress"
  {
    if status == Completed then "Deployment completed" else "Deployment in progress"
  }

  /**
   * `output.summary`: a completed run succeeded exactly when its conclusion is `success`;
   * any other conclusion, or none, reads as a failure.
   */
  function CheckSummary(status: CheckStatus, conclusion: Option<Conclusion>): (summary: string)
    ensures status == Completed && conclusion == Some(Success) <==> summary == "The deployment succeeded."
    ensures status == Completed && conclusion != Some(Success) <==> summary == "The deployment failed."
    ensures status != Completed <==> summary == "The deployment is in progress."
  {
    if status == Completed then
      "The deployment " + (if conclusion == Some(Success) then "succeeded" else "failed") + "."
    else "The deployment is in progress."
  }

  /** The title and the summary never disagree about whether the deployment is still running. */
  lemma TitleMatchesSummary(status: CheckStatus, conclusion: Option<Conclusion>)
    ensures CheckTitle(status) == "Deployment in progress"
        <==> CheckSummary(status, conclusion) == "The deployment is in progress."
  {
  }

  /** The parameters `updateCheckStatus` passes to `octokit.checks.create`. */
  function CheckRequestFor(owner: string, repo: string, sha: string, status: CheckStatus,
                           conclusion: Option<Conclusion>, detailsUrl: Option<string>): (q: CheckRequest)
    ensures q.owner == owner && q.repo == repo && q.headSha == sha
    ensures q.name == DeploymentCheckName
    ensures q.status == status && q.conclusion == conclusion && q.detailsUrl == detailsUrl
    ensures q.title == CheckTitle(status) && q.summary == CheckSummary(status, conclusion)
  {
    CheckRequest(owner, repo, DeploymentCheckName, sha, status, conclusion, detailsUrl,
                 CheckTitle(status), CheckSummary(status, conclusion))
  }

  /**
   * `updateCheckStatus(...)`: one check-run creation; whatever the host answers, the method
   * returns normally.
   */
  method UpdateCheckStatus(owner: string, repo: string, sha: string, status: CheckStatus,
                           conclusion: Option<Conclusion>, detailsUrl: Option<string>, host: Host)
    modifies host
    ensures host.sent == old(host.sent) + [CreateCheck(CheckRequestFor(owner, repo, sha, status, conclusion, detailsUrl))]
  {
    var _ := host.Send(CreateCheck(CheckRequestFor(owner, repo, sha, status, conclusion, detailsUrl)));
  }
}
