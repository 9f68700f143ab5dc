/**
 * The GitHub side of the integration, as the core sees it: the fields of a push-event
 * payload it reads, the outbound calls it makes, and a host that records those calls in
 * order and answers each with a fixed reply. Authentication, HTTP and JSON are not part of
 * this model: a reply is whatever the host's oracle says, and `Rejected` stands for a
 * rejected promise.
 */
module GithubApi {
  import opened Wrappers
  import opened Text

  // ---------------------------------------------------------------------------
  // The push-event payload, as far as the code reads it

  /** `repository.owner`: an object whose `login` may be missing. */
  datatype Owner = Owner(login: Option<string>)

  /** `repository`: `owner` and `name` may be missing. A non-object value has neither. */
  datatype Repository = Repository(owner: Option<Owner>, name: Option<string>)

  /** `installation`: its numeric `id` may be missing. */
  datatype Installation = Installation(id: Option<int>)

  /**
   * A parsed JSON body. `null` is the one value whose property reads throw; every other
   * value (an object, or a number or string whose properties are all undefined) reads as
   * `Fields`.
   */
  datatype PushBody =
    | NullBody
    | Fields(installation: Option<Installation>, repository: Option<Repository>,
             ref: Option<string>, after: Option<string>)

  // ---------------------------------------------------------------------------
  // Check runs

  datatype CheckStatus = Queued | InProgress | Completed

  datatype Conclusion = Success | Failure | Neutral | Cancelled | Skipped | TimedOut | ActionRequired

  // ---------------------------------------------------------------------------
  // Outbound calls

  datatype Request =
      /** `app.getInstallationAccessToken(installationId)` */
    | InstallationToken(installationId: int)
      /** `POST /repos/{owner}/{repo}/check-runs` through `@octokit/request` */
    | CreateCheckRun(token: string, owner: Option<string>, repo: Option<string>,
                     name: string, headSha: Option<string>, status: CheckStatus)
      /** `GET /repos/{owner}/{repo}/zipball/{ref}` */
    | GetZipball(token: string, owner: Option<string>, repo: Option<string>, ref: Option<string>)
      /** `PATCH /repos/{owner}/{repo}/check-runs/{check_run_id}` */
    | UpdateCheckRun(token: string, owner: Option<string>, repo: Option<string>,
                     checkRunId: int, status: CheckStatus, conclusion: Conclusion)
      /** `axios.get(url, { responseType: 'arraybuffer' })` */
    | Download(url: string)
      /** `octokit.checks.create(...)` */
    | CreateCheck(check: CheckRequest)

  /** The parameters of `octokit.checks.create`, with its `output.title` and `output.summary`. */
  datatype CheckRequest = CheckRequest(
    owner: string, repo: string, name: string, headSha: string,
    status: CheckStatus, conclusion: Option<Conclusion>, detailsUrl: Option<string>,
    title: string, summary: string)

  /** What a call resolves to; `Rejected` is a rejected promise. */
  datatype Response =
    | Rejected
    | Token(token: string)
    | CheckRun(id: int)
    | Archive(data: Bytes)
    | Accepted

  /** The remote host: every call is appended to `sent` and answered by `reply`. */
  class Host {
    var sent: seq<Request>
    const reply: Request -> Response

    constructor (reply: Request -> Response)
      ensures sent == [] && this.reply == reply
    {
      sent, this.reply := [], reply;
    }

    method Send(q: Request) returns (r: Response)
      modifies this
      ensures sent == old(sent) + [q] && r == reply(q)
    {
      sent := sent + [q];
      r := reply(q);
    }
  }
}
