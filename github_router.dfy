/**
 * The GitHub webhook routes (`routers/github.ts`): the signature guard, `processPush`, which
 * walks a fixed sequence of GitHub calls threading the installation token and the check-run
 * id through it, and the two POST handlers. The App client, the HTTP client and JSZip are
 * reached only through the `Host` and the `unzip` oracle; environment variables are
 * parameters.
 */
module GithubRouter {
  import opened Wrappers
  import opened Text
  import opened GithubApi
  import opened GithubUtils

  // ---------------------------------------------------------------------------
  // verifySignature

  /**
   * `verifySignature(secret, payload, signature)`: false without computing anything when the
   * secret or the signature is empty or absent; otherwise `timingSafeEqual` of the expected
   * header value against the given one, which throws when their byte lengths differ.
   */
  function VerifySignature(secret: string, payload: string, signature: Option<string>,
                           hmacHex: (string, string) -> string): (r: Result<bool, LengthMismatch>)
    ensures secret == "" || signature.None? || signature == Some("") ==> r == Ok(false)
    ensures r == Ok(true) <==> secret != "" && signature == Some(ExpectedSignature(secret, payload, hmacHex))
    ensures r.Err? <==> secret != "" && signature.Some? && signature.value != ""
                        && |Utf8(signature.value)| != |Utf8(ExpectedSignature(secret, payload, hmacHex))|
  {
    if secret == "" || signature.None? || signature.value == "" then Ok(false)
    else
      SafeEqualStrings(ExpectedSignature(secret, payload, hmacHex), signature.value);
      TimingSafeEqual(Utf8(ExpectedSignature(secret, payload, hmacHex)), Utf8(signature.value))
  }

  /** Past its guard, the router's check is the utility's `validateWebhookSignature`. */
  lemma VerifyIsValidate(secret: string, payload: string, signature: string,
                         hmacHex: (string, string) -> string)
    requires secret != "" && signature != ""
    ensures VerifySignature(secret, payload, Some(signature), hmacHex)
         == ValidateWebhookSignature(payload, signature, secret, hmacHex)
  {
  }

  // ---------------------------------------------------------------------------
  // processPush

  /** The name of the check run `processPush` opens. */
  const CheckRunName: string := "Process repo zip"

  /** The calls one `processPush(body)` makes, in order, and whether its promise resolves. */
  datatype PushRun = PushRun(calls: seq<Request>, resolved: bool)

  /** `body.installation?.id`. */
  function InstallationId(body: PushBody): Option<int>
    requires body.Fields?
  {
    if body.installation.Some? then body.installation.value.id else None
  }

  /** The early return of `processPush`: a falsy installation id or a missing repository. */
  predicate SkipsPush(body: PushBody)
    requires body.Fields?
  {
    InstallationId(body).None? || InstallationId(body).value == 0 || body.repository.None?
  }

  /**
   * What `processPush(body)` does against a host answering `reply`. A reply of another form
   * than the one a step expects stands for a rejected request; a missing `repository.owner`
   * throws when the check-run request is built, after the token was obtained.
   */
  function PushTrace(body: PushBody, reply: Request -> Response,
                     unzip: Bytes -> Option<seq<ZipEntry>>): (r: PushRun)
    ensures |r.calls| <= 4
    ensures body.NullBody? ==> r == PushRun([], false)
    ensures body.Fields? ==> (r.calls == [] <==> SkipsPush(body))
    ensures body.Fields? && SkipsPush(body) ==> r.resolved
    // 1. the token for the installation the payload names
    ensures |r.calls| >= 1 ==> body.Fields? && !SkipsPush(body) && r.calls[0] == InstallationToken(InstallationId(body).value)
    // 2. the check run, opened in progress on the pushed commit, once the token came back
    ensures |r.calls| >= 2 ==>
      && reply(r.calls[0]).Token? && body.repository.value.owner.Some?
      && r.calls[1] == CreateCheckRun(reply(r.calls[0]).token, body.repository.value.owner.value.login,
                                      body.repository.value.name, CheckRunName, body.after, InProgress)
    // 3. the archive of that same commit, once the check run was created
    ensures |r.calls| >= 3 ==>
      && reply(r.calls[1]).CheckRun?
      && r.calls[2] == GetZipball(reply(r.calls[0]).token, body.repository.value.owner.value.login,
                                  body.repository.value.name, body.after)
    // 4. the check run completed successfully, under the id step 2 returned, once the archive unzipped
    ensures |r.calls| == 4 ==>
      && reply(r.calls[2]).Archive? && unzip(reply(r.calls[2]).data).Some?
      && r.calls[3] == UpdateCheckRun(reply(r.calls[0]).token, body.repository.value.owner.value.login,
                                      body.repository.value.name, reply(r.calls[1]).id, Completed, Success)
    // progress: each step that gets the reply it expects leads to the next call
    ensures body.Fields? && !SkipsPush(body) ==> |r.calls| >= 1
    ensures |r.calls| >= 1 && reply(r.calls[0]).Token? && body.repository.value.owner.Some? ==> |r.calls| >= 2
    ensures |r.calls| >= 2 && reply(r.calls[1]).CheckRun? ==> |r.calls| >= 3
    ensures |r.calls| >= 3 && reply(r.calls[2]).Archive? && unzip(reply(r.calls[2]).data).Some? ==> |r.calls| == 4
    // the promise resolves exactly when it returned early or the last call was accepted
    ensures r.resolved <==> body.Fields? && (r.calls == [] || (|r.calls| == 4 && !reply(r.calls[3]).Rejected?))
  {
    if body.NullBody? then PushRun([], false)
    else if SkipsPush(body) then PushRun([], true)
    else
      var tokenCall := InstallationToken(InstallationId(body).value);
      var repo := body.repository.value;
      if !reply(tokenCall).Token? then PushRun([tokenCall], false)
      else if repo.owner.None? then PushRun([tokenCall], false)
      else
        var token, owner := reply(tokenCall).token, repo.owner.value.login;
        var create := CreateCheckRun(token, owner, repo.name, CheckRunName, body.after, InProgress);
        if !reply(create).CheckRun? then PushRun([tokenCall, create], false)
        else
          var fetch := GetZipball(token, owner, repo.name, body.after);
          if !reply(fetch).Archive? || unzip(reply(fetch).data).None? then PushRun([tokenCall, create, fetch], false)
          else
            var patch := UpdateCheckRun(token, owner, repo.name, reply(create).id, Completed, Success);
            PushRun([tokenCall, create, fetch, patch], !reply(patch).Rejected?)
  }

  /**
   * When every reply has the form its step expects and the archive unzips, `processPush`
   * makes all four calls, in order, and resolves exactly when the final update is accepted.
   */
  lemma PushCompletes(body: PushBody, reply: Request -> Response, unzip: Bytes -> Option<seq<ZipEntry>>)
    requires body.Fields? && !SkipsPush(body) && body.repository.value.owner.Some?
    requires reply(InstallationToken(InstallationId(body).value)).Token?
    requires var token := reply(InstallationToken(InstallationId(body).value)).token;
      var repo := body.repository.value;
      && reply(CreateCheckRun(token, repo.owner.value.login, repo.name, CheckRunName, body.after, InProgress)).CheckRun?
      && reply(GetZipball(token, repo.owner.value.login, repo.name, body.after)).Archive?
      && unzip(reply(GetZipball(token, repo.owner.value.login, repo.name, body.after)).data).Some?
    ensures var token := reply(InstallationToken(InstallationId(body).value)).token;
      var repo := body.repository.value;
      var create := CreateCheckRun(token, repo.owner.value.login, repo.name, CheckRunName, body.after, InProgress);
      var patch := UpdateCheckRun(token, repo.owner.value.login, repo.name, reply(create).id, Completed, Success);
      && PushTrace(body, reply, unzip).calls
         == [InstallationToken(InstallationId(body).value), create,
             GetZipball(token, repo.owner.value.login, repo.name, body.after), patch]
      && (PushTrace(body, reply, unzip).resolved <==> !reply(patch).Rejected?)
  {
    var r := PushTrace(body, reply, unzip);
    assert |r.calls| == 4;
  }

  /** `processPush(body)`: returns whether its promise resolves. */
  method ProcessPush(body: PushBody, unzip: Bytes -> Option<seq<ZipEntry>>, host: Host)
      returns (resolved: bool)
    modifies host
    ensures host.sent == old(host.sent) + PushTrace(body, host.reply, unzip).calls
    ensures resolved == PushTrace(body, host.reply, unzip).resolved
  {
    if body.NullBody? {
      // `body.installation` on null
      return false;
    }
    var installationId := InstallationId(body);
    var repo := body.repository;
    var commitSha := body.after;
    if installationId.None? || installationId.value == 0 || repo.None? {
      return true;
    }
    var tokenReply := host.Send(InstallationToken(installationId.value));
    if !tokenReply.Token? {
      return false;
    }
    var token := tokenReply.token;
    if repo.value.owner.None? {
      // `repo.owner.login` on undefined
      return false;
    }
    var owner := repo.value.owner.value.login;
    var checkRun := host.Send(CreateCheckRun(token, owner, repo.value.name, CheckRunName, commitSha, InProgress));
    if !checkRun.CheckRun? {
      return false;
    }
    var zipRes := host.Send(GetZipball(token, owner, repo.value.name, commitSha));
    if !zipRes.Archive? {
      return false;
    }
    if unzip(zipRes.data).None? {
      // `JSZip.loadAsync` rejects
      return false;
    }
    var patched := host.Send(UpdateCheckRun(token, owner, repo.value.name, checkRun.id, Completed, Success));
    resolved := !patched.Rejected?;
  }

  // ---------------------------------------------------------------------------
  // The handlers

  /** The handler's answer; an exception escaping it becomes Hono's default 500 answer. */
  datatype HttpResponse =
    | Unauthorized  // 401 `{ error: 'invalid signature' }`
    | OkJson        // 200 `{ ok: true }`
    | ServerError   // 500 `Internal Server Error`

  /** `process.env.GITHUB_WEBHOOK_SECRET || ''`. */
  function WebhookSecret(env: Option<string>): (secret: string)
    ensures env.Some? ==> secret == env.value
    ensures env.None? ==> secret == ""
  {
    env.GetOr("")
  }

  /**
   * The `/gh_callback` decisions: the signature is checked on the raw text first; only a
   * verified `push` event is parsed and processed.
   */
  function CallbackSpec(secretEnv: Option<string>, signature: Option<string>, event: Option<string>,
                        payload: string, hmacHex: (string, string) -> string,
                        parseJson: string -> Option<PushBody>, unzip: Bytes -> Option<seq<ZipEntry>>,
                        reply: Request -> Response): (r: (HttpResponse, seq<Request>))
    ensures var v := VerifySignature(WebhookSecret(secretEnv), payload, signature, hmacHex);
      && (v == Ok(false) <==> r.0 == Unauthorized)
      && (v != Ok(true) ==> r.1 == [])
      && (v.Err? ==> r.0 == ServerError)
      && (event != Some("push") ==> r.1 == [] && (v == Ok(true) ==> r.0 == OkJson))
      && (r.1 != [] ==> v == Ok(true) && event == Some("push") && parseJson(payload).Some?
                        && r.1 == PushTrace(parseJson(payload).value, reply, unzip).calls)
      && (v == Ok(true) && event == Some("push") && parseJson(payload).Some? ==>
            r.1 == PushTrace(parseJson(payload).value, reply, unzip).calls)
      && (v == Ok(true) && event == Some("push") && parseJson(payload).None? ==> r == (ServerError, []))
      && (r.0 == OkJson <==> v == Ok(true) && (event != Some("push") ||
                             (parseJson(payload).Some? && PushTrace(parseJson(payload).value, reply, unzip).resolved)))
  {
    match VerifySignature(WebhookSecret(secretEnv), payload, signature, hmacHex)
    case Err(_) => (ServerError, [])
    case Ok(false) => (Unauthorized, [])
    case Ok(true) =>
      if event != Some("push") then (OkJson, [])
      else match parseJson(payload)
        case None => (ServerError, [])
        case Some(body) =>
          var run := PushTrace(body, reply, unzip);
          (if run.resolved then OkJson else ServerError, run.calls)
  }

  /**
   * A signature header of the wrong length is not answered with 401: `timingSafeEqual`
   * throws, and the delivery gets a 500 without any call being made.
   */
  lemma WrongLengthSignatureFails(secretEnv: Option<string>, signature: string, event: Option<string>,
                                  payload: string, hmacHex: (string, string) -> string,
                                  parseJson: string -> Option<PushBody>, unzip: Bytes -> Option<seq<ZipEntry>>,
                                  reply: Request -> Response)
    requires WebhookSecret(secretEnv) != "" && signature != ""
    requires |Utf8(signature)| < |"sha256="|
    ensures CallbackSpec(secretEnv, Some(signature), event, payload, hmacHex, parseJson, unzip, reply)
         == (ServerError, [])
  {
    var expected := ExpectedSignature(WebhookSecret(secretEnv), payload, hmacHex);
    assert |expected| >= |"sha256="|;
  }

  /** `POST /gh_callback`. `parseJson` is `JSON.parse`, with `None` for a SyntaxError. */
  method GhCallback(secretEnv: Option<string>, signature: Option<string>, event: Option<string>,
                    payload: string, hmacHex: (string, string) -> string,
                    parseJson: string -> Option<PushBody>, unzip: Bytes -> Option<seq<ZipEntry>>,
                    host: Host)
      returns (resp: HttpResponse)
    modifies host
    ensures var spec := CallbackSpec(secretEnv, signature, event, payload, hmacHex, parseJson, unzip, host.reply);
      resp == spec.0 && host.sent == old(host.sent) + spec.1
  {
    var verified := VerifySignature(WebhookSecret(secretEnv), payload, signature, hmacHex);
    if verified.Err? {
      return ServerError;
    }
    if !verified.value {
      return Unauthorized;
    }
    if event == Some("push") {
      var body := parseJson(payload);
      if body.None? {
        return ServerError;
      }
      var resolved := ProcessPush(body.value, unzip, host);
      if !resolved {
        return ServerError;
      }
    }
    resp := OkJson;
  }

  /** `POST /_private/_webhook`: no signature check; `c.req.json()` throws on malformed JSON. */
  function PrivateWebhookSpec(payload: string, parseJson: string -> Option<PushBody>,
                              unzip: Bytes -> Option<seq<ZipEntry>>,
                              reply: Request -> Response): (r: (HttpResponse, seq<Request>))
    ensures r.0 != Unauthorized
    ensures parseJson(payload).None? ==> r == (ServerError, [])
    ensures parseJson(payload).Some? ==>
      && r.1 == PushTrace(parseJson(payload).value, reply, unzip).calls
      && (r.0 == OkJson <==> PushTrace(parseJson(payload).value, reply, unzip).resolved)
  {
    match parseJson(payload)
    case None => (ServerError, [])
    case Some(body) =>
      var run := PushTrace(body, reply, unzip);
      (if run.resolved then OkJson else ServerError, run.calls)
  }

  method PrivateWebhook(payload: string, parseJson: string -> Option<PushBody>,
                        unzip: Bytes -> Option<seq<ZipEntry>>, host: Host)
      returns (resp: HttpResponse)
    modifies host
    ensures var spec := PrivateWebhookSpec(payload, parseJson, unzip, host.reply);
      resp == spec.0 && host.sent == old(host.sent) + spec.1
  {
    var body := parseJson(payload);
    if body.None? {
      return ServerError;
    }
    var resolved := ProcessPush(body.value, unzip, host);
    resp := if resolved then OkJson else ServerError;
  }

  /**
   * Both routes process a payload the same way: a verified push delivery to `/gh_callback`
   * makes exactly the calls the private route makes for the same payload, and answers alike.
   */
  lemma SignedPushAsPrivate(secretEnv: Option<string>, signature: Option<string>, payload: string,
                            hmacHex: (string, string) -> string, parseJson: string -> Option<PushBody>,
                            unzip: Bytes -> Option<seq<ZipEntry>>, reply: Request -> Response)
    requires VerifySignature(WebhookSecret(secretEnv), payload, signature, hmacHex) == Ok(true)
    ensures CallbackSpec(secretEnv, signature, Some("push"), payload, hmacHex, parseJson, unzip, reply)
         == PrivateWebhookSpec(payload, parseJson, unzip, reply)
  {
  }
}
