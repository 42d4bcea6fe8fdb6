/**
 * The reuse-or-login step at the start of `loginAndFetchUsers`: load the
 * saved cookie, keep it when it is a non-empty string that the users
 * endpoint accepts, and otherwise log in with the nonce of the login page
 * and save the cookie the server sets.
 *
 * The file system and the network are the state of a `Client`: the content
 * of the credential file and the log of HTTP requests sent. Responses are
 * inputs: the probe's outcome, the login page's HTML and the login
 * response's `set-cookie` header.
 */
module Session {

  import opened Wrappers
  import opened NonceExtractor

  /** The credential file `authentication.json`, as far as `loadAuth` reads it. */
  datatype AuthFile =
    | Absent                          // no file
    | Saved(cookie: Option<string>)   // valid JSON; its `cookie` field, None when missing or null
    | Corrupt                         // a file `JSON.parse` rejects, or whose JSON is `null`

  /** What `loadAuth` gives: the stored cookie (None for `null`/`undefined`), or a thrown parse error. */
  datatype Load = Loaded(cookie: Option<string>) | ParseError

  /** `loadAuth()` on the file f. */
  function LoadAuth(f: AuthFile): (r: Load)
    ensures r.ParseError? <==> f.Corrupt?
    ensures r.Loaded? && r.cookie.Some? <==> f.Saved? && f.cookie.Some?
    ensures r.Loaded? && r.cookie.Some? ==> r.cookie.value == f.cookie.value
  {
    match f
    case Absent => Loaded(None)
    case Saved(c) => Loaded(c)
    case Corrupt => ParseError
  }

  /** How the probe request to the users endpoint ended: an HTTP status, or a rejected `fetch`. */
  datatype Probe = Status(code: int) | Threw

  /** `isCookieValid`: the probe's `res.ok`, and false when the request threw. */
  function IsCookieValid(p: Probe): (valid: bool)
    ensures valid <==> p.Status? && 200 <= p.code <= 299
  {
    match p
    case Status(code) => 200 <= code < 300
    case Threw => false
  }

  /** `cookie && …`: only a non-empty string is truthy among the values loadAuth yields. */
  predicate Truthy(c: Option<string>)
  {
    c.Some? && c.value != ""
  }

  const Username: string := "demo@example.org"
  const Password: string := "test"

  /** The HTTP requests of this step. */
  datatype Request =
    | UsersProbe(cookie: string)                                // POST api/users with the saved cookie
    | LoginPage                                                 // GET of the login page
    | LoginPost(username: string, password: string, nonce: string)  // POST login with the form fields

  datatype Failure = CorruptCredentials | NonceNotFound

  /** How the step ends: with the cookie the rest of the run uses, or with the run aborted. */
  datatype AuthResult =
    | Reused(cookie: string)
    | LoggedIn(cookie: string)
    | Aborted(failure: Failure)

  /** Everything one run of the step does: its result, the requests it sends, the credential file after it. */
  datatype Run = Run(result: AuthResult, requests: seq<Request>, file: AuthFile)

  /** The step as a function of the credential file and the responses it would receive. */
  function Plan(f: AuthFile, probe: Probe, loginHtml: string, setCookie: Option<string>): Run
  {
    match LoadAuth(f)
    case ParseError => Run(Aborted(CorruptCredentials), [], f)
    case Loaded(c) =>
      var probed := if Truthy(c) then [UsersProbe(c.value)] else [];
      if Truthy(c) && IsCookieValid(probe) then Run(Reused(c.value), probed, f)
      else
        match ExtractNonce(loginHtml)
        case None => Run(Aborted(NonceNotFound), probed + [LoginPage], f)
        case Some(nonce) =>
          var cookie := setCookie.GetOr("");
          Run(LoggedIn(cookie), probed + [LoginPage, LoginPost(Username, Password, nonce)], Saved(Some(cookie)))
  }

  /** The script's view of the outside world: the credential file and the requests sent so far. */
  class Client {
    var authFile: AuthFile
    var sent: seq<Request>

    constructor(f: AuthFile)
      ensures authFile == f && sent == []
    {
      authFile := f;
      sent := [];
    }

    /** `saveAuth(cookie)`: the file now holds the cookie. */
    method SaveAuth(cookie: string)
      modifies this
      ensures authFile == Saved(Some(cookie)) && sent == old(sent)
    {
      authFile := Saved(Some(cookie));
    }

    /** Sends one request. */
    method Send(r: Request)
      modifies this
      ensures sent == old(sent) + [r] && authFile == old(authFile)
    {
      sent := sent + [r];
    }

    /**
     * Lines 15-49 of `loginAndFetchUsers`: the cookie the rest of the run
     * uses, or the abort. The requests sent and the file written are those
     * of Plan.
     */
    method Authenticate(probe: Probe, loginHtml: string, setCookie: Option<string>) returns (r: AuthResult)
      modifies this
      ensures var p := Plan(old(authFile), probe, loginHtml, setCookie);
        r == p.result && sent == old(sent) + p.requests && authFile == p.file
    {
      ghost var sent0 := sent;
      var loaded := LoadAuth(authFile);
      if loaded.ParseError? {
        return Aborted(CorruptCredentials);
      }
      var cookie := loaded.cookie;
      ghost var probed: seq<Request> := if Truthy(cookie) then [UsersProbe(cookie.value)] else [];
      var valid := false;
      if Truthy(cookie) {
        Send(UsersProbe(cookie.value));
        valid := IsCookieValid(probe);
      }
      assert sent == sent0 + probed;
      if valid {
        return Reused(cookie.value);
      }
      Send(LoginPage);
      var nonce := ExtractNonce(loginHtml);
      if nonce.None? || nonce.value == "" {
        assert sent == sent0 + (probed + [LoginPage]);
        return Aborted(NonceNotFound);
      }
      Send(LoginPost(Username, Password, nonce.value));
      assert sent == sent0 + (probed + [LoginPage, LoginPost(Username, Password, nonce.value)]);
      var captured := setCookie.GetOr("");
      SaveAuth(captured);
      return LoggedIn(captured);
    }
  }

  // ---------------------------------------------------------------------
  // Properties of the step
  // ---------------------------------------------------------------------

  predicate LoginPosted(rs: seq<Request>)
  {
    exists i | 0 <= i < |rs| :: rs[i].LoginPost?
  }

  /**
   * The saved cookie is reused, with no login and no write, exactly when it
   * is a non-empty string and the probe answered with a 2xx status.
   */
  lemma ReuseExactly(f: AuthFile, probe: Probe, loginHtml: string, setCookie: Option<string>)
    ensures var p := Plan(f, probe, loginHtml, setCookie);
      p.result.Reused? <==> f.Saved? && f.cookie.Some? && f.cookie.value != "" && probe.Status? && 200 <= probe.code <= 299
    ensures var p := Plan(f, probe, loginHtml, setCookie);
      p.result.Reused? ==> p.result.cookie == f.cookie.value && p.requests == [UsersProbe(f.cookie.value)] && p.file == f
  {
  }

  /** A probe that threw never lets the saved cookie be reused. */
  lemma ProbeFailureMeansLogin(f: AuthFile, loginHtml: string, setCookie: Option<string>)
    ensures !Plan(f, Threw, loginHtml, setCookie).result.Reused?
  {
  }

  /** An unreadable credential file aborts the run before any request. */
  lemma CorruptFileAborts(probe: Probe, loginHtml: string, setCookie: Option<string>)
    ensures Plan(Corrupt, probe, loginHtml, setCookie) == Run(Aborted(CorruptCredentials), [], Corrupt)
  {
  }

  /**
   * Without a reusable cookie, a login page without a nonce aborts the run
   * before the login POST and without writing the file.
   */
  lemma MissingNonceAborts(f: AuthFile, probe: Probe, loginHtml: string, setCookie: Option<string>)
    requires !f.Corrupt? && !Plan(f, probe, loginHtml, setCookie).result.Reused?
    requires ExtractNonce(loginHtml).None?
    ensures var p := Plan(f, probe, loginHtml, setCookie);
      p.result == Aborted(NonceNotFound) && !LoginPosted(p.requests) && p.file == f
  {
    var p := Plan(f, probe, loginHtml, setCookie);
    forall i | 0 <= i < |p.requests| ensures !p.requests[i].LoginPost? {
    }
  }

  /**
   * Without a reusable cookie and with a nonce, the script posts the login
   * form with that nonce, and the captured `set-cookie` value (or `""` when
   * the header is absent) becomes the cookie and is saved.
   */
  lemma LoginSavesCookie(f: AuthFile, probe: Probe, loginHtml: string, setCookie: Option<string>)
    requires !f.Corrupt? && !Plan(f, probe, loginHtml, setCookie).result.Reused?
    requires ExtractNonce(loginHtml).Some?
    ensures var p := Plan(f, probe, loginHtml, setCookie);
      var cookie := if setCookie.Some? then setCookie.value else "";
      && p.result == LoggedIn(cookie)
      && p.file == Saved(Some(cookie))
      && p.requests[|p.requests| - 1] == LoginPost(Username, Password, ExtractNonce(loginHtml).value)
      && LoadAuth(p.file) == Loaded(Some(cookie))
  {
  }

  /**
   * A run that logged in without receiving a cookie saves `""`, so the next
   * run logs in again whatever the probe would say.
   */
  lemma EmptyCookieNotReused(f: AuthFile, probe: Probe, loginHtml: string, probe2: Probe, html2: string, setCookie2: Option<string>)
    requires Plan(f, probe, loginHtml, None).result.LoggedIn?
    ensures var f2 := Plan(f, probe, loginHtml, None).file;
      !Plan(f2, probe2, html2, setCookie2).result.Reused?
  {
  }
}
