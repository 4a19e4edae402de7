/** The login gate of the newer board: a session holds one `logged_in` flag;
    a guarded request goes through only while it is set, `login` sets it on
    the shared password and `logout` clears it. Redirects, rendered pages and
    flashed messages are result values. */
module SessionGate {
  import opened Common

  /** The category a flashed message carries. */
  datatype Category = Warning | Success | Danger | Info

  /** A one-shot message flashed to the next page. */
  datatype Flash = Flash(text: string, category: Category)

  const NeedLogin: Flash := Flash("この操作を行うにはログインが必要です。", Warning)
  const LoginDone: Flash := Flash("ログインしました。", Success)
  const BadPassword: Flash := Flash("パスワードが間違っています。", Danger)
  const LogoutDone: Flash := Flash("ログアウトしました。", Info)

  /** Where a redirect goes: the post list, the login page (with its `next`
      query argument, if any) or a URL taken from that argument. */
  datatype Target = IndexPage | LoginPage(next: Option<string>) | Url(url: string)

  /** What a handler answers: a redirect, or the login form rendered in place;
      either may come with the message it flashed. */
  datatype Response = Redirect(target: Target, flash: Option<Flash>) | LoginForm(flash: Option<Flash>)

  datatype Verb = HttpGet | HttpPost

  /** A request to `/login`: its method, its `password` form field and its
      `next` query argument. */
  datatype LoginRequest = LoginRequest(verb: Verb, password: Option<string>, next: Option<string>)

  /** The `login_required` decorator: `None` lets the request through;
      otherwise the answer is a redirect to the login page that carries the
      requested URL as `next`, with a warning flashed. */
  function Guard(loggedIn: bool, url: string): (r: Option<Response>)
    ensures r.None? <==> loggedIn
    ensures r.Some? ==> r.value.Redirect? && r.value.target == LoginPage(Some(url))
    ensures r.Some? ==> r.value.flash == Some(NeedLogin)
  {
    if loggedIn then None else Some(Redirect(LoginPage(Some(url)), Some(NeedLogin)))
  }

  /** `next_url or url_for('index')`: the `next` argument when it is a
      non-empty string, otherwise the post list. */
  function ReturnTarget(next: Option<string>): (t: Target)
    ensures t == IndexPage || (Truthy(next) && t == Url(next.value))
    ensures Truthy(next) <==> t.Url?
  {
    if Truthy(next) then Url(next.value) else IndexPage
  }

  /** One request to `/login` as a transition of the flag: the new flag and
      the answer. */
  function LoginStep(loggedIn: bool, req: LoginRequest, password: string): (r: (bool, Response))
    ensures r.0 <==> loggedIn || (req.verb == HttpPost && req.password == Some(password))
    ensures loggedIn ==> r.1 == Redirect(IndexPage, None)
    ensures !loggedIn && req.verb == HttpPost && req.password == Some(password) ==>
              r.1 == Redirect(ReturnTarget(req.next), Some(LoginDone))
    ensures !loggedIn && req.verb == HttpPost && req.password != Some(password) ==>
              r.1 == LoginForm(Some(BadPassword))
    ensures !loggedIn && req.verb == HttpGet ==> r.1 == LoginForm(None)
  {
    if loggedIn then (true, Redirect(IndexPage, None))
    else if req.verb == HttpPost then
      if req.password == Some(password) then (true, Redirect(ReturnTarget(req.next), Some(LoginDone)))
      else (false, LoginForm(Some(BadPassword)))
    else (false, LoginForm(None))
  }

  /** A URL the guard turned away is where a correct login then sends the
      user back to. */
  lemma {:induction false} GuardedUrlIsHonoured(url: string, password: string)
    requires url != []
    ensures var refused := Guard(false, url).value;
            LoginStep(false, LoginRequest(HttpPost, Some(password), refused.target.next), password)
              == (true, Redirect(Url(url), Some(LoginDone)))
  {
  }

  /** A client's session: the `logged_in` entry, absent and unset alike read
      as `false`. */
  class Session {
    var loggedIn: bool

    /** A fresh session has no `logged_in` entry. */
    constructor ()
      ensures !loggedIn
    {
      loggedIn := false;
    }

    /** The `/login` handler, with the board's password as a parameter. */
    method Login(req: LoginRequest, password: string) returns (r: Response)
      modifies this
      ensures (loggedIn, r) == LoginStep(old(loggedIn), req, password)
      ensures old(loggedIn) ==> loggedIn && r == Redirect(IndexPage, None)
      ensures !old(loggedIn) && req.password != Some(password) ==> !loggedIn
    {
      if loggedIn {
        return Redirect(IndexPage, None);
      }
      if req.verb == HttpPost {
        if req.password == Some(password) {
          loggedIn := true;
          return Redirect(ReturnTarget(req.next), Some(LoginDone));
        } else {
          r := LoginForm(Some(BadPassword));
          return;
        }
      }
      r := LoginForm(None);
    }

    /** The `/logout` handler: `session.pop('logged_in', None)`, then back to
        the login page. */
    method Logout() returns (r: Response)
      modifies this
      ensures !loggedIn
      ensures r == Redirect(LoginPage(None), Some(LogoutDone))
    {
      loggedIn := false;
      r := Redirect(LoginPage(None), Some(LogoutDone));
    }
  }
}
