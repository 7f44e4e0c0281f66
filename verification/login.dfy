/**
 * The login and logout controllers: the decision ladder from the submitted
 * credentials to a new session bound to the user.
 */
module Login {
  import opened Base
  import opened Strings
  import opened Http
  import opened Utils
  import opened Crypto
  import Users
  import Sessions
  import AuditLog

  /** `loginData`: the login name echoed back into the form. */
  datatype LoginData = LoginData(loginName: string)

  /** What the login controller did: its answer, both tables after it, the audit records and the cookie it set. */
  datatype Effect = Effect(
    reply: Reply<LoginData>,
    users: Users.Table,
    sessions: Sessions.Table,
    audit: seq<AuditLog.Record>,
    setCookie: Option<Sessions.Cookie>)

  /** The login form again, with a status and the name to echo; nothing is changed. */
  function Rejected(status: int, users: Users.Table, m: Sessions.Table, name: string): Effect {
    Effect(Page(status, "login", LoginData(name)), users, m, [], None)
  }

  /**
   * `loginAction`: the login must be a valid name of an active user whose
   * stored hash verifies the typed password; then a session is started for
   * the user, the login is logged and the last-login time is stamped.
   */
  function LoginAction(m: Sessions.Table, options: Sessions.CookieOptions, req: Request, users: Users.Table,
                       b: Bcrypt, now: Instant, tokenRead: Result<string>, idRead: Result<string>): (o: Outcome<Effect>)
    ensures o.Done? && o.value.reply.Page? ==>
              && o.value.users == users && o.value.sessions == m && o.value.audit == [] && o.value.setCookie.None?
              && o.value.reply.status in {403, 500}
    ensures ValidateSafeString(TrimSpace(FormValue(req, "login")), "login").Err? ==> o == Done(Rejected(403, users, m, ""))
    ensures o.Done? && o.value.reply.Redirected? ==>
              && o.value.reply == Redirected(302, "/")
              && idRead.Ok? && idRead.value in o.value.sessions
              && Users.FindUserByLogin(users, TrimSpace(FormValue(req, "login")), true).Some?
              && o.value.sessions[idRead.value].user == Users.FindUserByLogin(users, TrimSpace(FormValue(req, "login")), true).value.id
              && o.value.users == Users.TouchOnLogin(users, o.value.sessions[idRead.value].user, now)
              && o.value.audit == [AuditLog.LogLogin(req, o.value.sessions[idRead.value].user)]
  {
    var login := TrimSpace(FormValue(req, "login"));
    var password := TrimSpace(FormValue(req, "password"));
    match ValidateSafeString(login, "login")
    case Err(_) => Done(Rejected(403, users, m, ""))
    case Ok(validated) =>
      match Users.FindUserByLogin(users, login, true)
      case None => Done(Rejected(403, users, m, validated))
      case Some(user) =>
        if user.deleted.Some? then Done(Rejected(403, users, m, validated))
        else if user.password.None? then Panicked(NilDereference)
        else if !CompareBcrypt(b, user.password.value, password) then Done(Rejected(403, users, m, validated))
        else
          match Sessions.StartSession(m, user, options, now, tokenRead, idRead)
          case Err(_) => Done(Rejected(500, users, m, validated))
          case Ok((m', s, cookie)) =>
            Done(Effect(Redirected(302, "/"), Users.TouchOnLogin(users, user.id, now),
                        m'[s.id := s.(user := user.id)], [AuditLog.LogLogin(req, user.id)], Some(cookie)))
  }

  /** What a guarded route did: a gate answered, or the action ran. */
  datatype Routed = Halted(response: Response) | Handled(reply: Reply<LoginData>, sessions: Sessions.Table, setCookie: Sessions.Cookie)

  /** `logoutAction` behind `RequireLogin` and `RequireCsrfToken`: the session ends and the browser goes home. */
  function Logout(user: Users.User, session: Sessions.Session, req: Request, m: Sessions.Table,
                  options: Sessions.CookieOptions): (r: Routed)
    ensures r.Handled? ==> r.reply == Redirected(302, "/") && session.id !in r.sessions
  {
    match Sessions.Guard(user, session, req)
    case Stop(response) => Halted(response)
    case Pass =>
      var (m', cookie) := Sessions.EndSession(m, session, options);
      Handled(Redirected(302, "/"), m', cookie)
  }

  // ---------------------------------------------------------------------------
  // Properties

  /**
   * A login succeeds exactly when the name belongs to an active user, the
   * stored hash verifies the password and both random reads work; it
   * panics exactly when that user has no password loaded.
   */
  lemma LoginSucceedsIff(m: Sessions.Table, options: Sessions.CookieOptions, req: Request, users: Users.Table,
                         b: Bcrypt, now: Instant, tokenRead: Result<string>, idRead: Result<string>)
    ensures var o := LoginAction(m, options, req, users, b, now, tokenRead, idRead);
            var u := Users.FindUserByLogin(users, TrimSpace(FormValue(req, "login")), true);
            && ((o.Done? && o.value.reply.Redirected?)
                <==> (&& u.Some? && u.value.password.Some?
                      && CompareBcrypt(b, u.value.password.value, TrimSpace(FormValue(req, "password")))
                      && tokenRead.Ok? && idRead.Ok?))
            && (o.Panicked? <==> u.Some? && u.value.password.None?)
  {
    var login := TrimSpace(FormValue(req, "login"));
    var password := TrimSpace(FormValue(req, "password"));
    var o := LoginAction(m, options, req, users, b, now, tokenRead, idRead);
    var u := Users.FindUserByLogin(users, login, true);
    if u.None? {
      assert o.Done? && o.value.reply.Page?;
    } else {
      var i :| 0 <= i < |users.rows| && Users.HoldsLogin(users.rows[i], ToLower(login))
               && u.value == Users.Loaded(users.rows[i], true);
      assert ValidateSafeString(login, "login").Ok? && u.value.deleted.None?;
      if u.value.password.None? {
        assert o.Panicked?;
      } else if !CompareBcrypt(b, u.value.password.value, password) {
        assert o.Done? && o.value.reply.Page?;
      } else if tokenRead.Err? || idRead.Err? {
        assert o.Done? && o.value.reply.Page?;
      } else {
        assert o.Done? && o.value.reply.Redirected?;
      }
    }
  }

  /** A successful login stamps the last-login time of that user and of no one else, and logs it. */
  lemma LoginStampsOnlyTheUser(m: Sessions.Table, options: Sessions.CookieOptions, req: Request, users: Users.Table,
                               b: Bcrypt, now: Instant, tokenRead: Result<string>, idRead: Result<string>)
    requires Users.Valid(users)
    requires LoginAction(m, options, req, users, b, now, tokenRead, idRead).Done?
    requires LoginAction(m, options, req, users, b, now, tokenRead, idRead).value.reply.Redirected?
    ensures var e := LoginAction(m, options, req, users, b, now, tokenRead, idRead).value;
            var id := Users.FindUserByLogin(users, TrimSpace(FormValue(req, "login")), true).value.id;
            && |e.users.rows| == |users.rows|
            && (forall i :: 0 <= i < |users.rows| ==>
                  e.users.rows[i] == if users.rows[i].id == id then users.rows[i].(lastLoginAt := Some(now)) else users.rows[i])
            && e.audit == [AuditLog.LogLogin(req, id)]
  {
  }

  /** Logging out happens exactly for a logged-in user who sends the session's CSRF token, and removes only that session. */
  lemma LogoutIsGuarded(user: Users.User, session: Sessions.Session, req: Request, m: Sessions.Table,
                        options: Sessions.CookieOptions)
    ensures var r := Logout(user, session, req, m, options);
            && (r.Handled? <==> && user.id > 0 && user.deleted.None?
                                && FormValue(req, "_csrf") != "" && FormValue(req, "_csrf") == session.csrfToken)
            && (r.Handled? ==> forall k :: k in r.sessions <==> k in m && k != session.id)
  {
  }

  // ---------------------------------------------------------------------------
  // The stored password

  /**
   * A bcrypt that keeps its promise: the "hash" is the password behind the
   * `$2a$` prefix, and it verifies exactly the password it was made from.
   */
  const Prefixed: Bcrypt := Bcrypt(p => "$2a$" + p, (h, p) => h == "$2a$" + p)

  lemma PrefixedIsLawful()
    ensures BcryptLawful(Prefixed)
  {
  }

  /**
   * As written, a user created through the admin form can never log in with
   * the password given at creation: the password is stored as typed and the
   * login compares it as a hash.
   */
  lemma CreatedUserCannotLogIn(t: Users.Table, createReq: Request, currentId: int,
                               m: Sessions.Table, options: Sessions.CookieOptions, req: Request, now: Instant,
                               tokenRead: Result<string>, idRead: Result<string>)
    requires Users.Valid(t) && t.nextId > 0
    requires Users.Create(t, createReq, currentId).reply.Redirected?
    requires FormValue(req, "login") == FormValue(createReq, "login")
    requires FormValue(req, "password") == FormValue(createReq, "password")
    ensures var t' := Users.Create(t, createReq, currentId).table;
            var o := LoginAction(m, options, req, t', Prefixed, now, tokenRead, idRead);
            o.Done? && o.value.reply.Page? && o.value.reply.status == 403
  {
    var t' := Users.Create(t, createReq, currentId).table;
    var password := TrimSpace(FormValue(req, "password"));
    Users.CreateSucceedsIff(t, createReq, currentId, Users.Verbatim);
    Users.CreateThenFindByLogin(t, createReq, currentId, Users.Verbatim);
    assert |"$2a$" + password| != |password|;
    LoginSucceedsIff(m, options, req, t', Prefixed, now, tokenRead, idRead);
  }

  /**
   * With the password stored as its bcrypt hash, the user just created logs
   * in with the password given at creation, for any bcrypt that keeps its
   * promise.
   */
  lemma CreatedHashedUserLogsIn(t: Users.Table, createReq: Request, currentId: int, b: Bcrypt,
                                m: Sessions.Table, options: Sessions.CookieOptions, req: Request, now: Instant,
                                tokenRead: Result<string>, idRead: Result<string>)
    requires Users.Valid(t) && t.nextId > 0 && BcryptLawful(b)
    requires Users.CreateHashed(t, createReq, currentId, b).reply.Redirected?
    requires FormValue(req, "login") == FormValue(createReq, "login")
    requires FormValue(req, "password") == FormValue(createReq, "password")
    requires tokenRead.Ok? && idRead.Ok?
    ensures var t' := Users.CreateHashed(t, createReq, currentId, b).table;
            var o := LoginAction(m, options, req, t', b, now, tokenRead, idRead);
            o.Done? && o.value.reply == Redirected(302, "/")
            && o.value.sessions[idRead.value].user == t.nextId
  {
    var t' := Users.CreateHashed(t, createReq, currentId, b).table;
    var password := TrimSpace(FormValue(req, "password"));
    Users.CreateThenFindByLogin(t, createReq, currentId, b.hash);
    CompareHashed(b, password);
    LoginSucceedsIff(m, options, req, t', b, now, tokenRead, idRead);
  }
}
