/**
 * The in-memory session table: resolving the session cookie on every
 * request, the login and CSRF gates, starting and ending sessions, and the
 * periodic sweep of expired entries. The clock and the random strings are
 * parameters.
 */
module Sessions {
  import opened Base
  import opened Http
  import Users

  /** A session; `expires` is an instant in nanoseconds. */
  datatype Session = Session(id: string, user: int, csrfToken: string, flashes: seq<string>, expires: Instant)

  /** `cookieOptions`; `maxAge` is a duration in nanoseconds. */
  datatype CookieOptions = CookieOptions(name: string, maxAge: int, httpOnly: bool, secure: bool)

  /** A `Set-Cookie` header before serialisation. */
  datatype Cookie = Cookie(name: string, value: string, expires: Option<Instant>, maxAge: int, httpOnly: bool, secure: bool)

  /** `sessionMap`: session id to session. */
  type Table = map<string, Session>

  /** Every session is stored under its own id, as `newSession` files it. */
  predicate Keyed(m: Table) {
    forall k :: k in m ==> m[k].id == k
  }

  /** `WriteCookie`: the session id, expiring one `maxAge` from now. */
  function WriteCookie(s: Session, options: CookieOptions, now: Instant): (c: Cookie)
    ensures c.name == options.name && c.value == s.id && c.expires == Some(now + options.maxAge)
  {
    Cookie(options.name, s.id, Some(now + options.maxAge), 0, options.httpOnly, options.secure)
  }

  /** `DeleteCookie`: the value "-" with a negative max-age, which browsers drop at once. */
  function DeleteCookie(options: CookieOptions): (c: Cookie)
    ensures c.name == options.name && c.value == "-" && c.maxAge < 0
  {
    Cookie(options.name, "-", None, -1, false, false)
  }

  /** The session an anonymous request gets: no id, user 0, no CSRF token. */
  function Anonymous(now: Instant): Session {
    Session("", 0, "", [], now)
  }

  /** `&User{}`: the zero user, whose id 0 means "not logged in". */
  const Nobody: Users.User := Users.User(0, "", None, "", None, None)

  /** What resolving the cookie leaves behind: the table, the request's user and session, and a cookie to send. */
  datatype Resolution = Resolution(sessions: Table, user: Users.User, session: Session, setCookie: Option<Cookie>)

  /** The anonymous answer, with the table as given. */
  function Unresolved(m: Table, now: Instant): Resolution {
    Resolution(m, Nobody, Anonymous(now), None)
  }


  /** `destroySession`: the entry under the session's own id goes. */
  function Destroy(m: Table, s: Session): (r: Table)
    ensures forall k :: k in r <==> k in m && k != s.id
    ensures forall k :: k in r ==> r[k] == m[k]
  {
    m - {s.id}
  }

  /**
   * `ResolveSessionCookie`: a cookie naming a live session of an existing,
   * not deleted user refreshes that session; an expired session, or one
   * whose user is gone, is destroyed; every other request is anonymous.
   */
  function Resolve(m: Table, options: CookieOptions, req: Request, users: Users.Table, now: Instant): (r: Resolution)
    ensures r.user == Nobody || (r.setCookie.Some? && r.user.deleted.None? && r.user.id != 0)
    ensures r.user == Nobody ==> r.session == Anonymous(now) && r.setCookie.None?
    ensures Users.Valid(users) ==> (r.user == Nobody || r.user.id > 0)
    ensures r.user.password.None?
  {
    if options.name !in req.cookies || req.cookies[options.name] !in m then Unresolved(m, now)
    else
      var clientId := req.cookies[options.name];
      var sess := m[clientId];
      if now > sess.expires then Unresolved(Destroy(m, sess), now)
      else
        match Users.FindUser(users, sess.user, false)
        case Some(u) =>
          if u.deleted.None? then
            var refreshed := sess.(expires := now + options.maxAge);
            Resolution(m[clientId := refreshed], u, refreshed, Some(WriteCookie(refreshed, options, now)))
          else Unresolved(Destroy(m, sess), now)
        case None => Unresolved(Destroy(m, sess), now)
  }

  /** What a middleware decided: let the chain go on, or answer itself. */
  datatype Gate = Pass | Stop(response: Response)

  /** `RequireLogin`: anonymous and deleted users are sent to the login page. */
  function RequireLogin(user: Users.User): (g: Gate)
    ensures g.Pass? <==> user.id > 0 && user.deleted.None?
    ensures g.Stop? ==> g.response == Redirect(302, "/login")
  {
    if user.id <= 0 || user.deleted.Some? then Stop(Redirect(302, "/login")) else Pass
  }

  /** `RequireCsrfToken`: the `_csrf` form field must equal the session's token. */
  function RequireCsrfToken(session: Option<Session>, req: Request): (g: Gate)
    ensures g.Pass? <==> session.Some? && FormValue(req, "_csrf") != "" && FormValue(req, "_csrf") == session.value.csrfToken
    ensures session.None? ==> g == Stop(NewResponse(401, "Nope."))
    ensures session.Some? && FormValue(req, "_csrf") == "" ==> g == Stop(NewResponse(400, "Nope."))
    ensures session.Some? && FormValue(req, "_csrf") != "" && FormValue(req, "_csrf") != session.value.csrfToken
            ==> g == Stop(NewResponse(403, "Nope."))
  {
    if session.None? then Stop(NewResponse(401, "Nope."))
    else
      var token := FormValue(req, "_csrf");
      if token == "" then Stop(NewResponse(400, "Nope."))
      else if token != session.value.csrfToken then Stop(NewResponse(403, "Nope."))
      else Pass
  }

  /** The two gates every state-changing route puts in front of its action, login first. */
  function Guard(user: Users.User, session: Session, req: Request): (g: Gate)
    ensures g.Pass? <==> && user.id > 0 && user.deleted.None?
                         && FormValue(req, "_csrf") != "" && FormValue(req, "_csrf") == session.csrfToken
    ensures !(user.id > 0 && user.deleted.None?) ==> g == Stop(Redirect(302, "/login"))
  {
    match RequireLogin(user)
    case Stop(r) => Stop(r)
    case Pass => RequireCsrfToken(Some(session), req)
  }

  /**
   * `newSession`: a session for the user (or user 0) that expires one
   * `maxAge` from now, with a random CSRF token and a random id, filed under
   * that id. The two reads of randomness are drawn in this order.
   */
  function NewSession(m: Table, user: Option<Users.User>, options: CookieOptions, now: Instant,
                      tokenRead: Result<string>, idRead: Result<string>): (r: Result<(Table, Session)>)
    ensures r.Ok? <==> tokenRead.Ok? && idRead.Ok?
    ensures r.Ok? ==> && r.value.1.id == idRead.value && r.value.1.csrfToken == tokenRead.value
                      && r.value.1.flashes == [] && r.value.1.expires == now + options.maxAge
                      && r.value.1.user == (if user.Some? then user.value.id else 0)
                      && r.value.0 == m[r.value.1.id := r.value.1]
  {
    var sess := Session("", if user.Some? then user.value.id else 0, "", [], now + options.maxAge);
    match tokenRead
    case Err(e) => Err(e)
    case Ok(token) =>
      match idRead
      case Err(e) => Err(e)
      case Ok(id) =>
        var s := sess.(csrfToken := token, id := id);
        Ok((m[id := s], s))
  }

  /** `StartSession`: a new session and the cookie that carries its id. */
  function StartSession(m: Table, user: Users.User, options: CookieOptions, now: Instant,
                        tokenRead: Result<string>, idRead: Result<string>): (r: Result<(Table, Session, Cookie)>)
    ensures r.Ok? <==> tokenRead.Ok? && idRead.Ok?
    ensures r.Ok? ==> && r.value.1.user == user.id && r.value.1.id == idRead.value
                      && r.value.0 == m[r.value.1.id := r.value.1] && r.value.2.value == r.value.1.id
  {
    match NewSession(m, Some(user), options, now, tokenRead, idRead)
    case Err(e) => Err(e)
    case Ok((m', s)) => Ok((m', s, WriteCookie(s, options, now)))
  }

  /** `EndSession`: the session is destroyed and its cookie deleted. */
  function EndSession(m: Table, session: Session, options: CookieOptions): (r: (Table, Cookie))
    ensures forall k :: k in r.0 <==> k in m && k != session.id
    ensures forall k :: k in r.0 ==> r.0[k] == m[k]
    ensures r.1.value == "-" && r.1.maxAge < 0
  {
    (Destroy(m, session), DeleteCookie(options))
  }

  /** The sessions still live at `now`: those whose expiry has not passed. */
  function Live(m: Table, now: Instant): (r: Table)
    ensures forall k :: k in r <==> k in m && !(now > m[k].expires)
    ensures forall k :: k in r ==> r[k] == m[k]
  {
    map k | k in m && !(now > m[k].expires) :: m[k]
  }

  /**
   * One pass of `cleanup`: every expired session is destroyed through its
   * own id. The map is visited in an order Go leaves unspecified.
   */
  method Sweep(m: Table, now: Instant) returns (r: Table)
    requires Keyed(m)
    ensures r == Live(m, now)
  {
    r := m;
    var todo := m.Keys;
    while todo != {}
      invariant todo <= m.Keys
      invariant forall k :: k in r <==> k in m && (k in todo || !(now > m[k].expires))
      invariant forall k :: k in r ==> r[k] == m[k]
      decreases |todo|
    {
      var k :| k in todo;
      var sess := m[k];
      if now > sess.expires {
        r := Destroy(r, sess);
      }
      todo := todo - {k};
    }
  }

  // ---------------------------------------------------------------------------
  // Properties

  /** Resolving, starting and ending sessions all keep every session filed under its own id. */
  lemma KeyedIsKept(m: Table, options: CookieOptions, req: Request, users: Users.Table, now: Instant,
                    user: Users.User, tokenRead: Result<string>, idRead: Result<string>, s: Session)
    requires Keyed(m)
    ensures Keyed(Resolve(m, options, req, users, now).sessions)
    ensures StartSession(m, user, options, now, tokenRead, idRead).Ok? ==>
              Keyed(StartSession(m, user, options, now, tokenRead, idRead).value.0)
    ensures Keyed(EndSession(m, s, options).0)
  {
  }

  /** An anonymous session never passes the CSRF gate, whatever the form says. */
  lemma AnonymousFailsCsrf(req: Request, now: Instant)
    ensures RequireCsrfToken(Some(Anonymous(now)), req).Stop?
  {
  }

  /**
   * A request that names no known session leaves the table alone and is
   * anonymous; an expired session, or one whose user is missing or deleted,
   * is removed; a live session of an active user is refreshed in place.
   */
  lemma ResolveCases(m: Table, options: CookieOptions, req: Request, users: Users.Table, now: Instant)
    requires Keyed(m)
    ensures var r := Resolve(m, options, req, users, now);
            && (options.name !in req.cookies || req.cookies[options.name] !in m ==> r == Unresolved(m, now))
            && (options.name in req.cookies && req.cookies[options.name] in m ==>
                  var id := req.cookies[options.name];
                  var sess := m[id];
                  var u := Users.FindUser(users, sess.user, false);
                  if now > sess.expires || u.None? || u.value.deleted.Some? then
                    r == Unresolved(m - {id}, now)
                  else
                    && r.user == u.value
                    && r.session == sess.(expires := now + options.maxAge)
                    && r.sessions == m[id := r.session]
                    && r.setCookie == Some(WriteCookie(r.session, options, now)))
  {
  }

  /** Sweeping twice at the same time removes nothing more. */
  lemma SweepIsIdempotent(m: Table, now: Instant)
    ensures Live(Live(m, now), now) == Live(m, now)
  {
  }
}
