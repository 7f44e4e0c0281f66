/**
 * The profile controllers: a logged-in user renames themselves, changes
 * their login or re-sets their password. The user they act on is the one
 * the session middleware resolved.
 */
module Profile {
  import opened Base
  import opened Strings
  import opened Http
  import opened Utils
  import opened Crypto
  import Users
  import Sessions
  import AuditLog

  /** `profileData` without the layout. */
  datatype ProfileData = ProfileData(
    name: string, nameError: string, loginName: string, loginError: string,
    passwordError: string, otherError: string)

  /** What a profile controller did: its answer, the user table after it, the audit records. */
  datatype Change = Change(reply: Reply<ProfileData>, table: Users.Table, audit: seq<AuditLog.Record>)

  function Form(status: int, t: Users.Table, data: ProfileData): Change {
    Change(Page(status, "profile/form", data), t, [])
  }

  /** The form as first shown: the user's name and login, no errors. */
  function Blank(user: Users.User): ProfileData {
    ProfileData(user.name, "", user.login, "", "", "")
  }

  /** `profileAction`. */
  function Show(user: Users.User): (r: Reply<ProfileData>)
    ensures r.Page? && r.status == 200 && r.data.name == user.name && r.data.loginName == user.login
  {
    Page(200, "profile/form", Blank(user))
  }

  /**
   * `updateProfileAction`: the trimmed name must not be empty and the login
   * must be valid and not held by another active user; then the user is
   * saved under the new name and the validated login.
   */
  function UpdateProfile(t: Users.Table, user: Users.User, req: Request): (c: Change)
    ensures !c.reply.Redirected? ==> c.table == t && c.audit == [] && c.reply.Page? && c.reply.status == 400
    ensures c.reply.Redirected? ==> c.reply == Redirected(302, "/profile")
                                    && c.audit == [AuditLog.LogUserUpdated(req, user.id, user.id)]
  {
    var name := TrimSpace(FormValue(req, "name"));
    var login := TrimSpace(FormValue(req, "login"));
    var data := Blank(user).(name := name, loginName := login);
    if |name| == 0 then Form(400, t, data.(nameError := "Your name cannot be empty."))
    else match ValidateSafeString(login, "login")
      case Err(e) => Form(400, t, data.(loginError := e))
      case Ok(validated) =>
        var existing := Users.FindUserByLogin(t, validated, false);
        if existing.Some? && existing.value.id != user.id then
          Form(400, t, data.(loginError := "This login is already in use."))
        else
          var (t', _) := Users.Save(t, user.(name := name, login := validated));
          Change(Redirected(302, "/profile"), t', [AuditLog.LogUserUpdated(req, user.id, user.id)])
  }

  /**
   * `changePasswordAction` as written: the typed password must not be empty
   * and must verify against the user's hash, which is read through the
   * user's password pointer; the same password is then stored re-hashed.
   */
  function ChangePassword(t: Users.Table, user: Users.User, req: Request, b: Bcrypt): (o: Outcome<Change>)
    ensures |TrimSpace(FormValue(req, "password"))| > 0 && user.password.None? ==> o.Panicked?
    ensures o.Done? && !o.value.reply.Redirected? ==> o.value.table == t && o.value.audit == []
  {
    var password := TrimSpace(FormValue(req, "password"));
    var data := Blank(user);
    if |password| == 0 then Done(Form(400, t, data.(passwordError := "Your password cannot be empty.")))
    else if user.password.None? then Panicked(NilDereference)
    else if !CompareBcrypt(b, user.password.value, password) then
      Done(Form(400, t, data.(passwordError := "This was not your current password.")))
    else
      var (t', _) := Users.Save(t, user.(password := Some(HashBcrypt(b, password))));
      Done(Change(Redirected(302, "/profile"), t', [AuditLog.LogUserUpdated(req, user.id, user.id)]))
  }

  /**
   * The password change as intended: the user is read again with the
   * password column loaded, and that row is checked and saved.
   */
  function ChangePasswordLoaded(t: Users.Table, user: Users.User, req: Request, b: Bcrypt): (o: Outcome<Change>)
    ensures o.Done? && !o.value.reply.Redirected? ==> o.value.table == t && o.value.audit == []
  {
    match Users.FindUser(t, user.id, true)
    case None => Panicked(NilDereference)
    case Some(stored) => ChangePassword(t, stored, req, b)
  }

  /** What a guarded route did: a gate answered, or the action ran. */
  datatype Routed<+T> = Halted(response: Response) | Handled(result: T)

  /** `PUT /profile`: login and CSRF gates, then the update. */
  function UpdateRoute(t: Users.Table, user: Users.User, session: Sessions.Session, req: Request): (r: Routed<Change>)
    ensures r.Handled? ==> r.result == UpdateProfile(t, user, req)
  {
    match Sessions.Guard(user, session, req)
    case Stop(response) => Halted(response)
    case Pass => Handled(UpdateProfile(t, user, req))
  }

  /** `PUT /profile/password`: login and CSRF gates, then the password change. */
  function PasswordRoute(t: Users.Table, user: Users.User, session: Sessions.Session, req: Request, b: Bcrypt)
    : (r: Routed<Outcome<Change>>)
    ensures r.Handled? ==> r.result == ChangePassword(t, user, req, b)
  {
    match Sessions.Guard(user, session, req)
    case Stop(response) => Halted(response)
    case Pass => Handled(ChangePassword(t, user, req, b))
  }

  // ---------------------------------------------------------------------------
  // Properties

  /** Both profile routes run their action exactly for a logged-in user who sends the session's CSRF token. */
  lemma RoutesAreGuarded(t: Users.Table, user: Users.User, session: Sessions.Session, req: Request, b: Bcrypt)
    ensures var allowed := && user.id > 0 && user.deleted.None?
                           && FormValue(req, "_csrf") != "" && FormValue(req, "_csrf") == session.csrfToken;
            && (UpdateRoute(t, user, session, req).Handled? <==> allowed)
            && (PasswordRoute(t, user, session, req, b).Handled? <==> allowed)
            && (!(user.id > 0 && user.deleted.None?) ==>
                  UpdateRoute(t, user, session, req) == Halted(Redirect(302, "/login")))
  {
  }

  /** A profile update succeeds exactly for a non-empty name and a valid login that no other active user holds. */
  lemma UpdateProfileSucceedsIff(t: Users.Table, user: Users.User, req: Request)
    ensures var login := TrimSpace(FormValue(req, "login"));
            UpdateProfile(t, user, req).reply.Redirected?
            <==> && |TrimSpace(FormValue(req, "name"))| > 0
                 && ValidateSafeString(login, "login").Ok?
                 && (Users.FindUserByLogin(t, login, false).None? || Users.FindUserByLogin(t, login, false).value.id == user.id)
  {
    var login := TrimSpace(FormValue(req, "login"));
    if ValidateSafeString(login, "login").Ok? {
      Users.LoginLookupIsCaseBlind(t, login, false);
    }
  }

  /**
   * For the user the session resolved, a successful update renames the row
   * and changes its login to the validated form, and keeps the password.
   */
  lemma UpdateProfileThenFind(t: Users.Table, user: Users.User, req: Request)
    requires Users.Valid(t) && Users.FindUser(t, user.id, false) == Some(user) && user.deleted.None?
    requires UpdateProfile(t, user, req).reply.Redirected?
    ensures var stored := Users.FindUser(t, user.id, true).value;
            Users.FindUser(UpdateProfile(t, user, req).table, user.id, true)
            == Some(stored.(name := TrimSpace(FormValue(req, "name")),
                            login := ValidateSafeString(TrimSpace(FormValue(req, "login")), "login").value))
  {
    var changed := user.(name := TrimSpace(FormValue(req, "name")),
                         login := ValidateSafeString(TrimSpace(FormValue(req, "login")), "login").value);
    Users.FindUserLoadsSameRow(t, user.id);
    assert UpdateProfile(t, user, req).table == Users.Save(t, changed).0;
    Users.SaveActiveThenFind(t, changed);
  }

  /**
   * As written, the password can never be changed: the session's user is
   * loaded without the password, so any non-empty submission panics.
   */
  lemma SessionUserCannotChangePassword(m: Sessions.Table, options: Sessions.CookieOptions, req: Request,
                                        users: Users.Table, now: Instant, b: Bcrypt)
    requires |TrimSpace(FormValue(req, "password"))| > 0
    ensures ChangePassword(users, Sessions.Resolve(m, options, req, users, now).user, req, b).Panicked?
  {
  }

  /**
   * With the row re-read, the change succeeds exactly when the typed
   * password verifies against the stored hash; afterwards the stored hash
   * is the bcrypt hash of that password, which a lawful bcrypt verifies.
   */
  lemma ChangePasswordLoadedWorks(t: Users.Table, user: Users.User, req: Request, b: Bcrypt)
    requires Users.Valid(t) && user.id > 0 && BcryptLawful(b)
    requires Users.FindUser(t, user.id, true).Some?
    requires Users.FindUser(t, user.id, true).value.password.Some? && Users.FindUser(t, user.id, true).value.deleted.None?
    ensures var stored := Users.FindUser(t, user.id, true).value;
            var password := TrimSpace(FormValue(req, "password"));
            var o := ChangePasswordLoaded(t, user, req, b);
            && o.Done?
            && (o.value.reply.Redirected? <==> |password| > 0 && CompareBcrypt(b, stored.password.value, password))
            && (o.value.reply.Redirected? ==>
                  && Users.FindUser(o.value.table, user.id, true) == Some(stored.(password := Some(HashBcrypt(b, password))))
                  && CompareBcrypt(b, HashBcrypt(b, password), password))
  {
    var stored := Users.FindUser(t, user.id, true).value;
    var password := TrimSpace(FormValue(req, "password"));
    if |password| > 0 && CompareBcrypt(b, stored.password.value, password) {
      Users.SaveActiveThenFind(t, stored.(password := Some(HashBcrypt(b, password))));
      CompareHashed(b, password);
    }
  }
}
