/**
 * Users: the `user` table with its soft delete, the lookups by id and by
 * login, `Save`, and the admin controllers that create, edit and delete
 * users.
 */
module Users {
  import opened Base
  import opened Strings
  import opened Http
  import opened Utils
  import opened Crypto
  import AuditLog

  /** A `user` row; `password` is `None` when the column was not loaded. */
  datatype User = User(
    id: int,
    login: string,
    password: Option<string>,
    name: string,
    lastLoginAt: Option<Instant>,
    deleted: Option<Instant>)

  /** The `user` table: rows in insertion order and the next auto-increment id. */
  datatype Table = Table(rows: seq<User>, nextId: int)

  /** Ids are positive, distinct and below the next one. */
  predicate Valid(t: Table) {
    && (forall i :: 0 <= i < |t.rows| ==> 0 < t.rows[i].id < t.nextId)
    && (forall i, j :: 0 <= i < j < |t.rows| ==> t.rows[i].id != t.rows[j].id)
  }

  /** A row as a query returns it: the password hash only when asked for. */
  function Loaded(u: User, loadPassword: bool): User {
    if loadPassword then u else u.(password := None)
  }

  function RowWithId(rows: seq<User>, id: int): (r: Option<User>)
    ensures r.Some? ==> r.value in rows && r.value.id == id
    ensures r.None? <==> forall i :: 0 <= i < |rows| ==> rows[i].id != id
  {
    if |rows| == 0 then None
    else if rows[0].id == id then Some(rows[0])
    else RowWithId(rows[1..], id)
  }

  /** A user that has not been deleted holds the login. */
  predicate HoldsLogin(u: User, login: string) {
    u.login == login && u.deleted.None?
  }

  function ActiveWithLogin(rows: seq<User>, login: string): (r: Option<User>)
    ensures r.Some? ==> r.value in rows && HoldsLogin(r.value, login)
    ensures r.None? <==> forall i :: 0 <= i < |rows| ==> !HoldsLogin(rows[i], login)
  {
    if |rows| == 0 then None
    else if HoldsLogin(rows[0], login) then Some(rows[0])
    else ActiveWithLogin(rows[1..], login)
  }

  /** `findUser`: the row with that id, deleted or not; a row read with id 0 counts as not found. */
  function FindUser(t: Table, id: int, loadPassword: bool): (r: Option<User>)
    ensures r.None? <==> id == 0 || forall i :: 0 <= i < |t.rows| ==> t.rows[i].id != id
    ensures r.Some? ==> exists i :: 0 <= i < |t.rows| && t.rows[i].id == id && r.value == Loaded(t.rows[i], loadPassword)
  {
    match RowWithId(t.rows, id)
    case None => None
    case Some(u) => if u.id == 0 then None else Some(Loaded(u, loadPassword))
  }

  /** Both queries by id read the same row; only the password column differs. */
  lemma FindUserLoadsSameRow(t: Table, id: int)
    requires FindUser(t, id, true).Some?
    ensures FindUser(t, id, false) == Some(Loaded(FindUser(t, id, true).value, false))
  {
  }

  /**
   * `findUserByLogin`: an invalid login is "not found" without a query;
   * otherwise the user that is not deleted and has the validated login.
   */
  function FindUserByLogin(t: Table, login: string, loadPassword: bool): (r: Option<User>)
    ensures ValidateSafeString(login, "login").Err? ==> r.None?
    ensures r.Some? ==> exists i :: 0 <= i < |t.rows| && HoldsLogin(t.rows[i], ToLower(login))
                                   && r.value == Loaded(t.rows[i], loadPassword)
    ensures Valid(t) ==>
              (r.None? <==> (ValidateSafeString(login, "login").Err?
                             || forall i :: 0 <= i < |t.rows| ==> !HoldsLogin(t.rows[i], ToLower(login))))
  {
    match ValidateSafeString(login, "login")
    case Err(_) => None
    case Ok(validated) =>
      match ActiveWithLogin(t.rows, validated)
      case None => None
      case Some(u) => if u.id == 0 then None else Some(Loaded(u, loadPassword))
  }

  /**
   * The UPDATE of `Save`: name, login, last login and deletion mark are
   * written back, the password only when one is given.
   */
  function Updated(row: User, u: User): User {
    row.(name := u.name, login := u.login, lastLoginAt := u.lastLoginAt, deleted := u.deleted,
         password := if u.password.Some? then u.password else row.password)
  }

  /**
   * `Save`: a user with a non-positive id is inserted under the next id (not
   * yet logged in); any other updates its row, and only while that row is not
   * deleted. The new table and the user's id are returned.
   */
  function Save(t: Table, u: User): (r: (Table, int))
    ensures u.id <= 0 ==> r.0.rows == t.rows + [User(t.nextId, u.login, u.password, u.name, None, u.deleted)]
                          && r.0.nextId == t.nextId + 1 && r.1 == t.nextId
    ensures u.id > 0 ==> r.1 == u.id && r.0.nextId == t.nextId && |r.0.rows| == |t.rows|
    ensures u.id > 0 ==> forall i :: 0 <= i < |t.rows| ==>
              r.0.rows[i] == if t.rows[i].id == u.id && t.rows[i].deleted.None? then Updated(t.rows[i], u) else t.rows[i]
  {
    if u.id <= 0 then
      (Table(t.rows + [User(t.nextId, u.login, u.password, u.name, None, u.deleted)], t.nextId + 1), t.nextId)
    else
      (t.(rows := seq(|t.rows|, i requires 0 <= i < |t.rows| =>
                        if t.rows[i].id == u.id && t.rows[i].deleted.None? then Updated(t.rows[i], u) else t.rows[i])), u.id)
  }

  /** Applies a change to the rows with the id and leaves the others alone. */
  function MapId(t: Table, id: int, f: User -> User): (r: Table)
    ensures r.nextId == t.nextId && |r.rows| == |t.rows|
    ensures forall i :: 0 <= i < |t.rows| ==> r.rows[i] == if t.rows[i].id == id then f(t.rows[i]) else t.rows[i]
  {
    t.(rows := seq(|t.rows|, i requires 0 <= i < |t.rows| => if t.rows[i].id == id then f(t.rows[i]) else t.rows[i]))
  }

  /** `Delete`: a soft delete that stamps the deletion time, whatever the row's state. */
  function Delete(t: Table, id: int, now: Instant): Table {
    MapId(t, id, (u: User) => u.(deleted := Some(now)))
  }

  /** `TouchOnLogin`: stamps the login time. */
  function TouchOnLogin(t: Table, id: int, now: Instant): Table {
    MapId(t, id, (u: User) => u.(lastLoginAt := Some(now)))
  }

  /** `IsAuthenticated`: the anonymous user has id 0. */
  predicate IsAuthenticated(u: User) {
    u.id > 0
  }

  /** `UniqueId`: the id as a decimal string. */
  function UniqueId(u: User): string {
    Itoa(u.id)
  }

  // ---------------------------------------------------------------------------
  // Controllers

  /** `userFormData` without the layout. */
  datatype FormData = FormData(
    user: int, name: string, loginName: string,
    nameError: string, loginError: string, passwordError: string, otherError: string,
    lastLoginAt: Option<Instant>, deleted: Option<Instant>)

  /** What a controller did: its answer, the table after it, and the audit records it wrote. */
  datatype Change = Change(reply: Reply<FormData>, table: Table, audit: seq<AuditLog.Record>)

  function Form(status: int, t: Table, data: FormData): Change {
    Change(Page(status, "users/form", data), t, [])
  }

  function Failure(status: int, t: Table, message: string): Change {
    Change(ErrorPage(status, message), t, [])
  }

  /** `fromUser`. */
  function FromUser(u: User): FormData {
    FormData(u.id, u.name, u.login, "", "", "", "", u.lastLoginAt, u.deleted)
  }

  /** The length rule on new passwords, counted in bytes as Go's `len` does. */
  predicate LongEnough(password: string) {
    |Utf8Encode(password)| >= 4
  }

  /** How the source stores a new password: exactly as typed. */
  function Verbatim(password: string): string {
    password
  }

  /**
   * `usersCreateAction`: name, login and password are trimmed and checked in
   * that order; the new user is stored with the password exactly as typed.
   */
  function Create(t: Table, req: Request, currentId: int): (c: Change)
    ensures c.reply.Page? || c.reply.Redirected?
    ensures c.reply.Page? ==> c.table == t && c.audit == [] && c.reply.status == 400
    ensures c.reply.Redirected? ==> c.reply == Redirected(302, "/users")
  {
    CreateWith(t, req, currentId, Verbatim)
  }

  /**
   * The creation controller with the transformation applied to the password
   * before it is stored: the identity as written, a bcrypt hash as the login
   * check expects.
   */
  function CreateWith(t: Table, req: Request, currentId: int, store: string -> string): (c: Change)
    ensures c.reply.Page? || c.reply.Redirected?
    ensures c.reply.Page? ==> c.table == t && c.audit == [] && c.reply.status == 400
    ensures c.reply.Redirected? ==> c.reply == Redirected(302, "/users")
  {
    var name := TrimSpace(FormValue(req, "name"));
    var login := TrimSpace(FormValue(req, "login"));
    var password := TrimSpace(FormValue(req, "password"));
    var data := FormData(0, name, login, "", "", "", "", None, None);
    if |name| == 0 then Form(400, t, data.(nameError := "The name cannot be empty."))
    else match ValidateSafeString(login, "login")
      case Err(e) => Form(400, t, data.(loginError := e))
      case Ok(validated) =>
        if FindUserByLogin(t, validated, false).Some? then
          Form(400, t, data.(loginError := "This login is already in use."))
        else if !LongEnough(password) then
          Form(400, t, data.(passwordError := "The passphrase must be at least 4 characters long."))
        else
          var (t', id) := Save(t, User(-1, validated, Some(store(password)), name, None, None));
          Change(Redirected(302, "/users"), t', [AuditLog.LogUserCreated(req, currentId, id)])
  }

  /** The creation controller as intended: the password is stored as its bcrypt hash. */
  function CreateHashed(t: Table, req: Request, currentId: int, b: Bcrypt): (c: Change)
    ensures c.reply.Page? ==> c.table == t && c.audit == []
  {
    CreateWith(t, req, currentId, b.hash)
  }

  /** `usersEditAction`: the form filled from the stored user, deleted or not. */
  function Edit(t: Table, idParam: string): (r: Reply<FormData>)
    ensures Atoi(idParam).Err? ==> r == ErrorPage(400, "Invalid ID given.")
    ensures Atoi(idParam).Ok? && FindUser(t, Atoi(idParam).value, false).None? ==>
              r == ErrorPage(404, "User could not be found.")
    ensures r.Page? <==> Atoi(idParam).Ok? && FindUser(t, Atoi(idParam).value, false).Some?
    ensures r.Page? ==>
              var u := FindUser(t, Atoi(idParam).value, false).value;
              && r.status == 200 && r.template == "users/form"
              && r.data.user == Atoi(idParam).value && r.data.name == u.name && r.data.loginName == u.login
              && r.data.lastLoginAt == u.lastLoginAt && r.data.deleted == u.deleted
              && r.data.nameError == r.data.loginError == r.data.passwordError == r.data.otherError == ""
  {
    match Atoi(idParam)
    case Err(_) => ErrorPage(400, "Invalid ID given.")
    case Ok(id) =>
      match FindUser(t, id, false)
      case None => ErrorPage(404, "User could not be found.")
      case Some(u) => Page(200, "users/form", FromUser(u))
  }

  /**
   * `usersUpdateAction`: the subject must exist, must not be the current
   * user and must not be deleted; then the creation rules except that the
   * login may be the subject's own and an empty password keeps the stored one.
   */
  function Update(t: Table, idParam: string, req: Request, currentId: int): (c: Change)
    ensures !c.reply.Redirected? ==> c.table == t && c.audit == []
    ensures c.reply.Redirected? ==> c.reply == Redirected(302, "/users") && |c.audit| == 1
    ensures UpdateAnswers(t, idParam, req, currentId, c.reply)
  {
    UpdateWith(t, idParam, req, currentId, Verbatim)
  }

  /** The update controller as intended: a new password is stored as its bcrypt hash (`HashBcrypt` is `b.hash`). */
  function UpdateHashed(t: Table, idParam: string, req: Request, currentId: int, b: Bcrypt): (c: Change)
    ensures !c.reply.Redirected? ==> c.table == t && c.audit == []
    ensures UpdateAnswers(t, idParam, req, currentId, c.reply)
  {
    UpdateWith(t, idParam, req, currentId, b.hash)
  }

  /**
   * The answers of the update controller, whatever it stores as the
   * password: 400 for an unreadable id, 404 for an unknown user, 403 for the
   * current user, 409 for a deleted one; then the name, the login and its
   * freeness are checked in that order, and the update goes through exactly
   * when all of them pass.
   */
  predicate UpdateAnswers(t: Table, idParam: string, req: Request, currentId: int, reply: Reply<FormData>) {
    && (Atoi(idParam).Err? ==> reply == ErrorPage(400, "Invalid ID given."))
    && (Atoi(idParam).Ok? ==>
          var found := FindUser(t, Atoi(idParam).value, false);
          var name := TrimSpace(FormValue(req, "name"));
          var v := ValidateSafeString(TrimSpace(FormValue(req, "login")), "login");
          var holder := if v.Ok? then FindUserByLogin(t, v.value, false) else None;
          var editable := found.Some? && found.value.id != currentId && found.value.deleted.None?;
          && (found.None? ==> reply == ErrorPage(404, "User could not be found."))
          && (found.Some? && found.value.id == currentId ==> reply == ErrorPage(403, "You cannot edit yourself."))
          && (found.Some? && found.value.id != currentId && found.value.deleted.Some? ==>
                reply.Page? && reply.status == 409
                && reply.data.otherError == "This user has been deleted and cannot be edited anymore.")
          && (editable && |name| == 0 ==>
                reply.Page? && reply.status == 400 && reply.data.nameError == "The name cannot be empty.")
          && (editable && |name| > 0 && v.Err? ==>
                reply.Page? && reply.status == 400 && reply.data.loginError == v.error)
          && (editable && |name| > 0 && v.Ok? && holder.Some? && holder.value.id != found.value.id ==>
                reply.Page? && reply.status == 400 && reply.data.loginError == "This login is already in use.")
          && (reply.Redirected? <==>
                editable && |name| > 0 && v.Ok? && (holder.None? || holder.value.id == found.value.id)))
  }

  function UpdateWith(t: Table, idParam: string, req: Request, currentId: int, store: string -> string): (c: Change)
    ensures !c.reply.Redirected? ==> c.table == t && c.audit == []
    ensures c.reply.Redirected? ==> c.reply == Redirected(302, "/users") && |c.audit| == 1
    ensures UpdateAnswers(t, idParam, req, currentId, c.reply)
  {
    match Atoi(idParam)
    case Err(_) => Failure(400, t, "Invalid ID given.")
    case Ok(id) =>
      match FindUser(t, id, false)
      case None => Failure(404, t, "User could not be found.")
      case Some(subject) =>
        if subject.id == currentId then Failure(403, t, "You cannot edit yourself.")
        else
          var name := TrimSpace(FormValue(req, "name"));
          var login := TrimSpace(FormValue(req, "login"));
          var password := TrimSpace(FormValue(req, "password"));
          var data := FormData(subject.id, name, login, "", "", "", "", None, None);
          if subject.deleted.Some? then
            Form(409, t, data.(otherError := "This user has been deleted and cannot be edited anymore."))
          else if |name| == 0 then Form(400, t, data.(nameError := "The name cannot be empty."))
          else match ValidateSafeString(login, "login")
            case Err(e) => Form(400, t, data.(loginError := e))
            case Ok(validated) =>
              var existing := FindUserByLogin(t, validated, false);
              if existing.Some? && existing.value.id != subject.id then
                Form(400, t, data.(loginError := "This login is already in use."))
              else
                var changed := subject.(name := name, login := validated,
                                        password := if |password| > 0 then Some(store(password)) else subject.password);
                var (t', _) := Save(t, changed);
                Change(Redirected(302, "/users"), t', [AuditLog.LogUserUpdated(req, currentId, subject.id)])
  }

  /** What the delete checks decide: the user to delete, or the status and message of the refusal. */
  datatype Verdict = Deletable(subject: User) | Refused(status: int, message: string)

  /**
   * The checks shared by the delete confirmation and the delete itself: 400
   * for an unreadable id, 404 for an unknown user, 403 for the current user
   * and 409 for a user already deleted.
   */
  function DeleteCheck(t: Table, idParam: string, currentId: int): (r: Verdict)
    ensures Atoi(idParam).Err? ==> r == Refused(400, "Invalid ID given.")
    ensures Atoi(idParam).Ok? ==>
              var found := FindUser(t, Atoi(idParam).value, false);
              && (found.None? ==> r == Refused(404, "User could not be found."))
              && (found.Some? && found.value.id == currentId ==> r == Refused(403, "You cannot delete yourself."))
              && (found.Some? && found.value.id != currentId && found.value.deleted.Some? ==>
                    r == Refused(409, "This user has already been deleted. Show some mercy."))
    ensures r.Deletable? ==> Atoi(idParam).Ok? && r.subject.id == Atoi(idParam).value && r.subject.id != currentId
                             && r.subject.deleted.None? && FindUser(t, r.subject.id, false) == Some(r.subject)
  {
    match Atoi(idParam)
    case Err(_) => Refused(400, "Invalid ID given.")
    case Ok(id) =>
      match FindUser(t, id, false)
      case None => Refused(404, "User could not be found.")
      case Some(subject) =>
        if subject.id == currentId then Refused(403, "You cannot delete yourself.")
        else if subject.deleted.Some? then Refused(409, "This user has already been deleted. Show some mercy.")
        else Deletable(subject)
  }

  /** `usersDeleteConfirmAction`. */
  function DeleteConfirm(t: Table, idParam: string, currentId: int): (r: Reply<FormData>)
    ensures r.Page? <==> DeleteCheck(t, idParam, currentId).Deletable?
    ensures DeleteCheck(t, idParam, currentId).Refused? ==>
              r == ErrorPage(DeleteCheck(t, idParam, currentId).status, DeleteCheck(t, idParam, currentId).message)
  {
    match DeleteCheck(t, idParam, currentId)
    case Refused(status, message) => ErrorPage(status, message)
    case Deletable(subject) => Page(200, "users/confirmation", FromUser(subject))
  }

  /** `usersDeleteAction`: the same checks, then the soft delete and its audit record. */
  function Remove(t: Table, idParam: string, req: Request, currentId: int, now: Instant): (c: Change)
    ensures c.reply.Redirected? <==> DeleteCheck(t, idParam, currentId).Deletable?
    ensures DeleteCheck(t, idParam, currentId).Refused? ==>
              c.reply == ErrorPage(DeleteCheck(t, idParam, currentId).status, DeleteCheck(t, idParam, currentId).message)
    ensures Atoi(idParam).Ok? && FindUser(t, Atoi(idParam).value, false).Some?
            && Atoi(idParam).value != currentId && FindUser(t, Atoi(idParam).value, false).value.deleted.Some? ==>
              c.reply == ErrorPage(409, "This user has already been deleted. Show some mercy.")
    ensures !c.reply.Redirected? ==> c.table == t && c.audit == []
  {
    match DeleteCheck(t, idParam, currentId)
    case Refused(status, message) => Failure(status, t, message)
    case Deletable(subject) =>
      Change(Redirected(302, "/users"), Delete(t, subject.id, now), [AuditLog.LogUserDeleted(req, currentId, subject.id)])
  }

  // ---------------------------------------------------------------------------
  // Properties

  /** The login as typed and its validated form find the same user. */
  lemma LoginLookupIsCaseBlind(t: Table, login: string, loadPassword: bool)
    requires ValidateSafeString(login, "login").Ok?
    ensures FindUserByLogin(t, ValidateSafeString(login, "login").value, loadPassword) == FindUserByLogin(t, login, loadPassword)
  {
    ValidateSafeStringIdempotent(login, "login", "login");
    ToLowerOfSafe(ValidateSafeString(login, "login").value);
  }

  /**
   * A user is created exactly when the name is non-empty, the login valid
   * and free, and the password at least 4 bytes long.
   */
  lemma CreateSucceedsIff(t: Table, req: Request, currentId: int, store: string -> string)
    ensures var name := TrimSpace(FormValue(req, "name"));
            var login := TrimSpace(FormValue(req, "login"));
            var password := TrimSpace(FormValue(req, "password"));
            CreateWith(t, req, currentId, store).reply.Redirected? <==>
              |name| > 0 && ValidateSafeString(login, "login").Ok? && FindUserByLogin(t, login, false).None?
              && LongEnough(password)
  {
    var login := TrimSpace(FormValue(req, "login"));
    if ValidateSafeString(login, "login").Ok? {
      LoginLookupIsCaseBlind(t, login, false);
    }
  }

  /** A successful creation appends one active user under the next id, and audits it. */
  lemma CreateAppends(t: Table, req: Request, currentId: int, store: string -> string)
    requires CreateWith(t, req, currentId, store).reply.Redirected?
    ensures var name := TrimSpace(FormValue(req, "name"));
            var login := TrimSpace(FormValue(req, "login"));
            var password := TrimSpace(FormValue(req, "password"));
            var c := CreateWith(t, req, currentId, store);
            && c.table == Table(t.rows + [User(t.nextId, ToLower(login), Some(store(password)), name, None, None)], t.nextId + 1)
            && c.audit == [AuditLog.LogUserCreated(req, currentId, t.nextId)]
  {
    var login := TrimSpace(FormValue(req, "login"));
    var password := TrimSpace(FormValue(req, "password"));
    var validated := ValidateSafeString(login, "login");
    assert |TrimSpace(FormValue(req, "name"))| > 0 && validated.Ok?;
    var row := User(-1, validated.value, Some(store(password)), TrimSpace(FormValue(req, "name")), None, None);
    assert CreateWith(t, req, currentId, store).table == Save(t, row).0;
  }

  /** In a valid table where nobody active holds the login, a user appended under the next id is the one it finds. */
  lemma AppendedFoundByLogin(t: Table, row: User, login: string)
    requires Valid(t) && t.nextId > 0
    requires row.id == t.nextId && HoldsLogin(row, ToLower(login)) && ValidateSafeString(login, "login").Ok?
    requires FindUserByLogin(t, login, false).None?
    ensures Valid(Table(t.rows + [row], t.nextId + 1))
    ensures FindUserByLogin(Table(t.rows + [row], t.nextId + 1), login, true) == Some(row)
  {
    var t' := Table(t.rows + [row], t.nextId + 1);
    assert forall i :: 0 <= i < |t.rows| ==> t'.rows[i] == t.rows[i];
    assert t'.rows[|t.rows|] == row;
    var found := FindUserByLogin(t', login, true);
    var i :| 0 <= i < |t'.rows| && HoldsLogin(t'.rows[i], ToLower(login)) && found.value == Loaded(t'.rows[i], true);
    assert i == |t.rows|;
  }

  /**
   * After a successful creation the new user is the one its login (as
   * typed) finds, holding the stored form of the typed password.
   */
  lemma CreateThenFindByLogin(t: Table, req: Request, currentId: int, store: string -> string)
    requires Valid(t) && t.nextId > 0
    requires CreateWith(t, req, currentId, store).reply.Redirected?
    ensures var name := TrimSpace(FormValue(req, "name"));
            var login := TrimSpace(FormValue(req, "login"));
            var password := TrimSpace(FormValue(req, "password"));
            var c := CreateWith(t, req, currentId, store);
            && Valid(c.table)
            && FindUserByLogin(c.table, login, true) == Some(User(t.nextId, ToLower(login), Some(store(password)), name, None, None))
  {
    var name := TrimSpace(FormValue(req, "name"));
    var login := TrimSpace(FormValue(req, "login"));
    var password := TrimSpace(FormValue(req, "password"));
    CreateSucceedsIff(t, req, currentId, store);
    CreateAppends(t, req, currentId, store);
    AppendedFoundByLogin(t, User(t.nextId, ToLower(login), Some(store(password)), name, None, None), login);
  }

  /** Nobody can edit themselves, whatever the form says; nothing changes. */
  lemma UpdateSelfIsForbidden(t: Table, idParam: string, req: Request, currentId: int)
    requires Atoi(idParam) == Ok(currentId) && FindUser(t, currentId, false).Some?
    ensures Update(t, idParam, req, currentId) == Failure(403, t, "You cannot edit yourself.")
  {
  }

  /** Saving a user that is stored and not deleted changes exactly its row, as `Updated` says. */
  lemma SaveActiveThenFind(t: Table, u: User)
    requires Valid(t) && u.id > 0
    requires FindUser(t, u.id, true).Some? && FindUser(t, u.id, true).value.deleted.None?
    ensures Valid(Save(t, u).0)
    ensures FindUser(Save(t, u).0, u.id, true) == Some(Updated(FindUser(t, u.id, true).value, u))
  {
    var t' := Save(t, u).0;
    var i :| 0 <= i < |t.rows| && t.rows[i].id == u.id;
    FindsTheRow(t, i);
    assert t'.rows[i] == Updated(t.rows[i], u);
    UpdateKeepsIds(t, u);
    FindsTheRow(t', i);
  }

  /** An update rewrites rows in place and keeps every id, so the table stays valid. */
  lemma UpdateKeepsIds(t: Table, u: User)
    requires Valid(t) && u.id > 0
    ensures forall j :: 0 <= j < |t.rows| ==> Save(t, u).0.rows[j].id == t.rows[j].id
    ensures Valid(Save(t, u).0)
  {
    var t' := Save(t, u).0;
    assert forall j :: 0 <= j < |t.rows| ==> t'.rows[j].id == t.rows[j].id;
  }

  /** Ids are unique in a valid table, so looking up a row's id finds that row. */
  lemma FindsTheRow(t: Table, i: int)
    requires Valid(t) && 0 <= i < |t.rows|
    ensures FindUser(t, t.rows[i].id, true) == Some(t.rows[i])
  {
    var r := FindUser(t, t.rows[i].id, true);
    var k :| 0 <= k < |t.rows| && t.rows[k].id == t.rows[i].id && r.value == Loaded(t.rows[k], true);
  }

  /** A successful update saves the subject with the new name and validated login, and a new password only if one was typed. */
  lemma UpdateSaves(t: Table, idParam: string, req: Request, currentId: int)
    requires Update(t, idParam, req, currentId).reply.Redirected?
    ensures var id := Atoi(idParam).value;
            var subject := FindUser(t, id, false).value;
            var password := TrimSpace(FormValue(req, "password"));
            && Atoi(idParam).Ok? && FindUser(t, id, false).Some? && subject.deleted.None? && id != currentId
            && Update(t, idParam, req, currentId).table
               == Save(t, subject.(name := TrimSpace(FormValue(req, "name")),
                                   login := ToLower(TrimSpace(FormValue(req, "login"))),
                                   password := if |password| > 0 then Some(password) else None)).0
  {
    assert Atoi(idParam).Ok?;
    var id := Atoi(idParam).value;
    assert FindUser(t, id, false).Some?;
    var subject := FindUser(t, id, false).value;
    assert subject.id != currentId && subject.deleted.None?;
    assert ValidateSafeString(TrimSpace(FormValue(req, "login")), "login").Ok?;
    assert Verbatim(TrimSpace(FormValue(req, "password"))) == TrimSpace(FormValue(req, "password"));
  }

  /** An update with an empty password keeps the stored password, while name and login change. */
  lemma UpdateKeepsPassword(t: Table, idParam: string, req: Request, currentId: int)
    requires Valid(t)
    requires Update(t, idParam, req, currentId).reply.Redirected?
    requires |TrimSpace(FormValue(req, "password"))| == 0
    ensures var id := Atoi(idParam).value;
            var after := FindUser(Update(t, idParam, req, currentId).table, id, true);
            && after.Some?
            && after.value.password == FindUser(t, id, true).value.password
            && after.value.name == TrimSpace(FormValue(req, "name"))
            && after.value.login == ToLower(TrimSpace(FormValue(req, "login")))
  {
    var id := Atoi(idParam).value;
    UpdateSaves(t, idParam, req, currentId);
    var subject := FindUser(t, id, false).value;
    assert FindUser(t, id, true).value.deleted == subject.deleted;
    var changed := subject.(name := TrimSpace(FormValue(req, "name")),
                            login := ToLower(TrimSpace(FormValue(req, "login"))), password := None);
    SaveActiveThenFind(t, changed);
  }

  /** A soft delete keeps the row, stamped with the deletion time. */
  lemma DeleteThenFind(t: Table, id: int, now: Instant)
    requires Valid(t) && FindUser(t, id, false).Some?
    ensures FindUser(Delete(t, id, now), id, false) == Some(FindUser(t, id, false).value.(deleted := Some(now)))
  {
    var before := FindUser(t, id, false).value;
    var i :| 0 <= i < |t.rows| && t.rows[i].id == id && before == Loaded(t.rows[i], false);
    var t' := Delete(t, id, now);
    assert t'.rows[i] == t.rows[i].(deleted := Some(now));
    var k :| 0 <= k < |t'.rows| && t'.rows[k].id == id && FindUser(t', id, false).value == Loaded(t'.rows[k], false);
    assert t'.rows[k].id == t.rows[k].id;
    assert k == i;
  }

  /** After a soft delete no login, whatever its case, finds the deleted user. */
  lemma DeletedNotFoundByLogin(t: Table, id: int, now: Instant, login: string, loadPassword: bool)
    ensures var found := FindUserByLogin(Delete(t, id, now), login, loadPassword);
            found.Some? ==> found.value.id != id
  {
    var t' := Delete(t, id, now);
    var found := FindUserByLogin(t', login, loadPassword);
    if found.Some? {
      var j :| 0 <= j < |t'.rows| && HoldsLogin(t'.rows[j], ToLower(login)) && found.value == Loaded(t'.rows[j], loadPassword);
      assert t'.rows[j].id == found.value.id;
    }
  }

  /**
   * Deleting through the controller is soft: the user is still found by id,
   * now stamped deleted, but by no login any more.
   */
  lemma RemoveIsSoft(t: Table, idParam: string, req: Request, currentId: int, now: Instant, login: string)
    requires Valid(t)
    requires Remove(t, idParam, req, currentId, now).reply.Redirected?
    ensures var id := Atoi(idParam).value;
            var t' := Remove(t, idParam, req, currentId, now).table;
            var found := FindUserByLogin(t', login, false);
            && FindUser(t', id, false) == Some(FindUser(t, id, false).value.(deleted := Some(now)))
            && (found.Some? ==> found.value.id != id)
  {
    var id := Atoi(idParam).value;
    assert Remove(t, idParam, req, currentId, now).table == Delete(t, id, now);
    DeleteThenFind(t, id, now);
    DeletedNotFoundByLogin(t, id, now, login, false);
  }

  /** Nobody can delete themselves. */
  lemma RemoveSelfIsForbidden(t: Table, idParam: string, req: Request, currentId: int, now: Instant)
    requires Atoi(idParam) == Ok(currentId) && FindUser(t, currentId, false).Some?
    ensures Remove(t, idParam, req, currentId, now) == Failure(403, t, "You cannot delete yourself.")
  {
  }
}
