/**
 * Secrets: the `secret` table, its lookups and `Save`, and the admin
 * controllers that create, edit and delete secrets. Bodies are stored
 * encrypted; the name and slug are plain.
 */
module Secrets {
  import opened Base
  import opened Strings
  import opened Http
  import opened Utils
  import opened Crypto
  import AuditLog

  /** A `secret` row; `secret` is `None` when the column was not loaded (a nil slice). */
  datatype Secret = Secret(
    id: int,
    name: string,
    slug: string,
    secret: Option<Bytes>,
    createdBy: int,
    updatedBy: Option<int>)

  /** The `secret` table: rows in insertion order and the next auto-increment id. */
  datatype Table = Table(rows: seq<Secret>, nextId: int)

  /** Ids are positive, distinct and below the next one. */
  predicate Valid(t: Table) {
    && (forall i :: 0 <= i < |t.rows| ==> 0 < t.rows[i].id < t.nextId)
    && (forall i, j :: 0 <= i < j < |t.rows| ==> t.rows[i].id != t.rows[j].id)
  }

  /** A row as a query returns it: the ciphertext only when asked for. */
  function Loaded(s: Secret, loadSecret: bool): Secret {
    if loadSecret then s else s.(secret := None)
  }

  /** The first row with the given id. */
  function RowWithId(rows: seq<Secret>, id: int): (r: Option<Secret>)
    ensures r.Some? ==> r.value in rows && r.value.id == id
    ensures r.None? <==> forall i :: 0 <= i < |rows| ==> rows[i].id != id
  {
    if |rows| == 0 then None
    else if rows[0].id == id then Some(rows[0])
    else RowWithId(rows[1..], id)
  }

  /** The first row with the given slug. */
  function RowWithSlug(rows: seq<Secret>, slug: string): (r: Option<Secret>)
    ensures r.Some? ==> r.value in rows && r.value.slug == slug
    ensures r.None? <==> forall i :: 0 <= i < |rows| ==> rows[i].slug != slug
  {
    if |rows| == 0 then None
    else if rows[0].slug == slug then Some(rows[0])
    else RowWithSlug(rows[1..], slug)
  }

  /** `findSecret`: the row with that id; a row read with id 0 counts as not found. */
  function FindSecret(t: Table, id: int, loadSecret: bool): (r: Option<Secret>)
    ensures r.None? <==> id == 0 || forall i :: 0 <= i < |t.rows| ==> t.rows[i].id != id
    ensures r.Some? ==> exists i :: 0 <= i < |t.rows| && t.rows[i].id == id && r.value == Loaded(t.rows[i], loadSecret)
  {
    match RowWithId(t.rows, id)
    case None => None
    case Some(s) => if s.id == 0 then None else Some(Loaded(s, loadSecret))
  }

  /**
   * `findSecretBySlug`: an invalid slug is "not found" without a query;
   * otherwise the row whose slug is the validated (lower-cased) form.
   */
  function FindSecretBySlug(t: Table, slug: string, loadSecret: bool): (r: Option<Secret>)
    ensures ValidateSafeString(slug, "slug").Err? ==> r.None?
    ensures r.Some? ==> r.value.id != 0
    ensures r.Some? ==> exists i :: 0 <= i < |t.rows| && t.rows[i].slug == ToLower(slug) && r.value == Loaded(t.rows[i], loadSecret)
    ensures Valid(t) ==>
              (r.None? <==> (ValidateSafeString(slug, "slug").Err? || forall i :: 0 <= i < |t.rows| ==> t.rows[i].slug != ToLower(slug)))
  {
    match ValidateSafeString(slug, "slug")
    case Err(_) => None
    case Ok(validated) =>
      match RowWithSlug(t.rows, validated)
      case None => None
      case Some(s) => if s.id == 0 then None else Some(Loaded(s, loadSecret))
  }

  /** The UPDATE of `Save`: name, slug and updater, and the ciphertext only when one is given. */
  function Updated(row: Secret, s: Secret): Secret {
    row.(name := s.name, slug := s.slug, updatedBy := s.updatedBy,
         secret := if s.secret.Some? then s.secret else row.secret)
  }

  /**
   * `Save`: a secret with a non-positive id is inserted under the next id
   * (no updater yet); any other updates the row with its id, if there is one.
   * The new table and the secret's id are returned.
   */
  function Save(t: Table, s: Secret): (r: (Table, int))
    ensures s.id <= 0 ==> r.0.rows == t.rows + [Secret(t.nextId, s.name, s.slug, s.secret, s.createdBy, None)]
                          && r.0.nextId == t.nextId + 1 && r.1 == t.nextId
    ensures s.id > 0 ==> r.1 == s.id && r.0.nextId == t.nextId && |r.0.rows| == |t.rows|
    ensures s.id > 0 ==> forall i :: 0 <= i < |t.rows| ==>
              r.0.rows[i] == if t.rows[i].id == s.id then Updated(t.rows[i], s) else t.rows[i]
  {
    if s.id <= 0 then
      (Table(t.rows + [Secret(t.nextId, s.name, s.slug, s.secret, s.createdBy, None)], t.nextId + 1), t.nextId)
    else
      (t.(rows := seq(|t.rows|, i requires 0 <= i < |t.rows| =>
                        if t.rows[i].id == s.id then Updated(t.rows[i], s) else t.rows[i])), s.id)
  }

  /** The rows without those carrying the id, in order. */
  function Without(rows: seq<Secret>, id: int): (r: seq<Secret>)
    ensures forall x :: x in r <==> x in rows && x.id != id
    ensures |r| <= |rows|
  {
    if |rows| == 0 then []
    else
      var rest := Without(rows[1..], id);
      assert forall x :: x in rows <==> x == rows[0] || x in rows[1..];
      if rows[0].id == id then rest else [rows[0]] + rest
  }

  /** `Delete`: removes the row with the secret's id. */
  function Delete(t: Table, id: int): Table {
    t.(rows := Without(t.rows, id))
  }

  // ---------------------------------------------------------------------------
  // Controllers

  /** `secretFormData` without the layout: what the form shows and its four error slots. */
  datatype FormData = FormData(
    secret: int, name: string, slug: string,
    nameError: string, slugError: string, bodyError: string, otherError: string)

  /** What a controller did: its answer, the table after it, and the audit records it wrote. */
  datatype Change = Change(reply: Reply<FormData>, table: Table, audit: seq<AuditLog.Record>)

  function Form(status: int, t: Table, data: FormData): Change {
    Change(Page(status, "secrets/form", data), t, [])
  }

  function Failure(status: int, t: Table, message: string): Change {
    Change(ErrorPage(status, message), t, [])
  }

  /** The encryption of a form body, which Go passes to `Encrypt` as its UTF-8 bytes. */
  function EncryptBody(seal: Sealing, body: string): Result<Bytes> {
    Encrypt(seal.p, seal.password, Utf8Encode(body), seal.saltRead, seal.now, seal.tailRead)
  }

  /**
   * `secretsCreateAction`: name, slug and body are trimmed; the name must be
   * non-empty, the slug valid and unused, the body non-empty, and the body
   * must encrypt. Then the secret is inserted and the creation audited.
   */
  function Create(t: Table, req: Request, userId: int, seal: Sealing): (c: Change)
    ensures c.reply.Page? || c.reply.Redirected?
    ensures c.reply.Page? ==> c.table == t && c.audit == []
    ensures c.reply.Redirected? ==> c.reply == Redirected(302, "/secrets") && |c.audit| == 1
  {
    var name := TrimSpace(FormValue(req, "name"));
    var slug := TrimSpace(FormValue(req, "slug"));
    var body := TrimSpace(FormValue(req, "body"));
    var data := FormData(0, name, slug, "", "", "", "");
    if |name| == 0 then Form(400, t, data.(nameError := "The name cannot be empty."))
    else match ValidateSafeString(slug, "slug")
      case Err(e) => Form(400, t, data.(slugError := e))
      case Ok(validated) =>
        if FindSecretBySlug(t, validated, false).Some? then
          Form(400, t, data.(slugError := "This slug is already in use."))
        else if |body| == 0 then Form(400, t, data.(bodyError := "The body cannot be empty."))
        else match EncryptBody(seal, body)
          case Err(e) => Form(500, t, data.(otherError := "Could not encrypt secret: " + e))
          case Ok(encrypted) =>
            var (t', id) := Save(t, Secret(-1, name, validated, Some(encrypted), userId, None));
            Change(Redirected(302, "/secrets"), t', [AuditLog.LogSecretCreated(req, id, userId)])
  }

  /** `secretsEditAction`: the form filled from the stored secret. */
  function Edit(t: Table, idParam: string): (r: Reply<FormData>)
    ensures Atoi(idParam).Err? ==> r == ErrorPage(400, "Invalid ID given.")
    ensures Atoi(idParam).Ok? && FindSecret(t, Atoi(idParam).value, false).None? ==>
              r == ErrorPage(404, "Secret could not be found.")
    ensures r.Page? <==> Atoi(idParam).Ok? && FindSecret(t, Atoi(idParam).value, false).Some?
    ensures r.Page? ==>
              var s := FindSecret(t, Atoi(idParam).value, false).value;
              && r.status == 200 && r.template == "secrets/form"
              && r.data.secret == Atoi(idParam).value && r.data.name == s.name && r.data.slug == s.slug
              && r.data.nameError == r.data.slugError == r.data.bodyError == r.data.otherError == ""
  {
    match Atoi(idParam)
    case Err(_) => ErrorPage(400, "Invalid ID given.")
    case Ok(id) =>
      match FindSecret(t, id, false)
      case None => ErrorPage(404, "Secret could not be found.")
      case Some(s) => Page(200, "secrets/form", FormData(s.id, s.name, s.slug, "", "", "", ""))
  }

  /**
   * `secretsUpdateAction`: the secret must exist; then the creation rules,
   * except that the slug may be the secret's own and an empty body keeps the
   * stored ciphertext.
   */
  function Update(t: Table, idParam: string, req: Request, userId: int, seal: Sealing): (c: Change)
    ensures !c.reply.Redirected? ==> c.table == t && c.audit == []
    ensures c.reply.Redirected? ==> c.reply == Redirected(302, "/secrets") && |c.audit| == 1
    ensures Atoi(idParam).Err? ==> c.reply == ErrorPage(400, "Invalid ID given.")
    ensures Atoi(idParam).Ok? && FindSecret(t, Atoi(idParam).value, false).None? ==>
              c.reply == ErrorPage(404, "Secret could not be found.")
    ensures Atoi(idParam).Ok? && FindSecret(t, Atoi(idParam).value, false).Some? ==>
              var id := Atoi(idParam).value;
              var name := TrimSpace(FormValue(req, "name"));
              var body := TrimSpace(FormValue(req, "body"));
              var v := ValidateSafeString(TrimSpace(FormValue(req, "slug")), "slug");
              var holder := if v.Ok? then FindSecretBySlug(t, v.value, false) else None;
              && (|name| == 0 ==> c.reply.Page? && c.reply.status == 400 && c.reply.data.nameError == "The name cannot be empty.")
              && (|name| > 0 && v.Err? ==> c.reply.Page? && c.reply.status == 400 && c.reply.data.slugError == v.error)
              && (|name| > 0 && v.Ok? && holder.Some? && holder.value.id != id ==>
                    c.reply.Page? && c.reply.status == 400 && c.reply.data.slugError == "This slug is already in use.")
              && (|name| > 0 && v.Ok? && (holder.None? || holder.value.id == id) && |body| > 0 && EncryptBody(seal, body).Err? ==>
                    c.reply.Page? && c.reply.status == 500
                    && c.reply.data.otherError == "Could not encrypt secret: " + EncryptBody(seal, body).error)
              && (c.reply.Redirected? <==>
                    |name| > 0 && v.Ok? && (holder.None? || holder.value.id == id) && (|body| == 0 || EncryptBody(seal, body).Ok?))
  {
    match Atoi(idParam)
    case Err(_) => Failure(400, t, "Invalid ID given.")
    case Ok(id) =>
      match FindSecret(t, id, false)
      case None => Failure(404, t, "Secret could not be found.")
      case Some(secret) =>
        var name := TrimSpace(FormValue(req, "name"));
        var slug := TrimSpace(FormValue(req, "slug"));
        var body := TrimSpace(FormValue(req, "body"));
        var data := FormData(secret.id, name, slug, "", "", "", "");
        if |name| == 0 then Form(400, t, data.(nameError := "The name cannot be empty."))
        else match ValidateSafeString(slug, "slug")
          case Err(e) => Form(400, t, data.(slugError := e))
          case Ok(validated) =>
            var holder := FindSecretBySlug(t, validated, false);
            if holder.Some? && holder.value.id != secret.id then
              Form(400, t, data.(slugError := "This slug is already in use."))
            else
              var changed := secret.(name := name, slug := validated, updatedBy := Some(userId));
              var sealed := if |body| > 0 then EncryptBody(seal, body) else Ok([]);
              match sealed
              case Err(e) => Form(500, t, data.(otherError := "Could not encrypt secret: " + e))
              case Ok(encrypted) =>
                var changed' := if |body| > 0 then changed.(secret := Some(encrypted)) else changed;
                var (t', _) := Save(t, changed');
                Change(Redirected(302, "/secrets"), t', [AuditLog.LogSecretUpdated(req, secret.id, userId)])
  }

  /** `secretsDeleteAction`: the secret must exist; it is removed and the removal audited. */
  function Remove(t: Table, idParam: string, req: Request, userId: int): (c: Change)
    ensures c.reply.Redirected? <==> Atoi(idParam).Ok? && FindSecret(t, Atoi(idParam).value, false).Some?
    ensures c.reply.Redirected? ==> c.table == Delete(t, Atoi(idParam).value)
                                    && c.audit == [AuditLog.LogSecretDeleted(req, Atoi(idParam).value, userId)]
    ensures !c.reply.Redirected? ==> c.table == t && c.audit == []
  {
    match Atoi(idParam)
    case Err(_) => Failure(400, t, "Invalid ID given.")
    case Ok(id) =>
      match FindSecret(t, id, false)
      case None => Failure(404, t, "Secret could not be found.")
      case Some(secret) =>
        Change(Redirected(302, "/secrets"), Delete(t, secret.id), [AuditLog.LogSecretDeleted(req, secret.id, userId)])
  }

  // ---------------------------------------------------------------------------
  // Properties

  /** An inserted secret gets the next id, keeps the table valid, and is found under that id. */
  lemma InsertThenFind(t: Table, s: Secret)
    requires Valid(t) && t.nextId > 0 && s.id <= 0
    ensures var (t', id) := Save(t, s);
            && Valid(t') && id == t.nextId
            && FindSecret(t', id, true) == Some(Secret(id, s.name, s.slug, s.secret, s.createdBy, None))
  {
    var (t', id) := Save(t, s);
    assert t'.rows[|t.rows|].id == id;
    assert forall i :: 0 <= i < |t.rows| ==> t'.rows[i] == t.rows[i];
  }

  /**
   * Updating a stored secret keeps the table valid; the row now has the new
   * name, slug and updater, and its ciphertext changes only when one is given.
   */
  lemma UpdateThenFind(t: Table, s: Secret)
    requires Valid(t) && s.id > 0 && FindSecret(t, s.id, true).Some?
    ensures var (t', id) := Save(t, s);
            var before := FindSecret(t, id, true).value;
            && Valid(t') && id == s.id
            && FindSecret(t', id, true) == Some(Updated(before, s))
  {
    var (t', id) := Save(t, s);
    var i :| 0 <= i < |t.rows| && t.rows[i].id == s.id;
    assert t'.rows[i] == Updated(t.rows[i], s);
    UpdateKeepsIds(t, s);
    FindsTheRow(t, i);
    FindsTheRow(t', i);
  }

  /** An update rewrites rows in place and keeps every id, so the table stays valid. */
  lemma UpdateKeepsIds(t: Table, s: Secret)
    requires Valid(t) && s.id > 0
    ensures forall j :: 0 <= j < |t.rows| ==> Save(t, s).0.rows[j].id == t.rows[j].id
    ensures Valid(Save(t, s).0)
  {
    var t' := Save(t, s).0;
    assert forall j :: 0 <= j < |t.rows| ==> t'.rows[j].id == t.rows[j].id;
  }

  /** Ids are unique in a valid table, so looking up a row's id finds that row. */
  lemma FindsTheRow(t: Table, i: int)
    requires Valid(t) && 0 <= i < |t.rows|
    ensures FindSecret(t, t.rows[i].id, true) == Some(t.rows[i])
  {
    var r := FindSecret(t, t.rows[i].id, true);
    var k :| 0 <= k < |t.rows| && t.rows[k].id == t.rows[i].id && r.value == Loaded(t.rows[k], true);
  }

  /** After `Delete` no row carries the id, and every other row is still there. */
  lemma DeleteRemovesOnlyThat(t: Table, id: int)
    ensures FindSecret(Delete(t, id), id, true).None?
    ensures forall x :: x in t.rows && x.id != id ==> x in Delete(t, id).rows
  {
  }

  /**
   * The creation ladder: the first failing rule, in the order name, slug,
   * slug in use, body, encryption, decides the answer, and nothing is stored.
   */
  lemma CreateRejects(t: Table, req: Request, userId: int, seal: Sealing)
    ensures var name := TrimSpace(FormValue(req, "name"));
            var slug := TrimSpace(FormValue(req, "slug"));
            var body := TrimSpace(FormValue(req, "body"));
            var v := ValidateSafeString(slug, "slug");
            var c := Create(t, req, userId, seal);
            && (|name| == 0 ==> c.reply.Page? && c.reply.status == 400 && c.reply.data.nameError == "The name cannot be empty.")
            && (|name| > 0 && v.Err? ==> c.reply.Page? && c.reply.status == 400 && c.reply.data.slugError == v.error)
            && (|name| > 0 && v.Ok? && FindSecretBySlug(t, v.value, false).Some? ==>
                  c.reply.Page? && c.reply.status == 400 && c.reply.data.slugError == "This slug is already in use.")
            && (|name| > 0 && v.Ok? && FindSecretBySlug(t, v.value, false).None? && |body| == 0 ==>
                  c.reply.Page? && c.reply.status == 400 && c.reply.data.bodyError == "The body cannot be empty.")
            && (|name| > 0 && v.Ok? && FindSecretBySlug(t, v.value, false).None? && |body| > 0 && EncryptBody(seal, body).Err? ==>
                  c.reply.Page? && c.reply.status == 500
                  && c.reply.data.otherError == "Could not encrypt secret: " + EncryptBody(seal, body).error)
  {
  }

  /** The slug as typed and its validated form find the same secret. */
  lemma SlugLookupIsCaseBlind(t: Table, slug: string, loadSecret: bool)
    requires ValidateSafeString(slug, "slug").Ok?
    ensures FindSecretBySlug(t, ValidateSafeString(slug, "slug").value, loadSecret) == FindSecretBySlug(t, slug, loadSecret)
  {
    ValidateSafeStringIdempotent(slug, "slug", "slug");
    ToLowerOfSafe(ValidateSafeString(slug, "slug").value);
  }

  /** A secret is created exactly when every rule of the ladder passes. */
  lemma CreateSucceedsIff(t: Table, req: Request, userId: int, seal: Sealing)
    ensures var name := TrimSpace(FormValue(req, "name"));
            var slug := TrimSpace(FormValue(req, "slug"));
            var body := TrimSpace(FormValue(req, "body"));
            Create(t, req, userId, seal).reply.Redirected? <==>
              |name| > 0 && ValidateSafeString(slug, "slug").Ok? && FindSecretBySlug(t, slug, false).None?
              && |body| > 0 && EncryptBody(seal, body).Ok?
  {
    var slug := TrimSpace(FormValue(req, "slug"));
    if ValidateSafeString(slug, "slug").Ok? {
      SlugLookupIsCaseBlind(t, slug, false);
    }
  }

  /** A successful creation appends one row: the next id, the validated slug, the encrypted body. */
  lemma CreateAppends(t: Table, req: Request, userId: int, seal: Sealing)
    requires Create(t, req, userId, seal).reply.Redirected?
    ensures var name := TrimSpace(FormValue(req, "name"));
            var slug := TrimSpace(FormValue(req, "slug"));
            var body := TrimSpace(FormValue(req, "body"));
            var c := Create(t, req, userId, seal);
            && EncryptBody(seal, body).Ok?
            && c.table == Table(t.rows + [Secret(t.nextId, name, ToLower(slug), Some(EncryptBody(seal, body).value), userId, None)], t.nextId + 1)
            && c.audit == [AuditLog.LogSecretCreated(req, t.nextId, userId)]
  {
    var name := TrimSpace(FormValue(req, "name"));
    var slug := TrimSpace(FormValue(req, "slug"));
    var body := TrimSpace(FormValue(req, "body"));
    var validated := ValidateSafeString(slug, "slug");
    assert |name| > 0 && validated.Ok? && EncryptBody(seal, body).Ok?;
    var row := Secret(-1, name, validated.value, Some(EncryptBody(seal, body).value), userId, None);
    assert Create(t, req, userId, seal).table == Save(t, row).0;
  }

  /** In a valid table without the slug, a row appended under the next id is the one its slug finds. */
  lemma AppendedFoundBySlug(t: Table, row: Secret, slug: string)
    requires Valid(t) && t.nextId > 0
    requires row.id == t.nextId && row.slug == ToLower(slug) && ValidateSafeString(slug, "slug").Ok?
    requires FindSecretBySlug(t, slug, false).None?
    ensures Valid(Table(t.rows + [row], t.nextId + 1))
    ensures FindSecretBySlug(Table(t.rows + [row], t.nextId + 1), slug, true) == Some(row)
  {
    var t' := Table(t.rows + [row], t.nextId + 1);
    assert forall i :: 0 <= i < |t.rows| ==> t'.rows[i] == t.rows[i];
    assert t'.rows[|t.rows|] == row;
    var found := FindSecretBySlug(t', slug, true);
    var i :| 0 <= i < |t'.rows| && t'.rows[i].slug == ToLower(slug) && found.value == Loaded(t'.rows[i], true);
    assert i == |t.rows|;
  }

  /**
   * After a successful creation the secret is found by the slug as typed,
   * and its ciphertext decrypts to the trimmed body.
   */
  lemma CreateStores(t: Table, req: Request, userId: int, seal: Sealing)
    requires Valid(t) && t.nextId > 0
    requires Lawful(seal.p)
    requires Create(t, req, userId, seal).reply.Redirected?
    ensures var slug := TrimSpace(FormValue(req, "slug"));
            var body := TrimSpace(FormValue(req, "body"));
            var c := Create(t, req, userId, seal);
            var found := FindSecretBySlug(c.table, slug, true);
            && Valid(c.table)
            && found.Some? && found.value.id == t.nextId && found.value.slug == ToLower(slug)
            && found.value.createdBy == userId && found.value.secret.Some?
            && Decrypt(seal.p, seal.password, found.value.secret.value) == Ok(Utf8Encode(body))
  {
    var name := TrimSpace(FormValue(req, "name"));
    var slug := TrimSpace(FormValue(req, "slug"));
    var body := TrimSpace(FormValue(req, "body"));
    CreateSucceedsIff(t, req, userId, seal);
    CreateAppends(t, req, userId, seal);
    var encrypted := EncryptBody(seal, body).value;
    var row := Secret(t.nextId, name, ToLower(slug), Some(encrypted), userId, None);
    AppendedFoundBySlug(t, row, slug);
    assert |Utf8Encode(body)| > 0;
    DecryptEncrypt(seal.p, seal.password, Utf8Encode(body), seal.saltRead.value, seal.now, seal.tailRead.value);
  }

  /**
   * An update that succeeds with a non-empty body stores the body's new
   * encryption, which decrypts back to the body, under the secret's own id.
   */
  lemma UpdateStoresBody(t: Table, idParam: string, req: Request, userId: int, seal: Sealing)
    requires Valid(t) && Lawful(seal.p)
    requires Update(t, idParam, req, userId, seal).reply.Redirected?
    requires |TrimSpace(FormValue(req, "body"))| > 0
    ensures var id := Atoi(idParam).value;
            var body := TrimSpace(FormValue(req, "body"));
            var c := Update(t, idParam, req, userId, seal);
            var found := FindSecret(c.table, id, true);
            && Valid(c.table)
            && found.Some? && found.value.secret == Some(EncryptBody(seal, body).value)
            && found.value.name == TrimSpace(FormValue(req, "name"))
            && found.value.slug == ToLower(TrimSpace(FormValue(req, "slug")))
            && found.value.updatedBy == Some(userId)
            && Decrypt(seal.p, seal.password, found.value.secret.value) == Ok(Utf8Encode(body))
  {
    var id := Atoi(idParam).value;
    var body := TrimSpace(FormValue(req, "body"));
    var slug := TrimSpace(FormValue(req, "slug"));
    var v := ValidateSafeString(slug, "slug");
    var secret := FindSecret(t, id, false).value;
    var encrypted := EncryptBody(seal, body).value;
    var changed := secret.(name := TrimSpace(FormValue(req, "name")), slug := v.value, updatedBy := Some(userId),
                           secret := Some(encrypted));
    UpdateThenFind(t, changed);
    assert Update(t, idParam, req, userId, seal).table == Save(t, changed).0;
    assert |Utf8Encode(body)| > 0;
    DecryptEncrypt(seal.p, seal.password, Utf8Encode(body), seal.saltRead.value, seal.now, seal.tailRead.value);
  }

  /**
   * An update may keep the secret's own slug, and one with an empty body
   * leaves the stored ciphertext as it was while name, slug and updater change.
   */
  lemma UpdateKeepsCiphertext(t: Table, idParam: string, req: Request, userId: int, seal: Sealing)
    requires Valid(t)
    requires Atoi(idParam).Ok? && FindSecret(t, Atoi(idParam).value, false).Some?
    requires |TrimSpace(FormValue(req, "name"))| > 0
    requires ValidateSafeString(TrimSpace(FormValue(req, "slug")), "slug").Ok?
    requires FindSecretBySlug(t, TrimSpace(FormValue(req, "slug")), false) == FindSecret(t, Atoi(idParam).value, false)
    requires |TrimSpace(FormValue(req, "body"))| == 0
    ensures var id := Atoi(idParam).value;
            var c := Update(t, idParam, req, userId, seal);
            && c.reply == Redirected(302, "/secrets")
            && Valid(c.table)
            && FindSecret(c.table, id, true).Some?
            && FindSecret(c.table, id, true).value.secret == FindSecret(t, id, true).value.secret
            && FindSecret(c.table, id, true).value.name == TrimSpace(FormValue(req, "name"))
            && FindSecret(c.table, id, true).value.slug == ToLower(TrimSpace(FormValue(req, "slug")))
            && FindSecret(c.table, id, true).value.updatedBy == Some(userId)
  {
    var id := Atoi(idParam).value;
    var slug := TrimSpace(FormValue(req, "slug"));
    var v := ValidateSafeString(slug, "slug");
    SlugLookupIsCaseBlind(t, slug, false);
    var secret := FindSecret(t, id, false).value;
    var changed := secret.(name := TrimSpace(FormValue(req, "name")), slug := v.value, updatedBy := Some(userId));
    assert changed.secret.None?;
    UpdateThenFind(t, changed);
    assert Update(t, idParam, req, userId, seal).table == Save(t, changed).0;
  }
}
