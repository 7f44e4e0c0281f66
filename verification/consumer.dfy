/**
 * Consumers: the parties that fetch secrets. The row itself, its links to
 * secrets, and the admin form that carries its authentication and its
 * restrictions between the database and the browser.
 */
module Consumers {
  import opened Base
  import opened Strings
  import opened Http
  import opened Crypto
  import opened Contexts
  import opened Handlers
  import opened Registry
  import Restrictions
  import Authentications
  import Secrets

  /** A `consumer` row; the timestamps are left out. */
  datatype Consumer = Consumer(
    id: int,
    name: string,
    createdBy: int,
    updatedBy: Option<int>,
    enabled: bool,
    deleted: bool,
    infoToken: Option<string>)

  /** The `consumer` table: rows in insertion order and the next auto-increment id. */
  datatype Table = Table(rows: seq<Consumer>, nextId: int)

  /** Ids are positive, distinct and below the next one. */
  predicate Valid(t: Table) {
    && (forall i :: 0 <= i < |t.rows| ==> 0 < t.rows[i].id < t.nextId)
    && (forall i, j :: 0 <= i < j < |t.rows| ==> t.rows[i].id != t.rows[j].id)
  }

  /** The first row with the id. */
  function RowWithId(rows: seq<Consumer>, id: int): (r: Option<Consumer>)
    ensures r.Some? ==> r.value in rows && r.value.id == id
    ensures r.None? <==> forall i :: 0 <= i < |rows| ==> rows[i].id != id
  {
    if |rows| == 0 then None
    else if rows[0].id == id then Some(rows[0])
    else RowWithId(rows[1..], id)
  }

  /**
   * `findConsumer`: the row with the id, deleted or not; a row that reads
   * as id 0 is "not found".
   */
  function FindConsumer(t: Table, id: int): (r: Option<Consumer>)
    ensures r.None? <==> id == 0 || forall i :: 0 <= i < |t.rows| ==> t.rows[i].id != id
    ensures r.Some? ==> r.value in t.rows && r.value.id == id
  {
    match RowWithId(t.rows, id)
    case None => None
    case Some(c) => if c.id == 0 then None else Some(c)
  }

  /** The UPDATE of `Save`: the columns it writes back. */
  function Updated(row: Consumer, c: Consumer): Consumer {
    row.(name := c.name, updatedBy := c.updatedBy, enabled := c.enabled, deleted := c.deleted, infoToken := c.infoToken)
  }

  /**
   * `Save`: a consumer with a non-positive id is inserted under the next id,
   * with no updater; any other updates its row, and only while that row is
   * not deleted. The new table and the consumer's id are returned.
   */
  function Save(t: Table, c: Consumer): (r: (Table, int))
    ensures c.id <= 0 ==> r.0.rows == t.rows + [Consumer(t.nextId, c.name, c.createdBy, None, c.enabled, c.deleted, c.infoToken)]
                          && r.0.nextId == t.nextId + 1 && r.1 == t.nextId
    ensures c.id > 0 ==> r.1 == c.id && r.0.nextId == t.nextId && |r.0.rows| == |t.rows|
    ensures c.id > 0 ==> forall i :: 0 <= i < |t.rows| ==>
              r.0.rows[i] == if t.rows[i].id == c.id && !t.rows[i].deleted then Updated(t.rows[i], c) else t.rows[i]
  {
    if c.id <= 0 then
      (Table(t.rows + [Consumer(t.nextId, c.name, c.createdBy, None, c.enabled, c.deleted, c.infoToken)], t.nextId + 1), t.nextId)
    else
      (t.(rows := seq(|t.rows|, i requires 0 <= i < |t.rows| =>
                        if t.rows[i].id == c.id && !t.rows[i].deleted then Updated(t.rows[i], c) else t.rows[i])), c.id)
  }

  /** `Delete`: a soft delete of every row with the id, already deleted or not. */
  function Delete(t: Table, id: int): (r: Table)
    ensures r.nextId == t.nextId && |r.rows| == |t.rows|
    ensures forall i :: 0 <= i < |t.rows| ==>
              r.rows[i] == if t.rows[i].id == id then t.rows[i].(deleted := true) else t.rows[i]
  {
    t.(rows := seq(|t.rows|, i requires 0 <= i < |t.rows| =>
                     if t.rows[i].id == id then t.rows[i].(deleted := true) else t.rows[i]))
  }

  /**
   * `GetRequirements`, which the delivery controller calls under the name
   * `GetRestrictions`: the consumer's restriction rows.
   */
  function GetRequirements(t: Restrictions.Table, c: Consumer, loadContext: bool): seq<Restrictions.Restriction> {
    Restrictions.FindRestrictionsByConsumer(t, c.id, loadContext)
  }

  // ---------------------------------------------------------------------------
  // Links to secrets

  /** A `consumer_secret` row: the consumer may fetch the secret. */
  datatype Link = Link(consumerId: int, secretId: int)

  /** `consumerSecret`: one secret as the form lists it, with its checkbox. */
  datatype ConsumerSecret = ConsumerSecret(id: int, name: string, slug: string, checked: bool)

  /** The links of every other consumer. */
  function Unlinked(links: seq<Link>, consumerId: int): (r: seq<Link>)
    ensures forall l :: l in r <==> l in links && l.consumerId != consumerId
  {
    if |links| == 0 then []
    else
      var rest := Unlinked(links[1..], consumerId);
      assert forall l :: l in links <==> l == links[0] || l in links[1..];
      if links[0].consumerId == consumerId then rest else [links[0]] + rest
  }

  /** One link per checked secret, in list order. */
  function CheckedLinks(consumerId: int, secrets: seq<ConsumerSecret>): (r: seq<Link>)
    ensures forall l :: l in r <==> l.consumerId == consumerId &&
                                     exists i :: 0 <= i < |secrets| && secrets[i].checked && secrets[i].id == l.secretId
  {
    if |secrets| == 0 then []
    else
      var rest := CheckedLinks(consumerId, secrets[1..]);
      assert forall i :: 1 <= i < |secrets| ==> secrets[i] == secrets[1..][i - 1];
      assert forall i :: 0 <= i < |secrets[1..]| ==> secrets[1..][i] == secrets[i + 1];
      if secrets[0].checked then [Link(consumerId, secrets[0].id)] + rest else rest
  }

  /**
   * `WriteSecrets`: the consumer's links are replaced by exactly one link
   * per checked secret; the links of other consumers stay.
   */
  function WriteSecrets(links: seq<Link>, consumerId: int, secrets: seq<ConsumerSecret>): (r: seq<Link>)
    ensures forall l :: l in r <==>
              || (l in links && l.consumerId != consumerId)
              || (l.consumerId == consumerId &&
                  exists i :: 0 <= i < |secrets| && secrets[i].checked && secrets[i].id == l.secretId)
  {
    Unlinked(links, consumerId) + CheckedLinks(consumerId, secrets)
  }

  /** One secret as the form lists it, checked when the consumer is linked to it. */
  function Mark(s: Secrets.Secret, links: seq<Link>, consumerId: int): (r: ConsumerSecret)
    ensures r.id == s.id && r.name == s.name && r.slug == s.slug
    ensures r.checked <==> Link(consumerId, s.id) in links
  {
    ConsumerSecret(s.id, s.name, s.slug, Link(consumerId, s.id) in links)
  }

  /** `ORDER BY s.name`: each listed name sorts no later than the next one. */
  predicate ByName(s: seq<ConsumerSecret>) {
    forall i :: 0 < i < |s| ==> LexLe(s[i - 1].name, s[i].name)
  }

  /** A list in name order has every earlier name no later than every later one. */
  lemma {:induction false} ByNameSorted(s: seq<ConsumerSecret>)
    requires ByName(s)
    ensures forall i, j :: 0 <= i < j < |s| ==> LexLe(s[i].name, s[j].name)
  {
    forall i, j | 0 <= i < j < |s| ensures LexLe(s[i].name, s[j].name) {
      ByNameUpTo(s, i, j);
    }
  }

  lemma {:induction false} ByNameUpTo(s: seq<ConsumerSecret>, i: nat, j: nat)
    requires ByName(s) && i < j < |s|
    ensures LexLe(s[i].name, s[j].name)
    decreases j - i
  {
    if i + 1 < j {
      ByNameUpTo(s, i, j - 1);
      LexLeTransitive(s[i].name, s[j - 1].name, s[j].name);
    }
  }

  /** Places `x` before the first entry it does not sort after, so equal names keep their order. */
  function InsertByName(x: ConsumerSecret, s: seq<ConsumerSecret>): (r: seq<ConsumerSecret>)
    requires ByName(s)
    ensures ByName(r) && multiset(r) == multiset(s) + multiset{x}
    ensures |r| == |s| + 1 && (r[0] == x || (|s| > 0 && r[0] == s[0]))
  {
    if |s| == 0 then [x]
    else if LexLe(x.name, s[0].name) then [x] + s
    else
      LexLeTotal(x.name, s[0].name);
      assert s == [s[0]] + s[1..];
      var rest := InsertByName(x, s[1..]);
      [s[0]] + rest
  }

  /** A stable insertion sort by name. */
  function SortByName(s: seq<ConsumerSecret>): (r: seq<ConsumerSecret>)
    ensures ByName(r) && multiset(r) == multiset(s) && |r| == |s|
  {
    if |s| == 0 then []
    else
      assert s == [s[0]] + s[1..];
      InsertByName(s[0], SortByName(s[1..]))
  }

  /** Every secret of the table, marked, in table order. */
  function Marked(rows: seq<Secrets.Secret>, links: seq<Link>, consumerId: int): (r: seq<ConsumerSecret>)
    ensures |r| == |rows| && forall i :: 0 <= i < |rows| ==> r[i] == Mark(rows[i], links, consumerId)
  {
    seq(|rows|, i requires 0 <= i < |rows| => Mark(rows[i], links, consumerId))
  }

  lemma MarkedMembers(rows: seq<Secrets.Secret>, links: seq<Link>, consumerId: int)
    ensures forall c :: c in Marked(rows, links, consumerId) <==> exists s :: s in rows && c == Mark(s, links, consumerId)
  {
    var m := Marked(rows, links, consumerId);
    forall s | s in rows ensures Mark(s, links, consumerId) in m {
      var i :| 0 <= i < |rows| && rows[i] == s;
      assert m[i] == Mark(s, links, consumerId);
    }
  }

  /** Lists with the same multiset hold the same entries. */
  lemma SameMembers(a: seq<ConsumerSecret>, b: seq<ConsumerSecret>)
    requires multiset(a) == multiset(b)
    ensures forall c :: c in a <==> c in b
  {
    forall c ensures c in a <==> c in b {
      assert c in a <==> c in multiset(a);
      assert c in b <==> c in multiset(b);
    }
  }

  /**
   * The form's secret list (consumer.go:291): every secret once, checked
   * exactly when the consumer is linked to it, in name order.
   */
  function Listing(secrets: Secrets.Table, links: seq<Link>, consumerId: int): (r: seq<ConsumerSecret>)
    ensures |r| == |secrets.rows|
    ensures ByName(r)
    ensures multiset(r) == multiset(Marked(secrets.rows, links, consumerId))
    ensures forall c :: c in r <==> exists s :: s in secrets.rows && c == Mark(s, links, consumerId)
  {
    var m := Marked(secrets.rows, links, consumerId);
    var r := SortByName(m);
    SameMembers(r, m);
    MarkedMembers(secrets.rows, links, consumerId);
    r
  }

  // ---------------------------------------------------------------------------
  // Restrictions as the form holds them

  /** `consumerRestriction`: a restriction of the form, with the error its handler reported. */
  datatype ConsumerRestriction = ConsumerRestriction(rtype: string, context: Context, enabled: bool, error: string)

  /** `consumerRestriction.IsNullContext`: false for an unregistered type. */
  predicate IsNullContext(reg: RestrictionRegistry, cr: ConsumerRestriction)
    ensures cr.rtype !in reg ==> !IsNullContext(reg, cr)
  {
    cr.rtype in reg && RestrictionIsNullContext(reg[cr.rtype], cr.context)
  }

  /** `primeRestrictions`: one disabled entry per registered type, holding the type's null context. */
  function PrimeRestrictions(reg: RestrictionRegistry): (r: map<string, ConsumerRestriction>)
    ensures r.Keys == reg.Keys
    ensures forall k :: k in r ==> r[k] == ConsumerRestriction(k, RestrictionNullContext(reg[k]), false, "")
  {
    map k | k in reg :: ConsumerRestriction(k, RestrictionNullContext(reg[k]), false, "")
  }

  /** The row `WriteRestrictions` saves for one entry of the form. */
  function Row(consumerId: int, rtype: string, cr: ConsumerRestriction): Restrictions.Restriction {
    Restrictions.Restriction(consumerId, rtype, Some(cr.context), cr.enabled)
  }

  /** What finding a saved row yields: nothing when it was empty (and so deleted), else the row. */
  function Expected(reg: RestrictionRegistry, r: Restrictions.Restriction): Option<Restrictions.Restriction>
    requires Restrictions.IsEmpty(reg, r).Done?
  {
    if Restrictions.IsEmpty(reg, r).value then None else Some(r)
  }

  /**
   * What the loop of `WriteRestrictions` keeps: the table `r` holds every
   * entry not left in `todo` as it was saved, and every other key as in `t`.
   */
  ghost predicate Written(reg: RestrictionRegistry, t: Restrictions.Table, consumerId: int,
                    restrictions: map<string, ConsumerRestriction>, todo: set<string>, r: Restrictions.Table)
  {
    && Restrictions.UniqueKeys(r)
    && (forall k :: k in restrictions && k !in todo ==>
          && Restrictions.IsEmpty(reg, Row(consumerId, k, restrictions[k])).Done?
          && Restrictions.FindRestriction(r, consumerId, k, true) == Expected(reg, Row(consumerId, k, restrictions[k])))
    && (forall cid, ty :: cid != consumerId || ty !in restrictions || ty in todo ==>
          Restrictions.Lookup(r, cid, ty) == Restrictions.Lookup(t, cid, ty))
  }

  /** Saving one more entry keeps `Written` with that key taken off the to-do set. */
  lemma WriteStep(reg: RestrictionRegistry, t: Restrictions.Table, consumerId: int,
                  restrictions: map<string, ConsumerRestriction>, todo: set<string>, r: Restrictions.Table, k: string)
    requires consumerId != 0 && k in todo && k in restrictions
    requires Written(reg, t, consumerId, restrictions, todo, r)
    requires Restrictions.Save(reg, r, Row(consumerId, k, restrictions[k])).Done?
    ensures Written(reg, t, consumerId, restrictions, todo - {k},
                    Restrictions.Save(reg, r, Row(consumerId, k, restrictions[k])).value)
  {
    var row := Row(consumerId, k, restrictions[k]);
    var r' := Restrictions.Save(reg, r, row).value;
    forall cid, ty ensures (cid, ty) != (consumerId, k) ==> Restrictions.Lookup(r', cid, ty) == Restrictions.Lookup(r, cid, ty) {
      Restrictions.SaveThenFind(reg, r, row, cid, ty);
    }
    Restrictions.SaveThenFind(reg, r, row, consumerId, k);
  }

  /**
   * `WriteRestrictions`: every entry of the form is saved under its key, in
   * the map's unspecified order; the first save that panics aborts the rest.
   */
  method WriteRestrictions(reg: RestrictionRegistry, t: Restrictions.Table, consumerId: int,
                           restrictions: map<string, ConsumerRestriction>) returns (o: Outcome<Restrictions.Table>)
    requires Restrictions.UniqueKeys(t) && consumerId != 0
    ensures o.Panicked? <==> exists k :: k in restrictions && Restrictions.IsEmpty(reg, Row(consumerId, k, restrictions[k])).Panicked?
    ensures o.Done? ==> Restrictions.UniqueKeys(o.value)
    ensures o.Done? ==> forall k :: k in restrictions ==>
              Restrictions.FindRestriction(o.value, consumerId, k, true) == Expected(reg, Row(consumerId, k, restrictions[k]))
    ensures o.Done? ==> forall cid, ty :: cid != consumerId || ty !in restrictions ==>
              Restrictions.Lookup(o.value, cid, ty) == Restrictions.Lookup(t, cid, ty)
  {
    var r := t;
    var todo := restrictions.Keys;
    while todo != {}
      invariant todo <= restrictions.Keys
      invariant Written(reg, t, consumerId, restrictions, todo, r)
      decreases |todo|
    {
      var k :| k in todo;
      var row := Row(consumerId, k, restrictions[k]);
      match Restrictions.Save(reg, r, row)
      case Panicked(m) =>
        assert Restrictions.IsEmpty(reg, row).Panicked?;
        o := Panicked(m);
        return;
      case Done(r') =>
        WriteStep(reg, t, consumerId, restrictions, todo, r, k);
        r := r';
      todo := todo - {k};
    }
    o := Done(r);
  }

  // ---------------------------------------------------------------------------
  // The form

  /** `consumerFormData` without the layout. */
  datatype FormData = FormData(
    consumer: int,
    name: string,
    nameError: string,
    enabled: bool,
    infoToken: Option<string>,
    infoTokenError: string,
    otherError: string,
    secrets: seq<ConsumerSecret>,
    authType: string,
    authTypeError: string,
    authInfo: Option<Context>,
    authErrors: map<string, string>,
    restrictions: map<string, ConsumerRestriction>)

  /** `newConsumerFormData`: everything empty. */
  const NewFormData: FormData := FormData(0, "", "", false, None, "", "", [], "", "", None, map[], map[])

  /** Lays the consumer's stored restrictions over the form's entries, in storage order. */
  function Overlay(reg: RestrictionRegistry, d: FormData, rows: seq<Restrictions.Restriction>): (o: Outcome<FormData>)
    ensures o.Panicked? <==> exists i :: 0 <= i < |rows| && rows[i].rtype !in reg
    ensures o.Done? ==> o.value == d.(restrictions := o.value.restrictions)
    ensures o.Done? ==> forall k :: k in o.value.restrictions <==> k in d.restrictions || exists i :: 0 <= i < |rows| && rows[i].rtype == k
    ensures o.Done? ==> forall k :: k in d.restrictions && (forall i :: 0 <= i < |rows| ==> rows[i].rtype != k) ==>
              o.value.restrictions[k] == d.restrictions[k]
    decreases |rows|
  {
    if |rows| == 0 then Done(d)
    else
      match Restrictions.UnpackContext(reg, rows[0])
      case Panicked(m) => Panicked(m)
      case Done(ctx) =>
        var entry := ConsumerRestriction(rows[0].rtype, ctx, rows[0].enabled, "");
        var o := Overlay(reg, d.(restrictions := d.restrictions[rows[0].rtype := entry]), rows[1..]);
        assert forall i :: 1 <= i < |rows| ==> rows[i] == rows[1..][i - 1];
        assert forall i :: 0 <= i < |rows[1..]| ==> rows[1..][i] == rows[i + 1];
        o
  }

  /**
   * `fromConsumer`: the consumer's own fields, every secret with its
   * checkbox, the authentication with its unpacked context, and the stored
   * restrictions over the primed ones. An unknown authentication or
   * restriction type panics while unpacking.
   */
  function FromConsumer(regR: RestrictionRegistry, regA: AuthRegistry, data: FormData, c: Consumer,
                        auths: Authentications.Table, restrictions: Restrictions.Table,
                        secrets: Secrets.Table, links: seq<Link>): (o: Outcome<FormData>)
    ensures o.Done? ==> && o.value.consumer == c.id && o.value.name == c.name && o.value.enabled == c.enabled
                        && o.value.infoToken == c.infoToken && o.value.secrets == Listing(secrets, links, c.id)
  {
    var d := data.(consumer := c.id, name := c.name, enabled := c.enabled, infoToken := c.infoToken,
                   secrets := Listing(secrets, links, c.id), authType := "", authInfo := None);
    var rows := Restrictions.FindRestrictionsByConsumer(restrictions, c.id, true);
    match Authentications.FindAuthenticationByConsumer(auths, c.id, true)
    case None => Overlay(regR, d, rows)
    case Some(a) =>
      match Authentications.UnpackContext(regA, a)
      case Panicked(m) => Panicked(m)
      case Done(ctx) => Overlay(regR, d.(authType := a.atype, authInfo := Some(ctx)), rows)
  }

  /** The checkboxes: secret N is checked iff the field `secret_N` is "1". */
  function CheckSecrets(secrets: seq<ConsumerSecret>, req: Request): (r: seq<ConsumerSecret>)
    ensures |r| == |secrets|
    ensures forall i :: 0 <= i < |r| ==>
              r[i] == secrets[i].(checked := FormValue(req, "secret_" + Itoa(secrets[i].id)) == "1")
  {
    seq(|secrets|, i requires 0 <= i < |secrets| =>
      secrets[i].(checked := FormValue(req, "secret_" + Itoa(secrets[i].id)) == "1"))
  }


  /**
   * One pass of the restriction loop for a registered type: the enabled
   * flag comes from `restriction_<type>`; a handler error is recorded and the
   * context kept; otherwise the handler's context replaces it.
   */
  function SerializeRestriction(k: RestrictionKind, b: Bcrypt, req: Request, rtype: string,
                                cr: ConsumerRestriction): (r: (ConsumerRestriction, bool))
    ensures r.0.enabled == (FormValue(req, "restriction_" + rtype) == "1") && r.0.rtype == cr.rtype
    ensures var out := RestrictionSerializeForm(k, b, req, r.0.enabled, Some(cr.context));
            && (r.1 <==> out.Ok?)
            && (out.Err? ==> r.0.context == cr.context && r.0.error == out.error)
            && (out.Ok? ==> r.0.context == out.value && r.0.error == cr.error)
  {
    var enabled := FormValue(req, "restriction_" + rtype) == "1";
    match RestrictionSerializeForm(k, b, req, enabled, Some(cr.context))
    case Err(e) => (cr.(enabled := enabled, error := e), false)
    case Ok(ctx) => (cr.(enabled := enabled, context := ctx), true)
  }

  /** The restriction loop: entries of unregistered types are skipped and stay as they were. */
  function SerializeRestrictions(reg: RestrictionRegistry, b: Bcrypt, req: Request,
                                 rs: map<string, ConsumerRestriction>): (r: (map<string, ConsumerRestriction>, bool))
    ensures r.0.Keys == rs.Keys
    ensures forall k :: k in rs && k !in reg ==> r.0[k] == rs[k]
    ensures forall k :: k in rs && k in reg ==> r.0[k] == SerializeRestriction(reg[k], b, req, k, rs[k]).0
    ensures r.1 <==> forall k :: k in rs && k in reg ==> SerializeRestriction(reg[k], b, req, k, rs[k]).1
  {
    (map k | k in rs :: if k in reg then SerializeRestriction(reg[k], b, req, k, rs[k]).0 else rs[k],
     forall k | k in rs :: k in reg ==> SerializeRestriction(reg[k], b, req, k, rs[k]).1)
  }

  /**
   * The authentication part of `serializeForm` for a given old context: an
   * unknown type is an error; otherwise the handler's context, or on error
   * the type's null context with the error filed under the type.
   */
  function SerializeAuth(reg: AuthRegistry, b: Bcrypt, req: Request, d: FormData, oldCtx: Option<Context>)
    : (r: (FormData, bool))
    ensures r.0.restrictions == d.restrictions && r.0.nameError == d.nameError
    ensures var authType := FormValue(req, "authentication");
            && (authType !in reg ==> r == (d.(authTypeError := "Invalid authentication selected."), false))
            && (authType in reg ==>
                  var out := AuthSerializeForm(reg[authType], b, req, oldCtx);
                  && r.0.authType == authType
                  && (r.1 <==> out.Ok?)
                  && r.0.authInfo == Some(if out.Ok? then out.value else AuthNullContext(reg[authType]))
                  && r.0.authErrors == (if out.Ok? then d.authErrors else d.authErrors[authType := out.error])
                  && r.0 == d.(authType := r.0.authType, authInfo := r.0.authInfo, authErrors := r.0.authErrors))
  {
    var authType := FormValue(req, "authentication");
    if authType !in reg then (d.(authTypeError := "Invalid authentication selected."), false)
    else
      var k := reg[authType];
      match AuthSerializeForm(k, b, req, oldCtx)
      case Err(e) => (d.(authType := authType, authErrors := d.authErrors[authType := e], authInfo := Some(AuthNullContext(k))), false)
      case Ok(ctx) => (d.(authType := authType, authInfo := Some(ctx)), true)
  }

  /** The fields before authentication: enabled flag, name, info token and checkboxes. */
  function SerializeBasics(d: FormData, req: Request): (r: FormData)
    ensures r.restrictions == d.restrictions && r.authInfo == d.authInfo && r.authType == d.authType
    ensures var name := TrimSpace(FormValue(req, "name"));
            var token := FormValue(req, "info_token");
            && r.enabled == (FormValue(req, "enabled") == "1")
            && (|name| > 0 ==> r.name == name && r.nameError == d.nameError)
            && (|name| == 0 ==> r.name == d.name && r.nameError == "The name cannot be empty.")
            && r.infoToken == (if |token| > 0 then Some(token) else d.infoToken)
            && r.secrets == CheckSecrets(d.secrets, req)
            && r == d.(enabled := r.enabled, name := r.name, nameError := r.nameError, infoToken := r.infoToken, secrets := r.secrets)
  {
    var name := TrimSpace(FormValue(req, "name"));
    var token := FormValue(req, "info_token");
    var d := d.(enabled := FormValue(req, "enabled") == "1");
    var d := if |name| > 0 then d.(name := name) else d.(nameError := "The name cannot be empty.");
    var d := if |token| > 0 then d.(infoToken := Some(token)) else d;
    d.(secrets := CheckSecrets(d.secrets, req))
  }

  /**
   * `serializeForm` as written. The auth-handler lookup assigns `okay`
   * afresh, so a name error is lost; and the form's auth type is set before
   * it is compared, so the handler always receives the form's previous
   * context.
   */
  function SerializeForm(regR: RestrictionRegistry, regA: AuthRegistry, b: Bcrypt, data: FormData, req: Request)
    : (r: (FormData, bool))
    ensures r.0.restrictions == SerializeRestrictions(regR, b, req, data.restrictions).0
    ensures r.0.nameError == SerializeBasics(data, req).nameError
  {
    var basics := SerializeBasics(data, req);
    var auth := SerializeAuth(regA, b, req, basics, basics.authInfo);
    // the auth step leaves the restriction map as it found it
    var restrictions := SerializeRestrictions(regR, b, req, data.restrictions);
    (auth.0.(restrictions := restrictions.0), auth.1 && restrictions.1)
  }

  /**
   * `serializeForm` as intended: a name error makes the form invalid, and the
   * previous context is handed over only when the auth type is unchanged.
   */
  function SerializeFormIntended(regR: RestrictionRegistry, regA: AuthRegistry, b: Bcrypt, data: FormData, req: Request)
    : (r: (FormData, bool))
    ensures r.0.restrictions == SerializeRestrictions(regR, b, req, data.restrictions).0
    ensures r.1 ==> r.0.nameError == data.nameError
  {
    var basics := SerializeBasics(data, req);
    var previous := if FormValue(req, "authentication") == data.authType then basics.authInfo else None;
    var auth := SerializeAuth(regA, b, req, basics, previous);
    var restrictions := SerializeRestrictions(regR, b, req, data.restrictions);
    (auth.0.(restrictions := restrictions.0), |TrimSpace(FormValue(req, "name"))| > 0 && auth.1 && restrictions.1)
  }

  // ---------------------------------------------------------------------------
  // Properties

  /** Saving a new consumer appends it under the next id, where `findConsumer` finds it. */
  lemma InsertThenFind(t: Table, c: Consumer)
    requires Valid(t) && t.nextId > 0 && c.id <= 0
    ensures Valid(Save(t, c).0)
    ensures FindConsumer(Save(t, c).0, t.nextId) == Some(Consumer(t.nextId, c.name, c.createdBy, None, c.enabled, c.deleted, c.infoToken))
  {
    var t' := Save(t, c).0;
    var row := Consumer(t.nextId, c.name, c.createdBy, None, c.enabled, c.deleted, c.infoToken);
    assert t'.rows[|t.rows|] == row;
    var found := FindConsumer(t', t.nextId);
    assert found.Some?;
    assert found.value.id == t.nextId;
    var k :| 0 <= k < |t'.rows| && t'.rows[k] == found.value;
    assert k == |t.rows|;
  }

  /** Updating a stored consumer writes its columns unless the row is deleted, which stays as it was. */
  lemma UpdateThenFind(t: Table, c: Consumer)
    requires Valid(t) && c.id > 0 && FindConsumer(t, c.id).Some?
    ensures var before := FindConsumer(t, c.id).value;
            FindConsumer(Save(t, c).0, c.id) == Some(if before.deleted then before else Updated(before, c))
  {
    var t' := Save(t, c).0;
    var i :| 0 <= i < |t.rows| && t.rows[i] == FindConsumer(t, c.id).value;
    var found := FindConsumer(t', c.id);
    assert t'.rows[i].id == c.id;
    assert found.Some? && found.value.id == c.id;
    var k :| 0 <= k < |t'.rows| && t'.rows[k] == found.value;
    assert t.rows[k].id == c.id;
    assert k == i;
  }

  /** A deleted consumer is still found by id, marked deleted. */
  lemma DeleteThenFind(t: Table, id: int)
    requires Valid(t) && FindConsumer(t, id).Some?
    ensures FindConsumer(Delete(t, id), id) == Some(FindConsumer(t, id).value.(deleted := true))
  {
    var t' := Delete(t, id);
    var i :| 0 <= i < |t.rows| && t.rows[i] == FindConsumer(t, id).value;
    var found := FindConsumer(t', id);
    assert t'.rows[i].id == id;
    assert found.Some? && found.value.id == id;
    var k :| 0 <= k < |t'.rows| && t'.rows[k] == found.value;
    assert t.rows[k].id == id;
    assert k == i;
  }

  /** Laying distinct rows over the form gives each row's type the row's unpacked context and flag. */
  lemma {:induction false} OverlayPlaces(reg: RestrictionRegistry, d: FormData, rows: seq<Restrictions.Restriction>)
    requires Overlay(reg, d, rows).Done?
    requires forall i, j :: 0 <= i < j < |rows| ==> rows[i].rtype != rows[j].rtype
    ensures forall i :: 0 <= i < |rows| ==>
              Overlay(reg, d, rows).value.restrictions[rows[i].rtype]
              == ConsumerRestriction(rows[i].rtype, Restrictions.UnpackContext(reg, rows[i]).value, rows[i].enabled, "")
    decreases |rows|
  {
    if |rows| > 0 {
      var entry := ConsumerRestriction(rows[0].rtype, Restrictions.UnpackContext(reg, rows[0]).value, rows[0].enabled, "");
      var d' := d.(restrictions := d.restrictions[rows[0].rtype := entry]);
      assert Overlay(reg, d, rows) == Overlay(reg, d', rows[1..]);
      OverlayPlaces(reg, d', rows[1..]);
      forall i | 0 <= i < |rows|
        ensures Overlay(reg, d, rows).value.restrictions[rows[i].rtype]
                == ConsumerRestriction(rows[i].rtype, Restrictions.UnpackContext(reg, rows[i]).value, rows[i].enabled, "")
      {
        if i == 0 {
          forall j | 0 <= j < |rows[1..]| ensures rows[1..][j].rtype != rows[0].rtype {
            assert rows[1..][j] == rows[j + 1];
          }
        } else {
          assert rows[i] == rows[1..][i - 1];
        }
      }
    }
  }

  /**
   * As written, the form is accepted exactly when the authentication and
   * every registered restriction serialize, whatever the name.
   */
  lemma SerializeFormOkayIff(regR: RestrictionRegistry, regA: AuthRegistry, b: Bcrypt, data: FormData, req: Request)
    ensures var authType := FormValue(req, "authentication");
            SerializeForm(regR, regA, b, data, req).1
            <==> && authType in regA
                 && AuthSerializeForm(regA[authType], b, req, SerializeBasics(data, req).authInfo).Ok?
                 && SerializeRestrictions(regR, b, req, data.restrictions).1
  {
  }

  /** As intended, the form is accepted exactly when additionally the trimmed name is not empty. */
  lemma SerializeFormIntendedOkayIff(regR: RestrictionRegistry, regA: AuthRegistry, b: Bcrypt, data: FormData, req: Request)
    ensures var authType := FormValue(req, "authentication");
            var oldCtx := if authType == data.authType then data.authInfo else None;
            SerializeFormIntended(regR, regA, b, data, req).1
            <==> && |TrimSpace(FormValue(req, "name"))| > 0
                 && authType in regA
                 && AuthSerializeForm(regA[authType], b, req, oldCtx).Ok?
                 && SerializeRestrictions(regR, b, req, data.restrictions).1
  {
  }

  /** A bcrypt that never matters below: no key is hashed on these paths. */
  const Plain: Bcrypt := Bcrypt(p => p, (h, p) => h == p)

  /** A request with an empty name, the "tls_cert" authentication and a key, and no restrictions. */
  const BlankNameRequest: Request :=
    Request(map["name" := "", "authentication" := "tls_cert", "auth_api_key_key" := "k"], map[], map[], map[], "")

  /** With no restrictions on the form, the restriction loop changes nothing and reports no error. */
  lemma NoRestrictionsSerialize(reg: RestrictionRegistry, b: Bcrypt, req: Request)
    ensures SerializeRestrictions(reg, b, req, map[]) == (map[], true)
  {
    var r := SerializeRestrictions(reg, b, req, map[]);
    assert r.0.Keys == {};
  }

  /** The steps of that request through the form: a name error, then a successful authentication. */
  lemma BlankNameSteps()
    ensures var d := SerializeBasics(NewFormData, BlankNameRequest);
            && d.nameError == "The name cannot be empty." && d.name == "" && d.authInfo == None
            && SerializeAuth(DefaultAuthRegistry(), Plain, BlankNameRequest, d, None).1
  {
    DefaultAuthRegistryIs();
    assert FormValue(BlankNameRequest, "name") == "";
    TrimSpaceEmpty("");
    assert FormValue(BlankNameRequest, "authentication") == "tls_cert";
    assert FormValue(BlankNameRequest, "auth_api_key_key") == "k";
    TrimSpaceNoOp("k");
  }

  /** As written, that request is accepted although it carries a name error. */
  lemma NameErrorIsLost()
    ensures var r := SerializeForm(DefaultRestrictionRegistry(), DefaultAuthRegistry(), Plain, NewFormData, BlankNameRequest);
            r.1 && r.0.nameError == "The name cannot be empty." && r.0.name == ""
  {
    BlankNameSteps();
    NoRestrictionsSerialize(DefaultRestrictionRegistry(), Plain, BlankNameRequest);
  }

  /** As intended, the same request is refused. */
  lemma NameErrorIsKept()
    ensures !SerializeFormIntended(DefaultRestrictionRegistry(), DefaultAuthRegistry(), Plain, NewFormData, BlankNameRequest).1
  {
    BlankNameSteps();
    NoRestrictionsSerialize(DefaultRestrictionRegistry(), Plain, BlankNameRequest);
  }

  /** A form that held an "api_key" authentication, switched to "tls_cert" with a blank key. */
  const SwitchedForm: FormData := NewFormData.(authType := "api_key", authInfo := Some(ApiKeyCtx("$2a$hash")))
  const SwitchRequest: Request :=
    Request(map["name" := "n", "authentication" := "tls_cert", "auth_api_key_key" := ""], map[], map[], map[], "")

  /** The steps of the switch: the name is fine, the new type is registered and its key field blank. */
  lemma SwitchSteps()
    ensures var d := SerializeBasics(SwitchedForm, SwitchRequest);
            && d.authInfo == Some(ApiKeyCtx("$2a$hash")) && d.authType == "api_key" && d.authErrors == map[]
            && |TrimSpace(FormValue(SwitchRequest, "name"))| > 0
            && FormValue(SwitchRequest, "authentication") == "tls_cert"
            && DefaultAuthRegistry() == map["api_key" := ApiKeyAuth, "tls_cert" := TlsCertAuth]
            && IsBlank(FormValue(SwitchRequest, "auth_api_key_key"))
  {
    DefaultAuthRegistryIs();
    assert FormValue(SwitchRequest, "name") == "n";
    TrimSpaceNoOp("n");
    assert FormValue(SwitchRequest, "auth_api_key_key") == "";
    TrimSpaceEmpty("");
  }

  /** The auth step of the switch, handed the old context or none. */
  lemma SwitchAuth(d: FormData)
    ensures SerializeAuth(DefaultAuthRegistry(), Plain, SwitchRequest, d, Some(ApiKeyCtx("$2a$hash")))
            == (d.(authType := "tls_cert", authInfo := Some(ApiKeyCtx("$2a$hash"))), true)
    ensures SerializeAuth(DefaultAuthRegistry(), Plain, SwitchRequest, d, None)
            == (d.(authType := "tls_cert", authErrors := d.authErrors["tls_cert" := "No API key given."],
                   authInfo := Some(TlsCertCtx("", 0))), false)
  {
    DefaultAuthRegistryIs();
    assert FormValue(SwitchRequest, "authentication") == "tls_cert";
    assert FormValue(SwitchRequest, "auth_api_key_key") == "";
    TrimSpaceEmpty("");
  }

  /**
   * As written, switching the authentication type with a blank key is
   * accepted and stores the old API-key context as the TLS-certificate
   * context.
   */
  lemma SwitchKeepsForeignContext()
    ensures var r := SerializeForm(DefaultRestrictionRegistry(), DefaultAuthRegistry(), Plain, SwitchedForm, SwitchRequest);
            r.1 && r.0.authType == "tls_cert" && r.0.authInfo == Some(ApiKeyCtx("$2a$hash"))
  {
    var d := SerializeBasics(SwitchedForm, SwitchRequest);
    SwitchSteps();
    SwitchAuth(d);
    NoRestrictionsSerialize(DefaultRestrictionRegistry(), Plain, SwitchRequest);
    assert SerializeForm(DefaultRestrictionRegistry(), DefaultAuthRegistry(), Plain, SwitchedForm, SwitchRequest)
           == (d.(authType := "tls_cert", authInfo := Some(ApiKeyCtx("$2a$hash"))).(restrictions := map[]), true);
  }

  /** As intended, the switch starts from no context, so a blank key is refused and the null context shown. */
  lemma SwitchStartsFresh()
    ensures var r := SerializeFormIntended(DefaultRestrictionRegistry(), DefaultAuthRegistry(), Plain, SwitchedForm, SwitchRequest);
            && !r.1 && r.0.authType == "tls_cert"
            && r.0.authErrors == map["tls_cert" := "No API key given."]
            && r.0.authInfo == Some(TlsCertCtx("", 0))
  {
    var d := SerializeBasics(SwitchedForm, SwitchRequest);
    SwitchSteps();
    SwitchAuth(d);
    NoRestrictionsSerialize(DefaultRestrictionRegistry(), Plain, SwitchRequest);
    assert SerializeFormIntended(DefaultRestrictionRegistry(), DefaultAuthRegistry(), Plain, SwitchedForm, SwitchRequest)
           == (d.(authType := "tls_cert", authErrors := map["tls_cert" := "No API key given."],
                  authInfo := Some(TlsCertCtx("", 0))).(restrictions := map[]), false);
  }

  /** As intended, for every form and request, a changed auth type never sees the previous context. */
  lemma IntendedSwitchIgnoresOldContext(regR: RestrictionRegistry, regA: AuthRegistry, b: Bcrypt, data: FormData, req: Request)
    requires FormValue(req, "authentication") in regA && FormValue(req, "authentication") != data.authType
    ensures var authType := FormValue(req, "authentication");
            var out := AuthSerializeForm(regA[authType], b, req, None);
            SerializeFormIntended(regR, regA, b, data, req).0.authInfo
            == Some(if out.Ok? then out.value else AuthNullContext(regA[authType]))
  {
  }
}
