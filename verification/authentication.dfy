/**
 * Authentication rows: at most one per consumer, naming the authentication
 * type and its context, plus the record-level rules for dispatch and saving.
 */
module Authentications {
  import opened Base
  import opened Contexts
  import opened Handlers
  import opened Registry

  datatype Authentication = Authentication(consumerId: int, atype: string, context: Option<Context>)

  /** The `authentication` table, in storage order; consumer_id is its key. */
  type Table = seq<Authentication>

  predicate UniqueKeys(t: Table) {
    forall i, j :: 0 <= i < j < |t| ==> t[i].consumerId != t[j].consumerId
  }

  function Lookup(t: Table, consumerId: int): (r: Option<Authentication>)
    ensures r.Some? ==> r.value in t && r.value.consumerId == consumerId
    ensures r.None? ==> forall i :: 0 <= i < |t| ==> t[i].consumerId != consumerId
  {
    if |t| == 0 then None
    else if t[0].consumerId == consumerId then Some(t[0])
    else Lookup(t[1..], consumerId)
  }

  /** `findAuthenticationByConsumer`: a row whose consumer id reads as 0 counts as not found. */
  function FindAuthenticationByConsumer(t: Table, consumerId: int, loadContext: bool): (r: Option<Authentication>)
    ensures consumerId == 0 ==> r.None?
    ensures r.Some? ==> r.value.consumerId == consumerId
    ensures r.Some? && !loadContext ==> r.value.context.None?
    ensures r.Some? && loadContext ==> r == Lookup(t, consumerId)
  {
    match Lookup(t, consumerId)
    case None => None
    case Some(row) =>
      if row.consumerId == 0 then None
      else Some(if loadContext then row else row.(context := None))
  }

  /** The columns a `Save` writes: the context column only when a context is present. */
  datatype Columns = TwoColumns(consumerId: int, atype: string) | ThreeColumns(consumerId: int, atype: string, context: Context)

  function SaveColumns(a: Authentication): (c: Columns)
    ensures c.consumerId == a.consumerId && c.atype == a.atype
    ensures c.TwoColumns? <==> a.context.None?
    ensures c.ThreeColumns? ==> c.context == a.context.value
  {
    match a.context
    case None => TwoColumns(a.consumerId, a.atype)
    case Some(ctx) => ThreeColumns(a.consumerId, a.atype, ctx)
  }

  function RemoveConsumer(t: Table, consumerId: int): (r: Table)
    ensures forall x :: x in r <==> x in t && x.consumerId != consumerId
    ensures UniqueKeys(t) ==> UniqueKeys(r)
  {
    if |t| == 0 then []
    else
      var rest := RemoveConsumer(t[1..], consumerId);
      assert forall x :: x in t[1..] ==> x in t;
      if t[0].consumerId == consumerId then rest
      else
        assert UniqueKeys(t) ==> forall x :: x in rest ==> x.consumerId != t[0].consumerId by {
          if UniqueKeys(t) {
            forall x | x in rest ensures x.consumerId != t[0].consumerId {
              var j :| 0 <= j < |t[1..]| && t[1..][j] == x;
              assert t[j + 1] == x;
            }
          }
        }
        [t[0]] + rest
  }

  /**
   * `Save`: REPLACE INTO with the columns above. REPLACE removes the
   * consumer's old row first, so an omitted context column is NULL in the
   * new row.
   */
  function Save(t: Table, a: Authentication): (r: Table)
    ensures UniqueKeys(t) ==> UniqueKeys(r)
    ensures Authentication(a.consumerId, a.atype, if SaveColumns(a).ThreeColumns? then Some(SaveColumns(a).context) else None) in r
    ensures forall x :: x in r && x.consumerId != a.consumerId <==> x in t && x.consumerId != a.consumerId
  {
    var row := match SaveColumns(a)
      case TwoColumns(cid, ty) => Authentication(cid, ty, None)
      case ThreeColumns(cid, ty, ctx) => Authentication(cid, ty, Some(ctx));
    RemoveConsumer(t, a.consumerId) + [row]
  }

  /** `Delete`: removes the consumer's row. */
  function Delete(t: Table, a: Authentication): (r: Table)
    ensures forall x :: x in r <==> x in t && x.consumerId != a.consumerId
  {
    RemoveConsumer(t, a.consumerId)
  }

  /** `GetHandler`: the registered handler, or a panic naming the unknown type. */
  function GetHandler(reg: AuthRegistry, a: Authentication): (h: Outcome<AuthKind>)
    ensures h.Done? <==> a.atype in reg
    ensures h.Done? ==> h.value == reg[a.atype]
    ensures h.Panicked? ==> h.message == "Authentication for unknown type '" + a.atype + "' found."
  {
    if a.atype in reg then Done(reg[a.atype])
    else Panicked("Authentication for unknown type '" + a.atype + "' found.")
  }

  /**
   * `UnpackContext`: reads the registry directly instead of via `GetHandler`;
   * for an unknown type the handler is nil and calling it panics.
   */
  function UnpackContext(reg: AuthRegistry, a: Authentication): (c: Outcome<Context>)
    ensures c.Done? <==> a.atype in reg
    ensures c.Panicked? ==> c.message == NilDereference
    ensures c.Done? && a.context.Some? ==> c.value == a.context.value
    ensures c.Done? && a.context.None? ==> c.value == AuthNullContext(reg[a.atype])
  {
    if a.atype !in reg then Panicked(NilDereference)
    else Done(if a.context.Some? then a.context.value else AuthNullContext(reg[a.atype]))
  }

  /** `Check`: the handler's own check on the unpacked context. */
  function Check(reg: AuthRegistry, env: Env, a: Authentication): (o: Outcome<CheckOutcome>)
    ensures o.Done? <==> a.atype in reg
    ensures o.Panicked? ==> o.message == "Authentication for unknown type '" + a.atype + "' found."
  {
    match GetHandler(reg, a)
    case Panicked(m) => Panicked(m)
    case Done(k) =>
      match UnpackContext(reg, a)
      case Panicked(m) => Panicked(m)
      case Done(c) => Done(AuthCheckAccess(k, env, c))
  }

  // ---------------------------------------------------------------------------
  // Properties

  lemma LookupFinds(t: Table, x: Authentication)
    requires UniqueKeys(t) && x in t
    ensures Lookup(t, x.consumerId) == Some(x)
  {
    if t[0] != x {
      assert x in t[1..];
      assert UniqueKeys(t[1..]) by {
        forall i, j | 0 <= i < j < |t[1..]| ensures t[1..][i].consumerId != t[1..][j].consumerId {
          assert t[1..][i] == t[i + 1] && t[1..][j] == t[j + 1];
        }
      }
      var j :| 0 <= j < |t| && t[j] == x;
      assert j > 0;
      LookupFinds(t[1..], x);
    }
  }

  /** After a save, the consumer's authentication is the saved one, with the context it was given (or none). */
  lemma SaveThenFind(t: Table, a: Authentication)
    requires UniqueKeys(t) && a.consumerId != 0
    ensures FindAuthenticationByConsumer(Save(t, a), a.consumerId, true) == Some(a)
    ensures FindAuthenticationByConsumer(Save(t, a), a.consumerId, false) == Some(a.(context := None))
  {
    LookupFinds(Save(t, a), a);
  }

  /** An unregistered type panics in `GetHandler`, and so in `Check`; it never yields a verdict. */
  lemma UnknownTypePanics(reg: AuthRegistry, env: Env, a: Authentication)
    requires a.atype !in reg
    ensures GetHandler(reg, a).Panicked? && Check(reg, env, a).Panicked?
  {
  }

  /** With a registered type, `Check` is the handler's check on the stored or null context. */
  lemma CheckIsHandlerCheck(reg: AuthRegistry, env: Env, a: Authentication)
    requires a.atype in reg
    ensures Check(reg, env, a)
            == Done(AuthCheckAccess(reg[a.atype], env, if a.context.Some? then a.context.value else AuthNullContext(reg[a.atype])))
  {
  }
}
