/**
 * Restriction rows: one per (consumer, type), holding the type's context and
 * an enabled flag, plus the record-level rules for dispatch, emptiness and
 * saving.
 */
module Restrictions {
  import opened Base
  import opened Contexts
  import opened Handlers
  import opened Registry

  /** A `restriction` row; `context` is absent when it was not loaded or is NULL. */
  datatype Restriction = Restriction(consumerId: int, rtype: string, context: Option<Context>, enabled: bool)

  /** The `restriction` table, in storage order. */
  type Table = seq<Restriction>

  /** (consumer_id, type) is the table's key. */
  predicate UniqueKeys(t: Table) {
    forall i, j :: 0 <= i < j < |t| ==> (t[i].consumerId, t[i].rtype) != (t[j].consumerId, t[j].rtype)
  }

  /** Keeps or drops the context column, as the `loadContext` flag of the queries does. */
  function Load(r: Restriction, loadContext: bool): Restriction {
    if loadContext then r else r.(context := None)
  }

  /** The row with the given key, if any. */
  function Lookup(t: Table, consumerId: int, rtype: string): (r: Option<Restriction>)
    ensures r.Some? ==> r.value in t && r.value.consumerId == consumerId && r.value.rtype == rtype
    ensures r.None? ==> forall i :: 0 <= i < |t| ==> (t[i].consumerId, t[i].rtype) != (consumerId, rtype)
  {
    if |t| == 0 then None
    else if t[0].consumerId == consumerId && t[0].rtype == rtype then Some(t[0])
    else Lookup(t[1..], consumerId, rtype)
  }

  /** `findRestriction`: a row whose consumer id reads as 0 counts as not found. */
  function FindRestriction(t: Table, consumerId: int, rtype: string, loadContext: bool): (r: Option<Restriction>)
    ensures consumerId == 0 ==> r.None?
    ensures r.Some? ==> r.value.consumerId == consumerId && r.value.rtype == rtype
    ensures r.Some? && !loadContext ==> r.value.context.None?
  {
    match Lookup(t, consumerId, rtype)
    case None => None
    case Some(row) => if row.consumerId == 0 then None else Some(Load(row, loadContext))
  }

  /** `findRestrictionsByConsumer`: the consumer's rows, in storage order. */
  function FindRestrictionsByConsumer(t: Table, consumerId: int, loadContext: bool): (r: seq<Restriction>)
    ensures |r| <= |t|
    ensures forall i :: 0 <= i < |r| ==> r[i].consumerId == consumerId
    ensures forall x :: x in t && x.consumerId == consumerId ==> Load(x, loadContext) in r
    ensures forall y :: y in r ==> exists x :: x in t && x.consumerId == consumerId && y == Load(x, loadContext)
  {
    if |t| == 0 then []
    else
      var rest := FindRestrictionsByConsumer(t[1..], consumerId, loadContext);
      assert forall x :: x in t <==> x == t[0] || x in t[1..];
      if t[0].consumerId == consumerId then [Load(t[0], loadContext)] + rest else rest
  }

  /** No two rows share a type. */
  predicate DistinctTypes(rs: seq<Restriction>) {
    forall i, j :: 0 <= i < j < |rs| ==> rs[i].rtype != rs[j].rtype
  }

  /** Under unique keys, one consumer's rows have distinct types. */
  lemma {:induction false} ByConsumerHasDistinctTypes(t: Table, consumerId: int, loadContext: bool)
    requires UniqueKeys(t)
    ensures DistinctTypes(FindRestrictionsByConsumer(t, consumerId, loadContext))
    decreases |t|
  {
    if |t| > 0 {
      var tail := t[1..];
      UniqueKeysTail(t);
      ByConsumerHasDistinctTypes(tail, consumerId, loadContext);
      var rest := FindRestrictionsByConsumer(tail, consumerId, loadContext);
      if t[0].consumerId == consumerId {
        assert FindRestrictionsByConsumer(t, consumerId, loadContext) == [Load(t[0], loadContext)] + rest;
        forall y | y in rest ensures y.rtype != t[0].rtype {
          var x :| x in tail && x.consumerId == consumerId && y == Load(x, loadContext);
          var k :| 0 <= k < |tail| && tail[k] == x;
          assert t[k + 1] == x;
        }
        ConsDistinct(Load(t[0], loadContext), rest);
      } else {
        assert FindRestrictionsByConsumer(t, consumerId, loadContext) == rest;
      }
    }
  }

  lemma UniqueKeysTail(t: Table)
    requires |t| > 0 && UniqueKeys(t)
    ensures UniqueKeys(t[1..])
  {
    var tail := t[1..];
    forall i, j | 0 <= i < j < |tail|
      ensures (tail[i].consumerId, tail[i].rtype) != (tail[j].consumerId, tail[j].rtype)
    {
      assert tail[i] == t[i + 1] && tail[j] == t[j + 1];
    }
  }

  /** A row whose type no row of a distinct list has can be put in front of it. */
  lemma ConsDistinct(x: Restriction, rest: seq<Restriction>)
    requires DistinctTypes(rest) && forall y :: y in rest ==> y.rtype != x.rtype
    ensures DistinctTypes([x] + rest)
  {
    var r := [x] + rest;
    forall i, j | 0 <= i < j < |r| ensures r[i].rtype != r[j].rtype {
      assert r[j] == rest[j - 1];
      if i > 0 {
        assert r[i] == rest[i - 1];
      }
    }
  }

  /** `GetHandler`: the registered handler, or a panic naming the unknown type. */
  function GetHandler(reg: RestrictionRegistry, r: Restriction): (h: Outcome<RestrictionKind>)
    ensures h.Done? <==> r.rtype in reg
    ensures h.Done? ==> h.value == reg[r.rtype]
    ensures h.Panicked? ==> h.message == "Restriction for unknown type '" + r.rtype + "' found."
  {
    if r.rtype in reg then Done(reg[r.rtype])
    else Panicked("Restriction for unknown type '" + r.rtype + "' found.")
  }

  /** `UnpackContext`: the stored context, or the handler's null context when none is stored. */
  function UnpackContext(reg: RestrictionRegistry, r: Restriction): (c: Outcome<Context>)
    ensures c.Done? <==> r.rtype in reg
    ensures c.Done? && r.context.None? ==> c.value == RestrictionNullContext(reg[r.rtype])
    ensures c.Done? && r.context.Some? ==> c.value == r.context.value
  {
    match GetHandler(reg, r)
    case Panicked(m) => Panicked(m)
    case Done(k) => Done(if r.context.Some? then r.context.value else RestrictionNullContext(k))
  }

  /** `IsEmpty`: an enabled restriction never is; a disabled one is when its context is null. */
  function IsEmpty(reg: RestrictionRegistry, r: Restriction): (e: Outcome<bool>)
    ensures r.enabled ==> e == Done(false)
    ensures !r.enabled ==> (e.Done? <==> r.rtype in reg)
  {
    if r.enabled then Done(false)
    else match GetHandler(reg, r)
      case Panicked(m) => Panicked(m)
      case Done(k) =>
        match UnpackContext(reg, r)
        case Panicked(m) => Panicked(m)
        case Done(c) => Done(RestrictionIsNullContext(k, c))
  }

  /** `Check`: the handler's own check on the unpacked context. */
  function Check(reg: RestrictionRegistry, env: Env, r: Restriction): (o: Outcome<CheckOutcome>)
    ensures o.Done? <==> r.rtype in reg
    ensures o.Panicked? ==> o.message == "Restriction for unknown type '" + r.rtype + "' found."
  {
    match GetHandler(reg, r)
    case Panicked(m) => Panicked(m)
    case Done(k) =>
      match UnpackContext(reg, r)
      case Panicked(m) => Panicked(m)
      case Done(c) => Done(RestrictionCheckAccess(k, env, c))
  }

  /** The table without the row keyed (consumerId, rtype). */
  function Remove(t: Table, consumerId: int, rtype: string): (r: Table)
    ensures forall x :: x in r <==> x in t && (x.consumerId, x.rtype) != (consumerId, rtype)
    ensures UniqueKeys(t) ==> UniqueKeys(r)
  {
    if |t| == 0 then []
    else
      var rest := Remove(t[1..], consumerId, rtype);
      assert forall x :: x in t[1..] ==> x in t;
      if (t[0].consumerId, t[0].rtype) == (consumerId, rtype) then rest
      else
        if UniqueKeys(t) then
          UniqueKeysTail(t);
          HeadKeyUnique(t);
          ConsUnique(t[0], rest);
          [t[0]] + rest
        else [t[0]] + rest
  }

  /** In a table with unique keys no later row shares the first row's key. */
  lemma HeadKeyUnique(t: Table)
    requires |t| > 0 && UniqueKeys(t)
    ensures forall x :: x in t[1..] ==> (x.consumerId, x.rtype) != (t[0].consumerId, t[0].rtype)
  {
    forall x | x in t[1..] ensures (x.consumerId, x.rtype) != (t[0].consumerId, t[0].rtype) {
      var j :| 0 <= j < |t[1..]| && t[1..][j] == x;
      assert t[j + 1] == x;
    }
  }

  /** A row whose key no row of a unique-keyed table has can be put in front of it. */
  lemma ConsUnique(x: Restriction, rest: Table)
    requires UniqueKeys(rest) && forall y :: y in rest ==> (y.consumerId, y.rtype) != (x.consumerId, x.rtype)
    ensures UniqueKeys([x] + rest)
  {
    var r := [x] + rest;
    forall i, j | 0 <= i < j < |r| ensures (r[i].consumerId, r[i].rtype) != (r[j].consumerId, r[j].rtype) {
      assert r[j] == rest[j - 1];
      if i > 0 {
        assert r[i] == rest[i - 1];
      }
    }
  }


  /**
   * `Save`: an empty restriction deletes its row; any other is written with
   * REPLACE, which first removes the row with the same key. Writing a
   * non-empty restriction without a context dereferences nil.
   */
  function Save(reg: RestrictionRegistry, t: Table, r: Restriction): (o: Outcome<Table>)
    ensures o.Done? ==> (UniqueKeys(t) ==> UniqueKeys(o.value))
    ensures o.Done? ==> forall x :: x in o.value && (x.consumerId, x.rtype) != (r.consumerId, r.rtype) <==>
                                   x in t && (x.consumerId, x.rtype) != (r.consumerId, r.rtype)
    ensures IsEmpty(reg, r).Panicked? ==> o == Panicked(IsEmpty(reg, r).message)
    ensures r.context.Some? ==> (o.Panicked? <==> IsEmpty(reg, r).Panicked?)
  {
    match IsEmpty(reg, r)
    case Panicked(m) => Panicked(m)
    case Done(empty) =>
      if empty then Done(Remove(t, r.consumerId, r.rtype))
      else if r.context.None? then Panicked(NilDereference)
      else
        var rest := Remove(t, r.consumerId, r.rtype);
        assert UniqueKeys(t) ==> UniqueKeys(rest + [r]);
        Done(rest + [r])
  }

  // ---------------------------------------------------------------------------
  // Properties

  /** A row is stored under a unique key, so looking it up finds exactly that row. */
  lemma LookupFinds(t: Table, x: Restriction)
    requires UniqueKeys(t) && x in t
    ensures Lookup(t, x.consumerId, x.rtype) == Some(x)
  {
    if t[0] != x {
      assert x in t[1..];
      assert UniqueKeys(t[1..]) by {
        forall i, j | 0 <= i < j < |t[1..]|
          ensures (t[1..][i].consumerId, t[1..][i].rtype) != (t[1..][j].consumerId, t[1..][j].rtype)
        {
          assert t[1..][i] == t[i + 1] && t[1..][j] == t[j + 1];
        }
      }
      var j :| 0 <= j < |t| && t[j] == x;
      assert j > 0;
      LookupFinds(t[1..], x);
    }
  }

  /**
   * After a successful save, finding the restriction yields nothing when it
   * was empty and the saved row otherwise; every other key is unaffected.
   */
  lemma SaveThenFind(reg: RestrictionRegistry, t: Table, r: Restriction, consumerId: int, rtype: string)
    requires UniqueKeys(t) && r.consumerId != 0 && Save(reg, t, r).Done?
    ensures (consumerId, rtype) == (r.consumerId, r.rtype) ==>
              FindRestriction(Save(reg, t, r).value, consumerId, rtype, true)
              == (if IsEmpty(reg, r).value then None else Some(r))
    ensures (consumerId, rtype) != (r.consumerId, r.rtype) ==>
              Lookup(Save(reg, t, r).value, consumerId, rtype) == Lookup(t, consumerId, rtype)
  {
    var t' := Save(reg, t, r).value;
    if (consumerId, rtype) == (r.consumerId, r.rtype) {
      if !IsEmpty(reg, r).value {
        LookupFinds(t', r);
      }
    } else {
      match Lookup(t, consumerId, rtype)
      case Some(x) => LookupFinds(t', x);
      case None =>
        match Lookup(t', consumerId, rtype)
        case Some(y) =>
        case None =>
    }
  }

  /** An enabled restriction is never empty, so saving it never deletes its row. */
  lemma EnabledIsNeverEmpty(reg: RestrictionRegistry, r: Restriction)
    requires r.enabled
    ensures IsEmpty(reg, r) == Done(false)
    ensures r.context.Some? ==> Save(reg, [], r) == Done([r])
  {
    assert Remove([], r.consumerId, r.rtype) + [r] == [r];
  }

  /** A disabled restriction is empty exactly when its handler calls its unpacked context null. */
  lemma DisabledEmptyIffNull(reg: RestrictionRegistry, r: Restriction)
    requires !r.enabled && r.rtype in reg
    ensures IsEmpty(reg, r).Done?
    ensures IsEmpty(reg, r).value <==> RestrictionIsNullContext(reg[r.rtype], UnpackContext(reg, r).value)
  {
  }

  /** An unregistered type panics in every operation that needs its handler; it is never read as allowed. */
  lemma UnknownTypePanics(reg: RestrictionRegistry, env: Env, r: Restriction)
    requires r.rtype !in reg
    ensures Check(reg, env, r).Panicked?
    ensures UnpackContext(reg, r).Panicked?
    ensures !r.enabled ==> IsEmpty(reg, r).Panicked?
  {
  }

  /** With a registered type, `Check` is the handler's `CheckAccess` on the stored or null context. */
  lemma CheckIsHandlerCheck(reg: RestrictionRegistry, env: Env, r: Restriction)
    requires r.rtype in reg
    ensures Check(reg, env, r)
            == Done(RestrictionCheckAccess(reg[r.rtype], env,
                      if r.context.Some? then r.context.value else RestrictionNullContext(reg[r.rtype])))
  {
  }
}
