/**
 * Secret delivery: a consumer asks for a secret by slug; if both exist, every
 * enabled restriction of the consumer is checked, the attempt is logged and
 * the secret is decrypted and served only when the consumer is enabled, not
 * deleted and every check granted access. The consumer's authentication
 * record plays no part.
 */
module Delivery {
  import opened Base
  import opened Strings
  import opened Http
  import opened Utils
  import opened Crypto
  import opened Contexts
  import opened Handlers
  import opened Registry
  import Restrictions
  import Consumers
  import Secrets

  // ---------------------------------------------------------------------------
  // Evaluating the restrictions

  /**
   * Where the loop over the restrictions ended: every enabled one was
   * checked (the conjunction of their verdicts and the diagnostics kept by
   * type), a check panicked on an unknown type, or the handler of an enabled
   * restriction defines no `CheckAccess` method.
   */
  datatype Evaluation =
    | Evaluated(okay: bool, contexts: map<string, Diagnostic>)
    | Panicking(message: string)
    | Unchecked(rtype: string)

  /** The handler's verdict on the restriction, when its check dispatches and exists. */
  function Ran(reg: RestrictionRegistry, env: Env, r: Restrictions.Restriction): Option<Verdict> {
    match Restrictions.Check(reg, env, r)
    case Done(Checked(v)) => Some(v)
    case _ => None
  }

  /** The restriction does not stop the loop: it is disabled, or its check yields a verdict. */
  predicate Runnable(reg: RestrictionRegistry, env: Env, r: Restrictions.Restriction) {
    !r.enabled || Ran(reg, env, r).Some?
  }

  /** The restriction lets the request through: it is disabled, or its verdict grants access. */
  predicate Passes(reg: RestrictionRegistry, env: Env, r: Restrictions.Restriction) {
    !r.enabled || (Ran(reg, env, r).Some? && Ran(reg, env, r).value.granted)
  }

  /** The diagnostic an enabled restriction's check reported, if any. */
  function Diagnosed(reg: RestrictionRegistry, env: Env, r: Restrictions.Restriction): Option<Diagnostic> {
    if r.enabled && Ran(reg, env, r).Some? then Ran(reg, env, r).value.diagnostic else None
  }

  /** One turn of the loop on what the earlier turns produced. */
  function Step(reg: RestrictionRegistry, env: Env, e: Evaluation, r: Restrictions.Restriction): Evaluation {
    match e
    case Evaluated(okay, contexts) =>
      if !r.enabled then e
      else (
        match Restrictions.Check(reg, env, r)
        case Panicked(m) => Panicking(m)
        case Done(NoCheckDefined) => Unchecked(r.rtype)
        case Done(Checked(v)) =>
          Evaluated(okay && v.granted, if v.diagnostic.Some? then contexts[r.rtype := v.diagnostic.value] else contexts))
    case _ => e
  }

  /** The restrictions evaluated in the order they are listed, each enabled one checked once. */
  function Evaluate(reg: RestrictionRegistry, env: Env, rs: seq<Restrictions.Restriction>): Evaluation
    decreases |rs|
  {
    if |rs| == 0 then Evaluated(true, map[])
    else Step(reg, env, Evaluate(reg, env, rs[..|rs| - 1]), rs[|rs| - 1])
  }

  /**
   * The loop of `deliverSecretAction`: disabled restrictions are skipped,
   * every enabled one is checked (no short cut after a denial), the verdicts
   * are and-ed and a non-nil diagnostic is kept under the restriction's type.
   */
  method CheckRestrictions(reg: RestrictionRegistry, env: Env, rs: seq<Restrictions.Restriction>) returns (e: Evaluation)
    ensures e == Evaluate(reg, env, rs)
  {
    var okay := true;
    var contexts: map<string, Diagnostic> := map[];
    var i := 0;
    while i < |rs|
      invariant 0 <= i <= |rs|
      invariant Evaluate(reg, env, rs[..i]) == Evaluated(okay, contexts)
    {
      var r := rs[i];
      EvaluateOneMore(reg, env, rs, i);
      if r.enabled {
        match Restrictions.Check(reg, env, r)
        case Panicked(m) =>
          AbortSticks(reg, env, rs, i + 1);
          return Panicking(m);
        case Done(NoCheckDefined) =>
          AbortSticks(reg, env, rs, i + 1);
          return Unchecked(r.rtype);
        case Done(Checked(v)) =>
          okay := okay && v.granted;
          if v.diagnostic.Some? {
            contexts := contexts[r.rtype := v.diagnostic.value];
          }
      }
      i := i + 1;
    }
    assert rs[..i] == rs;
    e := Evaluated(okay, contexts);
  }

  /** The first i + 1 restrictions are the first i followed by one more step. */
  lemma EvaluateOneMore(reg: RestrictionRegistry, env: Env, rs: seq<Restrictions.Restriction>, i: nat)
    requires i < |rs|
    ensures Evaluate(reg, env, rs[..i + 1]) == Step(reg, env, Evaluate(reg, env, rs[..i]), rs[i])
  {
    assert rs[..i + 1][..i] == rs[..i];
  }

  /** Once the loop has stopped, the restrictions after that point change nothing. */
  lemma {:induction false} AbortSticks(reg: RestrictionRegistry, env: Env, rs: seq<Restrictions.Restriction>, n: nat)
    requires n <= |rs|
    requires !Evaluate(reg, env, rs[..n]).Evaluated?
    ensures Evaluate(reg, env, rs) == Evaluate(reg, env, rs[..n])
    decreases |rs| - n
  {
    if n < |rs| {
      assert rs[..n + 1][..n] == rs[..n];
      AbortSticks(reg, env, rs, n + 1);
    } else {
      assert rs[..n] == rs;
    }
  }

  // ---------------------------------------------------------------------------
  // The controller

  /** What `deliverSecretAction` writes to the access log. */
  datatype LogEntry =
    | NotFoundEntry(foundConsumer: Option<int>, foundSecret: Option<int>)
    | AccessEntry(consumer: int, secret: int, status: int, contexts: map<string, Diagnostic>)

  /**
   * What the controller did: its answer, the log entries it wrote and
   * whether it read the ciphertext column; or it panicked; or it reached a
   * restriction whose handler defines no `CheckAccess` method.
   */
  datatype Delivery =
    | Answered(response: Response, log: seq<LogEntry>, bodyLoaded: bool)
    | Panic(message: string)
    | NoCheckFor(rtype: string)

  function IdOf(c: Option<Consumers.Consumer>): Option<int> {
    if c.Some? then Some(c.value.id) else None
  }

  function SecretIdOf(s: Option<Secrets.Secret>): Option<int> {
    if s.Some? then Some(s.value.id) else None
  }

  /** The ciphertext as Go hands it to `Decrypt`: a NULL column is an empty slice. */
  function Ciphertext(s: Secrets.Secret): Bytes {
    if s.secret.Some? then s.secret.value else []
  }

  /**
   * `deliverSecretAction` on the decoded consumer id and the slug from the
   * URL. The key password and the crypto primitives come from the
   * configuration; `env` is the request and the world its checks see.
   */
  function Deliver(consumers: Consumers.Table, restrictions: Restrictions.Table, secrets: Secrets.Table,
                   reg: RestrictionRegistry, env: Env, p: Primitives, password: Bytes,
                   consumerId: int, slug: string): (d: Delivery)
    ensures d.Answered? ==> |d.log| == 1 && d.response.status in {200, 403, 404, 500}
    ensures d.Answered? ==> (d.log[0].AccessEntry? <==> d.response.status != 404)
    ensures d.Answered? && d.response.status == 404 <==>
              Consumers.FindConsumer(consumers, consumerId).None? || Secrets.FindSecretBySlug(secrets, slug, false).None?
  {
    var consumer := Consumers.FindConsumer(consumers, consumerId);
    var secret := Secrets.FindSecretBySlug(secrets, slug, false);
    if consumer.None? || secret.None? then
      Answered(NewResponse(404, "Not Found."), [NotFoundEntry(IdOf(consumer), SecretIdOf(secret))], false)
    else
      var c := consumer.value;
      var s := secret.value;
      match Evaluate(reg, env, Consumers.GetRequirements(restrictions, c, true))
      case Panicking(m) => Panic(m)
      case Unchecked(t) => NoCheckFor(t)
      case Evaluated(okay, contexts) =>
        var granted := c.enabled && !c.deleted && okay;
        var entry := AccessEntry(c.id, s.id, if granted then 200 else 403, contexts);
        if !granted then Answered(NewResponse(403, "Nope."), [entry], false)
        else
          match Secrets.FindSecret(secrets, s.id, true)
          case None => Panic(NilDereference)
          case Some(full) =>
            match Decrypt(p, password, Ciphertext(full))
            case Err(_) => Answered(NewResponse(500, "Nope."), [entry], true)
            case Ok(plain) => Answered(Response(200, Raw(plain)), [entry], true)
  }

  // ---------------------------------------------------------------------------
  // Properties of the evaluation

  /**
   * The loop runs to the end exactly when every enabled restriction has a
   * registered type with a check; it then grants exactly when every enabled
   * restriction grants.
   */
  lemma {:induction false} EvaluateMeaning(reg: RestrictionRegistry, env: Env, rs: seq<Restrictions.Restriction>)
    ensures Evaluate(reg, env, rs).Evaluated? <==> forall r :: r in rs ==> Runnable(reg, env, r)
    ensures Evaluate(reg, env, rs).Evaluated? ==>
              (Evaluate(reg, env, rs).okay <==> forall r :: r in rs ==> Passes(reg, env, r))
    decreases |rs|
  {
    if |rs| > 0 {
      var init := rs[..|rs| - 1];
      EvaluateMeaning(reg, env, init);
      StepMeaning(reg, env, Evaluate(reg, env, init), rs[|rs| - 1]);
      assert forall x :: x in rs <==> x in init || x == rs[|rs| - 1];
    }
  }

  /** One turn keeps the loop going exactly when the restriction is runnable, and and-s in its verdict. */
  lemma StepMeaning(reg: RestrictionRegistry, env: Env, e: Evaluation, r: Restrictions.Restriction)
    ensures Step(reg, env, e, r).Evaluated? <==> e.Evaluated? && Runnable(reg, env, r)
    ensures Step(reg, env, e, r).Evaluated? ==> Step(reg, env, e, r).okay == (e.okay && Passes(reg, env, r))
  {
  }

  /**
   * A diagnostic is kept exactly for the types of enabled restrictions whose
   * check reported one; when no two restrictions share a type, it is that
   * restriction's diagnostic.
   */
  lemma EvaluateDiagnostics(reg: RestrictionRegistry, env: Env, rs: seq<Restrictions.Restriction>)
    requires Evaluate(reg, env, rs).Evaluated?
    ensures forall k :: k in Evaluate(reg, env, rs).contexts <==>
              exists r :: r in rs && r.rtype == k && Diagnosed(reg, env, r).Some?
    ensures Restrictions.DistinctTypes(rs) ==>
              forall r :: r in rs && Diagnosed(reg, env, r).Some? ==>
                Evaluate(reg, env, rs).contexts[r.rtype] == Diagnosed(reg, env, r).value
  {
    DiagnosedTypes(reg, env, rs);
    if Restrictions.DistinctTypes(rs) {
      DiagnosedValues(reg, env, rs);
    }
  }

  /** One turn files the restriction's diagnostic, if it has one, under its type. */
  lemma StepDiagnostics(reg: RestrictionRegistry, env: Env, e: Evaluation, r: Restrictions.Restriction)
    requires e.Evaluated? && Step(reg, env, e, r).Evaluated?
    ensures Step(reg, env, e, r).contexts
            == if Diagnosed(reg, env, r).Some? then e.contexts[r.rtype := Diagnosed(reg, env, r).value] else e.contexts
  {
  }

  /** The diagnostics are keyed by exactly the types of the restrictions that reported one. */
  lemma {:induction false} DiagnosedTypes(reg: RestrictionRegistry, env: Env, rs: seq<Restrictions.Restriction>)
    requires Evaluate(reg, env, rs).Evaluated?
    ensures forall k :: k in Evaluate(reg, env, rs).contexts <==>
              exists r :: r in rs && r.rtype == k && Diagnosed(reg, env, r).Some?
    decreases |rs|
  {
    if |rs| > 0 {
      var init := rs[..|rs| - 1];
      var last := rs[|rs| - 1];
      assert Evaluate(reg, env, init).Evaluated?;
      DiagnosedTypes(reg, env, init);
      StepDiagnostics(reg, env, Evaluate(reg, env, init), last);
      assert forall x :: x in rs <==> x in init || x == last;
    }
  }

  /** With distinct types, each restriction's diagnostic is the one kept under its type. */
  lemma {:induction false} DiagnosedValues(reg: RestrictionRegistry, env: Env, rs: seq<Restrictions.Restriction>)
    requires Evaluate(reg, env, rs).Evaluated? && Restrictions.DistinctTypes(rs)
    ensures forall r :: r in rs && Diagnosed(reg, env, r).Some? ==>
              r.rtype in Evaluate(reg, env, rs).contexts
              && Evaluate(reg, env, rs).contexts[r.rtype] == Diagnosed(reg, env, r).value
    decreases |rs|
  {
    if |rs| > 0 {
      var init := rs[..|rs| - 1];
      var last := rs[|rs| - 1];
      assert Evaluate(reg, env, init).Evaluated?;
      assert Restrictions.DistinctTypes(init);
      DiagnosedValues(reg, env, init);
      StepDiagnostics(reg, env, Evaluate(reg, env, init), last);
      assert forall x :: x in rs <==> x in init || x == last;
      forall x | x in init
        ensures x.rtype != last.rtype
      {
        var i :| 0 <= i < |init| && init[i] == x;
        assert rs[i] == x;
      }
    }
  }

  /** A restriction that is switched off is as good as absent. */
  function EnabledOnly(rs: seq<Restrictions.Restriction>): (r: seq<Restrictions.Restriction>)
    ensures forall x :: x in r <==> x in rs && x.enabled
    decreases |rs|
  {
    if |rs| == 0 then []
    else
      var init := rs[..|rs| - 1];
      assert forall x :: x in rs <==> x in init || x == rs[|rs| - 1];
      EnabledOnly(init) + if rs[|rs| - 1].enabled then [rs[|rs| - 1]] else []
  }

  /** Disabled restrictions are skipped: they change neither the verdict nor the diagnostics. */
  lemma {:induction false} DisabledAreSkipped(reg: RestrictionRegistry, env: Env, rs: seq<Restrictions.Restriction>)
    ensures Evaluate(reg, env, rs) == Evaluate(reg, env, EnabledOnly(rs))
    decreases |rs|
  {
    if |rs| > 0 {
      var init := rs[..|rs| - 1];
      var last := rs[|rs| - 1];
      DisabledAreSkipped(reg, env, init);
      if last.enabled {
        var e := EnabledOnly(rs);
        assert e == EnabledOnly(init) + [last];
        assert e[..|e| - 1] == EnabledOnly(init);
      } else {
        assert EnabledOnly(rs) == EnabledOnly(init);
      }
    }
  }

  /** The verdict does not depend on the order of the restrictions. */
  lemma OrderIrrelevant(reg: RestrictionRegistry, env: Env, rs: seq<Restrictions.Restriction>, rs': seq<Restrictions.Restriction>)
    requires multiset(rs) == multiset(rs')
    ensures Evaluate(reg, env, rs).Evaluated? <==> Evaluate(reg, env, rs').Evaluated?
    ensures Evaluate(reg, env, rs).Evaluated? ==> Evaluate(reg, env, rs).okay == Evaluate(reg, env, rs').okay
  {
    assert forall x :: x in rs <==> x in rs' by {
      forall x ensures x in rs <==> x in rs' {
        assert x in rs <==> x in multiset(rs);
        assert x in rs' <==> x in multiset(rs');
      }
    }
    EvaluateMeaning(reg, env, rs);
    EvaluateMeaning(reg, env, rs');
  }

  /** With distinct types, the diagnostics do not depend on the order of the restrictions either. */
  lemma OrderIrrelevantDiagnostics(reg: RestrictionRegistry, env: Env, rs: seq<Restrictions.Restriction>,
                                   rs': seq<Restrictions.Restriction>)
    requires multiset(rs) == multiset(rs')
    requires Restrictions.DistinctTypes(rs) && Restrictions.DistinctTypes(rs')
    requires Evaluate(reg, env, rs).Evaluated?
    ensures Evaluate(reg, env, rs').Evaluated?
    ensures Evaluate(reg, env, rs).contexts == Evaluate(reg, env, rs').contexts
  {
    OrderIrrelevant(reg, env, rs, rs');
    assert forall x :: x in rs <==> x in rs' by {
      forall x ensures x in rs <==> x in rs' {
        assert x in rs <==> x in multiset(rs);
        assert x in rs' <==> x in multiset(rs');
      }
    }
    EvaluateDiagnostics(reg, env, rs);
    EvaluateDiagnostics(reg, env, rs');
    var a := Evaluate(reg, env, rs).contexts;
    var b := Evaluate(reg, env, rs').contexts;
    forall k | k in a
      ensures k in b && a[k] == b[k]
    {
      var r :| r in rs && r.rtype == k && Diagnosed(reg, env, r).Some?;
      assert r in rs';
    }
    forall k | k in b
      ensures k in a
    {
      var r :| r in rs' && r.rtype == k && Diagnosed(reg, env, r).Some?;
      assert r in rs;
    }
  }

  /** Switching one restriction off never turns a grant into a denial. */
  lemma DisablingKeepsGrant(reg: RestrictionRegistry, env: Env, rs: seq<Restrictions.Restriction>, i: int)
    requires 0 <= i < |rs|
    requires Evaluate(reg, env, rs).Evaluated? && Evaluate(reg, env, rs).okay
    ensures var e := Evaluate(reg, env, rs[i := rs[i].(enabled := false)]);
            e.Evaluated? && e.okay
  {
    var rs' := rs[i := rs[i].(enabled := false)];
    EvaluateMeaning(reg, env, rs);
    EvaluateMeaning(reg, env, rs');
    forall x | x in rs'
      ensures x in rs || !x.enabled
    {
      var j :| 0 <= j < |rs'| && rs'[j] == x;
      if j != i {
        assert rs[j] == x;
      }
    }
  }

  // ---------------------------------------------------------------------------
  // Properties of the controller

  /**
   * A missing consumer and a missing secret get the same 404 "Not Found."
   * and a not-found log entry, and no restriction is looked at: the answer
   * is the same whatever the restrictions, the registry and the request.
   */
  lemma NotFoundIsUniform(consumers: Consumers.Table, secrets: Secrets.Table, consumerId: int, slug: string,
                          restrictions: Restrictions.Table, reg: RestrictionRegistry, env: Env,
                          restrictions': Restrictions.Table, reg': RestrictionRegistry, env': Env,
                          p: Primitives, password: Bytes)
    requires Consumers.FindConsumer(consumers, consumerId).None? || Secrets.FindSecretBySlug(secrets, slug, false).None?
    ensures var d := Deliver(consumers, restrictions, secrets, reg, env, p, password, consumerId, slug);
            && d == Answered(NewResponse(404, "Not Found."),
                             [NotFoundEntry(IdOf(Consumers.FindConsumer(consumers, consumerId)),
                                            SecretIdOf(Secrets.FindSecretBySlug(secrets, slug, false)))], false)
            && d == Deliver(consumers, restrictions', secrets, reg', env', p, password, consumerId, slug)
  {
  }

  /** A secret found by slug is found again by its id, this time with the ciphertext. */
  lemma SlugThenId(secrets: Secrets.Table, slug: string)
    requires Secrets.Valid(secrets) && Secrets.FindSecretBySlug(secrets, slug, false).Some?
    ensures var s := Secrets.FindSecretBySlug(secrets, slug, false).value;
            && Secrets.FindSecret(secrets, s.id, true).Some?
            && exists i :: 0 <= i < |secrets.rows| && secrets.rows[i].slug == ToLower(slug)
                           && Secrets.FindSecret(secrets, s.id, true).value == secrets.rows[i]
  {
    var s := Secrets.FindSecretBySlug(secrets, slug, false).value;
    var i :| 0 <= i < |secrets.rows| && secrets.rows[i].slug == ToLower(slug)
             && s == Secrets.Loaded(secrets.rows[i], false);
    assert secrets.rows[i].id == s.id;
    var full := Secrets.FindSecret(secrets, s.id, true);
    var k :| 0 <= k < |secrets.rows| && secrets.rows[k].id == s.id && full.value == Secrets.Loaded(secrets.rows[k], true);
    assert k == i;
  }

  /**
   * For a consumer and a secret that both exist, and restrictions that all
   * run: exactly one access entry is written, with status 200 when the
   * consumer is enabled, not deleted and every enabled restriction grants,
   * 403 otherwise. A denial answers 403 "Nope." without reading the
   * ciphertext; a grant reads it and answers with the decrypted bytes, or
   * 500 when decryption fails.
   */
  lemma DeliverDecision(consumers: Consumers.Table, restrictions: Restrictions.Table, secrets: Secrets.Table,
                        reg: RestrictionRegistry, env: Env, p: Primitives, password: Bytes,
                        consumerId: int, slug: string)
    requires Secrets.Valid(secrets)
    requires Consumers.FindConsumer(consumers, consumerId).Some? && Secrets.FindSecretBySlug(secrets, slug, false).Some?
    requires var c := Consumers.FindConsumer(consumers, consumerId).value;
             forall r :: r in Consumers.GetRequirements(restrictions, c, true) ==> Runnable(reg, env, r)
    ensures var c := Consumers.FindConsumer(consumers, consumerId).value;
            var s := Secrets.FindSecretBySlug(secrets, slug, false).value;
            var rs := Consumers.GetRequirements(restrictions, c, true);
            var granted := c.enabled && !c.deleted && forall r :: r in rs ==> Passes(reg, env, r);
            var d := Deliver(consumers, restrictions, secrets, reg, env, p, password, consumerId, slug);
            && d.Answered?
            && d.log == [AccessEntry(c.id, s.id, if granted then 200 else 403, Evaluate(reg, env, rs).contexts)]
            && (!granted ==> d.response == NewResponse(403, "Nope.") && !d.bodyLoaded)
            && (granted ==> d.bodyLoaded
                            && Secrets.FindSecret(secrets, s.id, true).Some?
                            && match Decrypt(p, password, Ciphertext(Secrets.FindSecret(secrets, s.id, true).value))
                               case Ok(plain) => d.response == Response(200, Raw(plain))
                               case Err(_) => d.response == NewResponse(500, "Nope."))
  {
    var c := Consumers.FindConsumer(consumers, consumerId).value;
    EvaluateMeaning(reg, env, Consumers.GetRequirements(restrictions, c, true));
    SlugThenId(secrets, slug);
  }

  /**
   * A 200 answer means the consumer exists, is enabled and not deleted, and
   * every enabled restriction is of a registered type whose check granted.
   */
  lemma GrantNeedsEverything(consumers: Consumers.Table, restrictions: Restrictions.Table, secrets: Secrets.Table,
                             reg: RestrictionRegistry, env: Env, p: Primitives, password: Bytes,
                             consumerId: int, slug: string)
    requires var d := Deliver(consumers, restrictions, secrets, reg, env, p, password, consumerId, slug);
             d.Answered? && d.response.status == 200
    ensures Consumers.FindConsumer(consumers, consumerId).Some?
    ensures var c := Consumers.FindConsumer(consumers, consumerId).value;
            && c.enabled && !c.deleted
            && forall r :: r in Consumers.GetRequirements(restrictions, c, true) && r.enabled ==>
                 r.rtype in reg && Ran(reg, env, r).Some? && Ran(reg, env, r).value.granted
  {
    var c := Consumers.FindConsumer(consumers, consumerId).value;
    var rs := Consumers.GetRequirements(restrictions, c, true);
    EvaluateMeaning(reg, env, rs);
  }

  /** An enabled restriction of an unregistered type never lets a request through: the request panics or stops. */
  lemma UnknownTypeNeverAllows(consumers: Consumers.Table, restrictions: Restrictions.Table, secrets: Secrets.Table,
                               reg: RestrictionRegistry, env: Env, p: Primitives, password: Bytes,
                               consumerId: int, slug: string, r: Restrictions.Restriction)
    requires Consumers.FindConsumer(consumers, consumerId).Some? && Secrets.FindSecretBySlug(secrets, slug, false).Some?
    requires r in Consumers.GetRequirements(restrictions, Consumers.FindConsumer(consumers, consumerId).value, true)
    requires r.enabled && r.rtype !in reg
    ensures var d := Deliver(consumers, restrictions, secrets, reg, env, p, password, consumerId, slug);
            d.Panic? || d.NoCheckFor?
  {
    var c := Consumers.FindConsumer(consumers, consumerId).value;
    EvaluateMeaning(reg, env, Consumers.GetRequirements(restrictions, c, true));
  }

  /** Some row is filed under the slug, and every row filed under it holds the ciphertext. */
  predicate Stores(secrets: Secrets.Table, slug: string, cipher: Bytes) {
    && (exists i :: 0 <= i < |secrets.rows| && secrets.rows[i].slug == ToLower(slug))
    && forall i :: 0 <= i < |secrets.rows| && secrets.rows[i].slug == ToLower(slug) ==> secrets.rows[i].secret == Some(cipher)
  }

  /** The consumer exists, is enabled, is not deleted, and every one of its restrictions runs and passes. */
  predicate Admits(consumers: Consumers.Table, restrictions: Restrictions.Table, reg: RestrictionRegistry, env: Env,
                   consumerId: int) {
    && Consumers.FindConsumer(consumers, consumerId).Some?
    && var c := Consumers.FindConsumer(consumers, consumerId).value;
       && c.enabled && !c.deleted
       && forall r :: r in Consumers.GetRequirements(restrictions, c, true) ==> Runnable(reg, env, r) && Passes(reg, env, r)
  }

  /**
   * End to end: when the secret stored under the slug is the encryption of
   * a non-empty message under the configured password, and the consumer is
   * enabled, not deleted and passes every restriction, the answer is 200
   * with exactly that message.
   */
  lemma DeliversPlaintext(consumers: Consumers.Table, restrictions: Restrictions.Table, secrets: Secrets.Table,
                          reg: RestrictionRegistry, env: Env, p: Primitives, password: Bytes,
                          consumerId: int, slug: string,
                          m: Bytes, salt: Salt, now: int, tail: RandomTail)
    requires Lawful(p) && |m| > 0
    requires Secrets.Valid(secrets) && ValidateSafeString(slug, "slug").Ok?
    requires Encrypt(p, password, m, Ok(salt), now, Ok(tail)).Ok?
    requires Stores(secrets, slug, Encrypt(p, password, m, Ok(salt), now, Ok(tail)).value)
    requires Admits(consumers, restrictions, reg, env, consumerId)
    ensures var d := Deliver(consumers, restrictions, secrets, reg, env, p, password, consumerId, slug);
            d.Answered? && d.response == Response(200, Raw(m)) && d.bodyLoaded && d.log[0].status == 200
  {
    var i :| 0 <= i < |secrets.rows| && secrets.rows[i].slug == ToLower(slug);
    assert Secrets.FindSecretBySlug(secrets, slug, false).Some?;
    var c := Consumers.FindConsumer(consumers, consumerId).value;
    EvaluateMeaning(reg, env, Consumers.GetRequirements(restrictions, c, true));
    DeliverDecision(consumers, restrictions, secrets, reg, env, p, password, consumerId, slug);
    SlugThenId(secrets, slug);
    DecryptEncrypt(p, password, m, salt, now, tail);
  }
}
