/** What make_seed holds when it is finished, who waits for whom, and when it stops. */
module SchedulerResult {
  import opened Scheduler

  // ----- one visit, in terms of what the generator did -----

  /** A sibling that the generator looks up before it has been started. */
  predicate Missing(need: Need, props: seq<Property>, result: map<Key, Value>, used: set<Key>) {
    match need
    case FieldCondition(name) => name !in used && exists i :: 0 <= i < |props| && props[i].key == name
    case SigningDependency(name) => !(name in used || name in result)
  }

  /** The property is generated in this visit, with the generator's answer. */
  ghost predicate Tried(prop: Property, oracle: Oracle, pass: nat, p: Progress, b: Behaviour) {
    !prop.skipped && prop.key !in p.result && b == oracle(pass, prop.key, Progress(p.result, p.used + {prop.key}))
  }

  /** Some need within reach is missing; a property counts as started for its own needs. */
  ghost predicate Held(prop: Property, props: seq<Property>, p: Progress, b: Behaviour) {
    exists i :: 0 <= i < |prop.needs| && i < b.reached && Missing(prop.needs[i], props, p.result, p.used + {prop.key})
  }

  lemma HeldIff(prop: Property, props: seq<Property>, p: Progress, b: Behaviour)
    ensures Waits(prop, b, Keys(props), p.(used := p.used + {prop.key})) <==> Held(prop, props, p, b)
  {
    var q := p.(used := p.used + {prop.key});
    assert forall need: Need :: Blocked(need, Keys(props), q) <==> Missing(need, props, q.result, q.used);
  }

  /** What a visit writes into the object, in order. */
  ghost function VisitWrites(prop: Property, props: seq<Property>, oracle: Oracle, pass: nat, p: Progress): seq<Write> {
    var b := oracle(pass, prop.key, Progress(p.result, p.used + {prop.key}));
    if !Tried(prop, oracle, pass, p, b) || Held(prop, props, p, b) then []
    else if b.ending.Generated? then [Put(prop.key, b.ending.value)]
    else if b.ending.Forced? then b.ending.writes
    else []
  }

  /** A visit is abandoned until the next pass when it is held up or wants siblings to change first. */
  ghost predicate Postponed(prop: Property, props: seq<Property>, oracle: Oracle, pass: nat, p: Progress) {
    exists b :: Tried(prop, oracle, pass, p, b) && (Held(prop, props, p, b) || b.ending.Forced?)
  }

  /** The generator finds no value at all. */
  ghost predicate Fails(prop: Property, props: seq<Property>, oracle: Oracle, pass: nat, p: Progress) {
    exists b :: Tried(prop, oracle, pass, p, b) && !Held(prop, props, p, b) && b.ending.Raised?
  }

  lemma VisitIff(prop: Property, props: seq<Property>, oracle: Oracle, pass: nat, p: Progress)
    ensures var r := Visit(prop, Keys(props), oracle, pass, p);
            && (r.Aborted? <==> Fails(prop, props, oracle, pass, p))
            && (r.Passed? ==>
                  && r.progress.result == Written(p.result, VisitWrites(prop, props, oracle, pass, p))
                  && r.waiting == (if Postponed(prop, props, oracle, pass, p) then [prop.key] else [])
                  && r.progress.used == p.used + if prop.skipped || prop.key in p.result then {} else {prop.key})
  {
    var b := oracle(pass, prop.key, Progress(p.result, p.used + {prop.key}));
    HeldIff(prop, props, p, b);
    assert Tried(prop, oracle, pass, p, b) <==> !prop.skipped && prop.key !in p.result;
    if b.ending.Generated? {
      WrittenOne(p.result, Put(prop.key, b.ending.value));
    }
  }

  lemma WrittenOne(result: map<Key, Value>, w: Write)
    ensures w.Put? ==> Written(result, [w]) == result[w.key := w.value]
  {
    assert [w][..0] == [];
    assert Written(result, [w][..0]) == result;
  }

  // ----- a list of writes -----

  predicate Touches(w: Write, k: Key) {
    (w.Put? || w.Drop?) && w.key == k
  }

  /** The last write on `k` puts `v`. */
  ghost predicate EndsWith(writes: seq<Write>, k: Key, v: Value) {
    exists i :: 0 <= i < |writes| && writes[i] == Put(k, v) && forall j :: i < j < |writes| ==> !Touches(writes[j], k)
  }

  predicate Untouched(writes: seq<Write>, k: Key) {
    forall j :: 0 <= j < |writes| ==> !Touches(writes[j], k)
  }

  ghost predicate Holds(result: map<Key, Value>, k: Key, v: Value) {
    k in result && result[k] == v
  }

  /** After a list of writes a key holds what was last put, or what it held before if nothing touched it. */
  lemma {:induction false} WrittenIff(result: map<Key, Value>, writes: seq<Write>, k: Key, v: Value)
    ensures Holds(Written(result, writes), k, v) <==>
            EndsWith(writes, k, v) || (Untouched(writes, k) && Holds(result, k, v))
  {
    if writes != [] {
      var n := |writes| - 1;
      WrittenIff(result, writes[..n], k, v);
      EndsWithSnoc(writes[..n], writes[n], k, v);
      assert writes == writes[..n] + [writes[n]];
    }
  }

  lemma EndsWithSnoc(writes: seq<Write>, w: Write, k: Key, v: Value)
    ensures EndsWith(writes + [w], k, v) <==> w == Put(k, v) || (!Touches(w, k) && EndsWith(writes, k, v))
    ensures Untouched(writes + [w], k) <==> Untouched(writes, k) && !Touches(w, k)
  {
    var all := writes + [w];
    assert all[|writes|] == w && forall i :: 0 <= i < |writes| ==> all[i] == writes[i];
    if w == Put(k, v) {
      assert EndsWith(all, k, v);
    }
    if !Touches(w, k) && EndsWith(writes, k, v) {
      var i :| 0 <= i < |writes| && writes[i] == Put(k, v) && forall j :: i < j < |writes| ==> !Touches(writes[j], k);
      assert all[i] == Put(k, v);
    }
    if EndsWith(all, k, v) {
      var i :| 0 <= i < |all| && all[i] == Put(k, v) && forall j :: i < j < |all| ==> !Touches(all[j], k);
      if i < |writes| {
        assert writes[i] == Put(k, v);
      }
    }
  }

  lemma {:induction false} WrittenAppend(result: map<Key, Value>, a: seq<Write>, b: seq<Write>)
    ensures Written(result, a + b) == Written(Written(result, a), b)
  {
    if b == [] {
      assert a + b == a;
    } else {
      var n := |b| - 1;
      WrittenAppend(result, a, b[..n]);
      assert (a + b)[..|a| + n] == a + b[..n];
      assert (a + b)[|a| + n] == b[n];
    }
  }

  // ----- one pass -----

  /** Where the pass stands before it visits the i-th property. */
  ghost function Before(props: seq<Property>, oracle: Oracle, pass: nat, p: Progress, i: nat): Progress
    requires i <= |props|
  {
    var r := Pass(props[..i], Keys(props), oracle, pass, p);
    if r.Passed? then r.progress else p
  }

  /** All that the first `n` visits of a pass write. */
  ghost function PassWrites(props: seq<Property>, oracle: Oracle, pass: nat, p: Progress, n: nat): seq<Write>
    requires n <= |props|
  {
    if n == 0 then []
    else PassWrites(props, oracle, pass, p, n - 1)
         + VisitWrites(props[n - 1], props, oracle, pass, Before(props, oracle, pass, p, n - 1))
  }

  /** The properties that one of the first `n` visits postpones, in order. */
  ghost function PassPostponed(props: seq<Property>, oracle: Oracle, pass: nat, p: Progress, n: nat): seq<Key>
    requires n <= |props|
  {
    if n == 0 then []
    else PassPostponed(props, oracle, pass, p, n - 1)
         + if Postponed(props[n - 1], props, oracle, pass, Before(props, oracle, pass, p, n - 1)) then [props[n - 1].key] else []
  }

  /** The i-th visit takes place and fails. */
  ghost predicate FailsAt(props: seq<Property>, oracle: Oracle, pass: nat, p: Progress, i: nat)
    requires i < |props|
  {
    && Pass(props[..i], Keys(props), oracle, pass, p).Passed?
    && Fails(props[i], props, oracle, pass, Before(props, oracle, pass, p, i))
  }

  /** A pass is aborted exactly by a visit that fails. */
  lemma {:induction false} PassAbortsIff(props: seq<Property>, oracle: Oracle, pass: nat, p: Progress, n: nat)
    requires n <= |props|
    ensures Pass(props[..n], Keys(props), oracle, pass, p).Aborted? <==> exists i :: 0 <= i < n && FailsAt(props, oracle, pass, p, i)
  {
    if n > 0 {
      PassAbortsIff(props, oracle, pass, p, n - 1);
      PassLast(props, oracle, pass, p, n);
      assert Pass(props[..n], Keys(props), oracle, pass, p).Aborted? <==>
             Pass(props[..n - 1], Keys(props), oracle, pass, p).Aborted? || FailsAt(props, oracle, pass, p, n - 1);
    }
  }

  /** A pass writes what its visits write, and keeps waiting what they postpone. */
  lemma {:induction false} PassIff(props: seq<Property>, oracle: Oracle, pass: nat, p: Progress, n: nat)
    requires n <= |props| && Pass(props[..n], Keys(props), oracle, pass, p).Passed?
    ensures var r := Pass(props[..n], Keys(props), oracle, pass, p);
            && r.progress.result == Written(p.result, PassWrites(props, oracle, pass, p, n))
            && r.waiting == PassPostponed(props, oracle, pass, p, n)
  {
    if n > 0 {
      PassLast(props, oracle, pass, p, n);
      PassIff(props, oracle, pass, p, n - 1);
    }
  }

  /** The last of `n` visits. */
  lemma PassLast(props: seq<Property>, oracle: Oracle, pass: nat, p: Progress, n: nat)
    requires 0 < n <= |props|
    ensures var r := Pass(props[..n], Keys(props), oracle, pass, p);
            var first := Pass(props[..n - 1], Keys(props), oracle, pass, p);
            var q := Before(props, oracle, pass, p, n - 1);
            && (r.Aborted? <==> first.Aborted? || Fails(props[n - 1], props, oracle, pass, q))
            && (r.Passed? && first.progress.result == Written(p.result, PassWrites(props, oracle, pass, p, n - 1)) ==>
                  r.progress.result == Written(p.result, PassWrites(props, oracle, pass, p, n)))
            && (r.Passed? && first.waiting == PassPostponed(props, oracle, pass, p, n - 1) ==>
                  r.waiting == PassPostponed(props, oracle, pass, p, n))
  {
    var q := Before(props, oracle, pass, p, n - 1);
    assert props[..n] == props[..n - 1] + [props[n - 1]];
    PassSnoc(props[..n - 1], props[n - 1], Keys(props), oracle, pass, p);
    VisitIff(props[n - 1], props, oracle, pass, q);
    WrittenAppend(p.result, PassWrites(props, oracle, pass, p, n - 1), VisitWrites(props[n - 1], props, oracle, pass, q));
  }

  // ----- all passes -----

  /** Where the n-th pass starts. */
  ghost function StartOf(props: seq<Property>, oracle: Oracle, n: nat): Progress
    requires n >= 1
  {
    if n == 1 || NthPass(props, oracle, n - 1).Aborted? then START else NthPass(props, oracle, n - 1).progress
  }

  /** A pass after which another one follows. */
  ghost predicate GoesOn(props: seq<Property>, oracle: Oracle, n: nat)
    requires n >= 1
  {
    NthPass(props, oracle, n).Passed? && NthPass(props, oracle, n).waiting != []
  }

  /** A pass that leaves nothing waiting, with the object as it is then. */
  ghost predicate EndsIn(props: seq<Property>, oracle: Oracle, n: nat, result: map<Key, Value>)
    requires n >= 1
  {
    var pass := NthPass(props, oracle, n);
    pass.Passed? && pass.waiting == [] && pass.progress.result == result
  }

  /** make_seed finishes with its first pass that leaves nothing waiting, if that is among the first 21. */
  lemma FinishedIff(props: seq<Property>, oracle: Oracle, result: map<Key, Value>, n: nat)
    ensures Seeded(props, oracle) == Finished(result, n) <==>
            && 1 <= n <= 21 && (forall m :: 1 <= m < n ==> GoesOn(props, oracle, m))
            && EndsIn(props, oracle, n, result)
  {
    ContinueIff(props, oracle, 0, result, n);
  }

  lemma {:induction false} ContinueIff(props: seq<Property>, oracle: Oracle, loopCount: nat, result: map<Key, Value>, n: nat)
    requires loopCount <= 20
    ensures Continue(props, oracle, loopCount, NthPass(props, oracle, loopCount + 1)) == Finished(result, n) <==>
            && loopCount < n <= 21 && (forall m :: loopCount < m < n ==> GoesOn(props, oracle, m))
            && EndsIn(props, oracle, n, result)
    decreases 21 - loopCount
  {
    var pass := NthPass(props, oracle, loopCount + 1);
    if GoesOn(props, oracle, loopCount + 1) {
      var next := NthPass(props, oracle, loopCount + 2);
      if next.Passed? && loopCount < 20 {
        ContinueIff(props, oracle, loopCount + 1, result, n);
      }
      if next.Aborted? {
        AbortedStays(props, oracle, loopCount + 2, n);
      }
    } else if pass.Aborted? {
      AbortedStays(props, oracle, loopCount + 1, n);
    }
  }

  lemma {:induction false} AbortedStays(props: seq<Property>, oracle: Oracle, m: nat, n: nat)
    requires m >= 1 && NthPass(props, oracle, m).Aborted?
    ensures n >= m ==> NthPass(props, oracle, n).Aborted?
  {
    if n > m {
      AbortedStays(props, oracle, m, n - 1);
    }
  }

  /** All that the first `n` passes write. */
  ghost function SeedWrites(props: seq<Property>, oracle: Oracle, n: nat): seq<Write> {
    if n == 0 then []
    else SeedWrites(props, oracle, n - 1) + PassWrites(props, oracle, n, StartOf(props, oracle, n), |props|)
  }

  lemma OnePassWrites(props: seq<Property>, oracle: Oracle, n: nat)
    requires n >= 1 && NthPass(props, oracle, n).Passed?
    ensures n > 1 ==> NthPass(props, oracle, n - 1).Passed?
    ensures var start := StartOf(props, oracle, n);
            NthPass(props, oracle, n).progress.result ==
            Written(start.result, PassWrites(props, oracle, n, start, |props|))
  {
    assert props[..|props|] == props;
    PassIff(props, oracle, n, StartOf(props, oracle, n), |props|);
  }

  lemma {:induction false} PassesWrite(props: seq<Property>, oracle: Oracle, n: nat)
    requires n >= 1 && NthPass(props, oracle, n).Passed?
    ensures NthPass(props, oracle, n).progress.result == Written(map[], SeedWrites(props, oracle, n))
  {
    OnePassWrites(props, oracle, n);
    if n > 1 {
      PassesWrite(props, oracle, n - 1);
    }
    var first, last := SeedWrites(props, oracle, n - 1), PassWrites(props, oracle, n, StartOf(props, oracle, n), |props|);
    assert StartOf(props, oracle, n).result == Written(map[], first);
    WrittenAppend(map[], first, last);
  }

  /** With or without a negated rule, the finished object holds exactly what was last put under each key. */
  lemma FinishedHolds(props: seq<Property>, oracle: Oracle, k: Key, v: Value)
    requires Seeded(props, oracle).Finished?
    ensures var seed := Seeded(props, oracle);
            Holds(seed.result, k, v) <==> EndsWith(SeedWrites(props, oracle, seed.passes), k, v)
  {
    var seed := Seeded(props, oracle);
    FinishedIff(props, oracle, seed.result, seed.passes);
    PassesWrite(props, oracle, seed.passes);
    WrittenIff(map[], SeedWrites(props, oracle, seed.passes), k, v);
  }

  // ----- without a negated rule -----

  /** This visit generates `v`. */
  ghost predicate Generates(prop: Property, props: seq<Property>, oracle: Oracle, pass: nat, p: Progress, v: Value) {
    exists b :: Tried(prop, oracle, pass, p, b) && !Held(prop, props, p, b) && b.ending == Generated(v)
  }

  lemma VisitHoldsIff(prop: Property, props: seq<Property>, oracle: Oracle, pass: nat, p: Progress, k: Key, v: Value)
    requires NoneNegated(oracle) && Visit(prop, Keys(props), oracle, pass, p).Passed?
    ensures Holds(Visit(prop, Keys(props), oracle, pass, p).progress.result, k, v) <==>
            Holds(p.result, k, v) || (prop.key == k && Generates(prop, props, oracle, pass, p, v))
  {
    var b := oracle(pass, prop.key, Progress(p.result, p.used + {prop.key}));
    HeldIff(prop, props, p, b);
    assert Tried(prop, oracle, pass, p, b) <==> !prop.skipped && prop.key !in p.result;
  }

  lemma {:induction false} PassHoldsIff(props: seq<Property>, oracle: Oracle, pass: nat, p: Progress, n: nat, k: Key, v: Value)
    requires NoneNegated(oracle) && n <= |props| && Pass(props[..n], Keys(props), oracle, pass, p).Passed?
    ensures Holds(Pass(props[..n], Keys(props), oracle, pass, p).progress.result, k, v) <==>
            || Holds(p.result, k, v)
            || exists i :: 0 <= i < n && props[i].key == k
                           && Generates(props[i], props, oracle, pass, Before(props, oracle, pass, p, i), v)
  {
    if n > 0 {
      assert props[..n] == props[..n - 1] + [props[n - 1]];
      PassSnoc(props[..n - 1], props[n - 1], Keys(props), oracle, pass, p);
      PassHoldsIff(props, oracle, pass, p, n - 1, k, v);
      VisitHoldsIff(props[n - 1], props, oracle, pass, Before(props, oracle, pass, p, n - 1), k, v);
    }
  }

  /** The i-th property is given `v` in the m-th pass. */
  ghost predicate GeneratedIn(props: seq<Property>, oracle: Oracle, m: nat, i: nat, v: Value)
    requires m >= 1 && i < |props|
  {
    Generates(props[i], props, oracle, m, Before(props, oracle, m, StartOf(props, oracle, m), i), v)
  }

  ghost predicate GeneratedBy(props: seq<Property>, oracle: Oracle, m: nat, k: Key, v: Value)
    requires m >= 1
  {
    exists i :: 0 <= i < |props| && props[i].key == k && GeneratedIn(props, oracle, m, i, v)
  }

  lemma {:induction false} PassesHoldIff(props: seq<Property>, oracle: Oracle, n: nat, k: Key, v: Value)
    requires NoneNegated(oracle) && n >= 1 && NthPass(props, oracle, n).Passed?
    ensures Holds(NthPass(props, oracle, n).progress.result, k, v) <==>
            exists m :: 1 <= m <= n && GeneratedBy(props, oracle, m, k, v)
  {
    assert props[..|props|] == props;
    PassHoldsIff(props, oracle, n, StartOf(props, oracle, n), |props|, k, v);
    assert Holds(NthPass(props, oracle, n).progress.result, k, v) <==>
           Holds(StartOf(props, oracle, n).result, k, v) || GeneratedBy(props, oracle, n, k, v);
    if n > 1 {
      PassesHoldIff(props, oracle, n - 1, k, v);
    }
  }

  /** Without a negated rule the finished object holds exactly what the generator answered, each value under its own key. */
  lemma ResultIff(props: seq<Property>, oracle: Oracle, k: Key, v: Value)
    requires NoneNegated(oracle) && Seeded(props, oracle).Finished?
    ensures var seed := Seeded(props, oracle);
            Holds(seed.result, k, v) <==> exists m :: 1 <= m <= seed.passes && GeneratedBy(props, oracle, m, k, v)
  {
    var seed := Seeded(props, oracle);
    FinishedIff(props, oracle, seed.result, seed.passes);
    PassesHoldIff(props, oracle, seed.passes, k, v);
  }

  /** A property without needs whose generator answers with a value at once is in the object. */
  lemma IndependentIsStored(props: seq<Property>, oracle: Oracle, i: nat, k: Key)
    requires NoneNegated(oracle) && Seeded(props, oracle).Finished? && i < |props|
    requires !props[i].skipped && props[i].needs == [] && k == props[i].key
    requires forall p :: oracle(1, k, p).ending.Generated?
    ensures k in Seeded(props, oracle).result
  {
    var seed := Seeded(props, oracle);
    var p := Before(props, oracle, 1, START, i);
    FinishedIff(props, oracle, seed.result, seed.passes);
    FirstPassed(props, oracle, seed.passes);
    assert props[..|props|] == props;
    PrefixPassed(props, oracle, 1, START, i, |props|);
    if k in p.result {
      var v := p.result[k];
      PassHoldsIff(props, oracle, 1, START, i, k, v);
      PassHoldsIff(props, oracle, 1, START, |props|, k, v);
      PassesHoldIff(props, oracle, 1, k, v);
      ResultIff(props, oracle, k, v);
    } else {
      var b := oracle(1, k, Progress(p.result, p.used + {k}));
      var v := b.ending.value;
      assert Tried(props[i], oracle, 1, p, b) && !Held(props[i], props, p, b);
      assert GeneratedIn(props, oracle, 1, i, v);
      assert GeneratedBy(props, oracle, 1, k, v);
      ResultIff(props, oracle, k, v);
    }
  }

  lemma FirstPassed(props: seq<Property>, oracle: Oracle, n: nat)
    requires n >= 1 && NthPass(props, oracle, n).Passed?
    ensures NthPass(props, oracle, 1).Passed?
  {
    if NthPass(props, oracle, 1).Aborted? {
      AbortedStays(props, oracle, 1, n);
    }
  }

  lemma {:induction false} PrefixPassed(props: seq<Property>, oracle: Oracle, pass: nat, p: Progress, i: nat, n: nat)
    requires i <= n <= |props| && Pass(props[..n], Keys(props), oracle, pass, p).Passed?
    ensures Pass(props[..i], Keys(props), oracle, pass, p).Passed?
    decreases n
  {
    if i < n {
      assert props[..n] == props[..n - 1] + [props[n - 1]];
      PassSnoc(props[..n - 1], props[n - 1], Keys(props), oracle, pass, p);
      PrefixPassed(props, oracle, pass, p, i, n - 1);
    }
  }

  /** A property that is missing from the finished object is one that is skipped or that came out empty in the last pass. */
  lemma MissingIsEmpty(props: seq<Property>, oracle: Oracle, i: nat)
    requires NoneNegated(oracle) && Seeded(props, oracle).Finished? && i < |props|
    requires !props[i].skipped && props[i].key !in Seeded(props, oracle).result
    ensures var n := Seeded(props, oracle).passes;
            n >= 1 && var p := Before(props, oracle, n, StartOf(props, oracle, n), i);
            exists b :: Tried(props[i], oracle, n, p, b) && !Held(props[i], props, p, b) && b.ending.Empty?
  {
    var seed, k := Seeded(props, oracle), props[i].key;
    var n := seed.passes;
    FinishedIff(props, oracle, seed.result, n);
    var start := StartOf(props, oracle, n);
    var p := Before(props, oracle, n, start, i);
    assert props[..|props|] == props;
    PrefixPassed(props, oracle, n, start, i, |props|);
    PrefixPassed(props, oracle, n, start, i + 1, |props|);
    NonePostponed(props, oracle, n, start, i, |props|);
    if k in p.result {
      PassHoldsIff(props, oracle, n, start, i, k, p.result[k]);
      PassHoldsIff(props, oracle, n, start, |props|, k, p.result[k]);
      assert false;
    }
    var b := oracle(n, k, Progress(p.result, p.used + {k}));
    assert Tried(props[i], oracle, n, p, b);
    PassLast(props, oracle, n, start, i + 1);
    if b.ending.Generated? && !Held(props[i], props, p, b) {
      assert GeneratedIn(props, oracle, n, i, b.ending.value);
      assert GeneratedBy(props, oracle, n, k, b.ending.value);
      ResultIff(props, oracle, k, b.ending.value);
      assert false;
    }
  }

  /** Nothing waits after a pass exactly when no visit was postponed. */
  lemma {:induction false} NonePostponed(props: seq<Property>, oracle: Oracle, pass: nat, p: Progress, i: nat, n: nat)
    requires i < n <= |props| && Pass(props[..n], Keys(props), oracle, pass, p).Passed?
    requires Pass(props[..n], Keys(props), oracle, pass, p).waiting == []
    ensures !Postponed(props[i], props, oracle, pass, Before(props, oracle, pass, p, i))
    decreases n
  {
    PassIff(props, oracle, pass, p, n);
    if i < n - 1 {
      PrefixPassed(props, oracle, pass, p, n - 1, n);
      PassIff(props, oracle, pass, p, n - 1);
      NonePostponed(props, oracle, pass, p, i, n - 1);
    }
  }
}
