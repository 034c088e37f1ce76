/** make_seed: the passes over an object's properties that are repeated until none waits for a sibling. */
module Scheduler {
  type Key = string
  type Value = int  // the identity of a generated value

  /** What generating a property may look up in its siblings. */
  datatype Need =
    | FieldCondition(name: Key)     // a rule condition on a sibling
    | SigningDependency(name: Key)  // a sibling whose value a signature is computed from

  /** A property with its needs; a skipped property is never generated. */
  datatype Property = Property(key: Key, skipped: bool, needs: seq<Need>)

  /** The siblings generated so far, and the keys for which generation has been started. */
  datatype Progress = Progress(result: map<Key, Value>, used: set<Key>)

  /** A need that cannot be served yet. */
  predicate Blocked(need: Need, keys: set<Key>, p: Progress) {
    match need
    case FieldCondition(name) => name in keys && name !in p.used
    case SigningDependency(name) => name !in p.result && name !in p.used
  }

  /** What a negated rule may write into the object so that its conditions hold. */
  datatype Write = Put(key: Key, value: Value) | Drop(key: Key) | Nothing

  /**
   What the generator does with a property: it looks up the first `reached` needs, and if none of them is
   blocked it ends with a value, an empty value, an exception, or the wish to force sibling values.
   */
  datatype Behaviour = Behaviour(reached: nat, ending: Ending)

  datatype Ending = Generated(value: Value) | Empty | Raised | Forced(writes: seq<Write>)

  /** The behaviour of every property in every pass. */
  type Oracle = (nat, Key, Progress) -> Behaviour

  datatype PassResult = Aborted | Passed(progress: Progress, waiting: seq<Key>)

  predicate Waits(prop: Property, b: Behaviour, keys: set<Key>, p: Progress) {
    exists i :: 0 <= i < |prop.needs| && i < b.reached && Blocked(prop.needs[i], keys, p)
  }

  function Written(result: map<Key, Value>, writes: seq<Write>): map<Key, Value> {
    if writes == [] then result
    else
      var before := Written(result, writes[..|writes| - 1]);
      match writes[|writes| - 1]
      case Put(k, v) => before[k := v]
      case Drop(k) => before - {k}
      case Nothing => before
  }

  function Keys(props: seq<Property>): set<Key> {
    set p | p in props :: p.key
  }

  /** One property of one pass. */
  function Visit(prop: Property, keys: set<Key>, oracle: Oracle, pass: nat, p: Progress): PassResult {
    if prop.skipped || prop.key in p.result then Passed(p, [])
    else
      var started := p.(used := p.used + {prop.key});
      var b := oracle(pass, prop.key, started);
      if Waits(prop, b, keys, started) then Passed(started, [prop.key])
      else
        match b.ending
        case Generated(v) => Passed(started.(result := started.result[prop.key := v]), [])
        case Empty => Passed(started, [])
        case Raised => Aborted
        case Forced(writes) => Passed(started.(result := Written(started.result, writes)), [prop.key])
  }

  /** One pass: the properties in their order. */
  function Pass(props: seq<Property>, keys: set<Key>, oracle: Oracle, pass: nat, p: Progress): PassResult {
    if props == [] then Passed(p, [])
    else
      var before := Pass(props[..|props| - 1], keys, oracle, pass, p);
      if before.Aborted? then Aborted
      else
        var last := Visit(props[|props| - 1], keys, oracle, pass, before.progress);
        if last.Aborted? then Aborted else Passed(last.progress, before.waiting + last.waiting)
  }

  // ----- the program -----

  /** make_properties_seed */
  method MakePropertiesSeed(props: seq<Property>, oracle: Oracle, pass: nat, p: Progress) returns (r: PassResult)
    ensures r == Pass(props, Keys(props), oracle, pass, p)
  {
    var result, used, waiting := p.result, p.used, [];
    ghost var done := [];
    assert props[..|props|] == props;
    for i := 0 to |props|
      invariant done == props[..i]
      invariant Pass(done, Keys(props), oracle, pass, p) == Passed(Progress(result, used), waiting)
    {
      var prop := props[i];
      PassSnoc(done, prop, Keys(props), oracle, pass, p);
      PassStopsAt(props, i, Keys(props), oracle, pass, p);
      if !prop.skipped && prop.key !in result {
        used := used + {prop.key};
        var b := oracle(pass, prop.key, Progress(result, used));
        if Waits(prop, b, Keys(props), Progress(result, used)) {
          waiting := waiting + [prop.key];
        } else {
          match b.ending {
            case Generated(v) =>
              result := result[prop.key := v];
            case Empty =>
            case Raised =>
              return Aborted;
            case Forced(writes) =>
              waiting := waiting + [prop.key];
              result := Written(result, writes);
          }
        }
      }
      done := done + [prop];
    }
    r := Passed(Progress(result, used), waiting);
  }

  lemma PassSnoc(a: seq<Property>, prop: Property, keys: set<Key>, oracle: Oracle, pass: nat, p: Progress)
    ensures Pass(a + [prop], keys, oracle, pass, p) ==
            var before := Pass(a, keys, oracle, pass, p);
            if before.Aborted? then Aborted
            else
              var last := Visit(prop, keys, oracle, pass, before.progress);
              if last.Aborted? then Aborted else Passed(last.progress, before.waiting + last.waiting)
  {
    assert (a + [prop])[..|a|] == a;
  }

  /** A pass that aborts in one property aborts as a whole. */
  lemma {:induction false} PassStopsAt(props: seq<Property>, i: nat, keys: set<Key>, oracle: Oracle, pass: nat, p: Progress)
    requires i < |props|
    ensures props[..i] + [props[i]] == props[..i + 1]
    ensures Pass(props[..i + 1], keys, oracle, pass, p).Aborted? ==> Pass(props, keys, oracle, pass, p).Aborted?
    decreases |props| - i
  {
    if i + 1 < |props| {
      PassStopsAt(props, i + 1, keys, oracle, pass, p);
      PassSnoc(props[..i + 1], props[i + 1], keys, oracle, pass, p);
    } else {
      assert props[..i + 1] == props;
    }
  }

  const START := Progress(map[], {})

  /** How make_seed ends, and how many passes it made. */
  datatype Seed = Failed(passes: nat) | Finished(result: map<Key, Value>, passes: nat)

  /** make_seed: one pass, and then more while something waits; the twenty-second one is always an error. */
  method MakeSeed(props: seq<Property>, oracle: Oracle) returns (r: Seed)
    ensures r == Seeded(props, oracle)
    ensures 1 <= r.passes <= 22
    ensures r.Finished? ==> r.passes <= 21
  {
    var pass := MakePropertiesSeed(props, oracle, 1, START);
    var loopCount := 0;
    while pass.Passed? && pass.waiting != []
      invariant 0 <= loopCount <= 20
      invariant pass == NthPass(props, oracle, loopCount + 1)
      invariant Seeded(props, oracle) == Continue(props, oracle, loopCount, pass)
      decreases 21 - loopCount
    {
      loopCount := loopCount + 1;
      pass := MakePropertiesSeed(props, oracle, loopCount + 1, pass.progress);
      if pass.Aborted? || loopCount > 20 {
        return Failed(loopCount + 1);
      }
    }
    if pass.Aborted? {
      return Failed(loopCount + 1);
    }
    return Finished(pass.progress.result, loopCount + 1);
  }

  /** The result of the n-th pass, when all passes before it left something waiting. */
  function NthPass(props: seq<Property>, oracle: Oracle, n: nat): PassResult
    requires n >= 1
  {
    if n == 1 then Pass(props, Keys(props), oracle, 1, START)
    else
      var before := NthPass(props, oracle, n - 1);
      if before.Aborted? then Aborted else Pass(props, Keys(props), oracle, n, before.progress)
  }

  /** make_seed from a given number of repetitions on. */
  function Continue(props: seq<Property>, oracle: Oracle, loopCount: nat, pass: PassResult): Seed
    requires loopCount <= 20
    decreases 21 - loopCount
  {
    if pass.Aborted? then Failed(loopCount + 1)
    else if pass.waiting == [] then Finished(pass.progress.result, loopCount + 1)
    else
      var next := Pass(props, Keys(props), oracle, loopCount + 2, pass.progress);
      if next.Aborted? || loopCount == 20 then Failed(loopCount + 2) else Continue(props, oracle, loopCount + 1, next)
  }

  function Seeded(props: seq<Property>, oracle: Oracle): Seed {
    Continue(props, oracle, 0, NthPass(props, oracle, 1))
  }

  // ----- without a negated rule -----

  /** Sibling values are forced only on behalf of a negated rule. */
  ghost predicate NoneNegated(oracle: Oracle) {
    forall pass, key, p :: !oracle(pass, key, p).ending.Forced?
  }

  /** The keys whose generation a pass starts. */
  function Startable(props: seq<Property>): set<Key> {
    set p | p in props && !p.skipped :: p.key
  }

  /** A need that a later pass can serve. */
  predicate Servable(need: Need, props: seq<Property>) {
    match need
    case FieldCondition(name) => name in Keys(props) ==> name in Startable(props)
    case SigningDependency(name) => name in Startable(props)
  }

  /** Every need of every property that is generated can be served. */
  predicate AllServable(props: seq<Property>) {
    forall i, j :: 0 <= i < |props| && !props[i].skipped && 0 <= j < |props[i].needs| ==>
                     Servable(props[i].needs[j], props)
  }

  /** Entries are only added, never changed or removed, and keys are only started. */
  ghost predicate Grows(p: Progress, q: Progress) {
    && p.used <= q.used
    && forall k :: k in p.result ==> k in q.result && q.result[k] == p.result[k]
  }

  /** What is in the result has been started. */
  predicate Tidy(p: Progress) {
    p.result.Keys <= p.used
  }

  lemma {:induction false} PassGrows(props: seq<Property>, keys: set<Key>, oracle: Oracle, pass: nat, p: Progress)
    requires NoneNegated(oracle) && Tidy(p) && Pass(props, keys, oracle, pass, p).Passed?
    ensures var q := Pass(props, keys, oracle, pass, p).progress;
            Grows(p, q) && Tidy(q) && Startable(props) <= q.used && q.used <= p.used + Startable(props)
  {
    if props != [] {
      var n := |props| - 1;
      var a, prop := props[..n], props[n];
      PassGrows(a, keys, oracle, pass, p);
      assert props == a + [prop];
      assert Startable(props) == Startable(a) + if prop.skipped then {} else {prop.key};
    }
  }

  /** When every startable key has been started, nothing waits. */
  lemma {:induction false} NothingWaits(all: seq<Property>, props: seq<Property>, oracle: Oracle, pass: nat, p: Progress)
    requires NoneNegated(oracle) && AllServable(all) && Tidy(p) && Startable(all) <= p.used
    requires forall i :: 0 <= i < |props| ==> props[i] in all
    requires Pass(props, Keys(all), oracle, pass, p).Passed?
    ensures Pass(props, Keys(all), oracle, pass, p).waiting == []
  {
    if props != [] {
      var n := |props| - 1;
      NothingWaits(all, props[..n], oracle, pass, p);
      PassGrows(props[..n], Keys(all), oracle, pass, p);
      VisitDoesNotWait(all, props[n], oracle, pass, Pass(props[..n], Keys(all), oracle, pass, p).progress);
    }
  }

  lemma VisitDoesNotWait(all: seq<Property>, prop: Property, oracle: Oracle, pass: nat, p: Progress)
    requires NoneNegated(oracle) && AllServable(all) && prop in all && Startable(all) <= p.used
    ensures Visit(prop, Keys(all), oracle, pass, p).Passed? ==> Visit(prop, Keys(all), oracle, pass, p).waiting == []
  {
    if !prop.skipped {
      var started := p.(used := p.used + {prop.key});
      forall j | 0 <= j < |prop.needs|
        ensures !Blocked(prop.needs[j], Keys(all), started)
      {
        var i :| 0 <= i < |all| && all[i] == prop;
        assert Servable(all[i].needs[j], all);
      }
    }
  }

  /** Two passes are enough. */
  lemma TwoPasses(props: seq<Property>, oracle: Oracle)
    requires NoneNegated(oracle) && AllServable(props)
    ensures Seeded(props, oracle).passes <= 2
  {
    var first := NthPass(props, oracle, 1);
    if first.Passed? && first.waiting != [] {
      PassGrows(props, Keys(props), oracle, 1, START);
      var second := Pass(props, Keys(props), oracle, 2, first.progress);
      if second.Passed? {
        NothingWaits(props, props, oracle, 2, first.progress);
        assert Continue(props, oracle, 1, second) == Finished(second.progress.result, 2);
      }
    }
  }

  /** The second pass keeps what the first one generated. */
  lemma SecondPassKeepsFirst(props: seq<Property>, oracle: Oracle)
    requires NoneNegated(oracle) && AllServable(props) && Seeded(props, oracle).Finished?
    ensures var first := NthPass(props, oracle, 1);
            first.Passed? && forall k :: k in first.progress.result ==>
                                           k in Seeded(props, oracle).result
                                           && Seeded(props, oracle).result[k] == first.progress.result[k]
  {
    TwoPasses(props, oracle);
    var first := NthPass(props, oracle, 1);
    PassGrows(props, Keys(props), oracle, 1, START);
    if first.waiting != [] {
      var second := Pass(props, Keys(props), oracle, 2, first.progress);
      PassGrows(props, Keys(props), oracle, 2, first.progress);
      NothingWaits(props, props, oracle, 2, first.progress);
      assert Continue(props, oracle, 1, second) == Finished(second.progress.result, 2);
    }
  }

  // ----- the condition is exact -----

  function MostNeeds(props: seq<Property>): (n: nat)
    ensures forall i :: 0 <= i < |props| ==> |props[i].needs| <= n
  {
    if props == [] then 0
    else
      var rest, last := MostNeeds(props[..|props| - 1]), |props[|props| - 1].needs|;
      if last <= rest then rest else last
  }

  /** Optional properties whose rules are all looked at and that all come out empty. */
  function AllEmpty(props: seq<Property>): Oracle {
    (pass, key, p) => Behaviour(MostNeeds(props), Empty)
  }

  /** Nothing is generated, and the waiting property with an unservable need waits in this pass too. */
  lemma {:induction false} EmptyPass(all: seq<Property>, props: seq<Property>, pass: nat, p: Progress)
    requires p.result == map[] && p.used <= Startable(all)
    requires forall i :: 0 <= i < |props| ==> props[i] in all
    ensures var r := Pass(props, Keys(all), AllEmpty(all), pass, p);
            r.Passed? && r.progress.result == map[] && r.progress.used <= Startable(all)
    ensures forall i, j :: 0 <= i < |props| && !props[i].skipped && 0 <= j < |props[i].needs|
                           && !Servable(props[i].needs[j], all) ==>
                             Pass(props, Keys(all), AllEmpty(all), pass, p).waiting != []
  {
    if props != [] {
      var n := |props| - 1;
      EmptyPass(all, props[..n], pass, p);
      var q := Pass(props[..n], Keys(all), AllEmpty(all), pass, p).progress;
      assert props[n] in all;
      EmptyVisit(all, props[n], pass, q);
    }
  }

  lemma EmptyVisit(all: seq<Property>, prop: Property, pass: nat, p: Progress)
    requires p.result == map[] && p.used <= Startable(all) && prop in all
    ensures var r := Visit(prop, Keys(all), AllEmpty(all), pass, p);
            && r.Passed? && r.progress.result == map[] && r.progress.used <= Startable(all)
            && (!prop.skipped && (exists j :: 0 <= j < |prop.needs| && !Servable(prop.needs[j], all)) ==> r.waiting != [])
  {
    if !prop.skipped {
      assert prop.key in Startable(all);
      var started := p.(used := p.used + {prop.key});
      forall j | 0 <= j < |prop.needs| && !Servable(prop.needs[j], all)
        ensures Blocked(prop.needs[j], Keys(all), started)
      {
      }
    }
  }

  lemma {:induction false} NeverEnds(props: seq<Property>, loopCount: nat, pass: PassResult)
    requires !AllServable(props) && loopCount <= 20
    requires pass.Passed? && pass.waiting != []
    requires pass.progress.result == map[] && pass.progress.used <= Startable(props)
    ensures Continue(props, AllEmpty(props), loopCount, pass) == Failed(22)
    decreases 21 - loopCount
  {
    EmptyPass(props, props, loopCount + 2, pass.progress);
    var next := Pass(props, Keys(props), AllEmpty(props), loopCount + 2, pass.progress);
    assert next.waiting != [] by {
      var i, j :| 0 <= i < |props| && !props[i].skipped && 0 <= j < |props[i].needs| && !Servable(props[i].needs[j], props);
    }
    if loopCount < 20 {
      NeverEnds(props, loopCount + 1, next);
    }
  }

  /** Without a negated rule, two passes are always enough exactly when every need can be served. */
  lemma TwoPassesIff(props: seq<Property>)
    ensures AllServable(props) <==>
            forall oracle: Oracle :: NoneNegated(oracle) ==> Seeded(props, oracle).passes <= 2
  {
    if AllServable(props) {
      forall oracle: Oracle | NoneNegated(oracle)
        ensures Seeded(props, oracle).passes <= 2
      {
        TwoPasses(props, oracle);
      }
    } else {
      EmptyPass(props, props, 1, START);
      var first := NthPass(props, AllEmpty(props), 1);
      assert first.waiting != [] by {
        var i, j :| 0 <= i < |props| && !props[i].skipped && 0 <= j < |props[i].needs| && !Servable(props[i].needs[j], props);
      }
      NeverEnds(props, 0, first);
      assert NoneNegated(AllEmpty(props));
      assert Seeded(props, AllEmpty(props)).passes == 22;
    }
  }
}
