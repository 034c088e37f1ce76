/** The "force" bounds of the generator: sizes, lengths and item counts are all merged in this way. */
module Bounds {
  import opened Wrappers

  datatype Bound = Bound(size: int, force: bool)

  /** One call of `set` on a bound. */
  type Request = Bound

  /** A forced bound stays; a forced request replaces an unforced bound; otherwise the larger lower bound wins. */
  function SetMin(b: Bound, r: Request): Bound {
    if b.force then b else if r.force || r.size > b.size then r else b
  }

  function Negated(b: Bound): Bound {
    Bound(-b.size, b.force)
  }

  /** The same for upper bounds, where the smaller one wins. */
  function SetMax(b: Bound, r: Request): Bound {
    Negated(SetMin(Negated(b), Negated(r)))
  }

  /** MinSizeConstraint, MinItemConstraint and MinLengthConstraint */
  class MinConstraint {
    var size: int
    var force: bool

    constructor (size: int, force: bool)
      ensures this.size == size && this.force == force
    {
      this.size, this.force := size, force;
    }

    method Set(size: int, force: bool)
      modifies this
      ensures Bound(this.size, this.force) == SetMin(old(Bound(this.size, this.force)), Bound(size, force))
    {
      if this.force {
        return;
      }
      if force {
        this.size := size;
        this.force := force;
      } else if size > this.size {
        this.size := size;
        this.force := force;
      }
    }
  }

  /** MaxSizeConstraint, MaxItemConstraint and MaxLengthConstraint */
  class MaxConstraint {
    var size: int
    var force: bool

    constructor (size: int, force: bool)
      ensures this.size == size && this.force == force
    {
      this.size, this.force := size, force;
    }

    method Set(size: int, force: bool)
      modifies this
      ensures Bound(this.size, this.force) == SetMax(old(Bound(this.size, this.force)), Bound(size, force))
    {
      if this.force {
        return;
      }
      if force {
        this.size := size;
        this.force := force;
      } else if size < this.size {
        this.size := size;
        this.force := force;
      }
    }
  }

  // ----- merging a sequence of requests -----

  function MergeMin(b: Bound, rs: seq<Request>): Bound {
    if rs == [] then b else SetMin(MergeMin(b, rs[..|rs| - 1]), rs[|rs| - 1])
  }

  function NegatedAll(rs: seq<Request>): (ns: seq<Request>)
    ensures |ns| == |rs| && forall i :: 0 <= i < |rs| ==> ns[i] == Negated(rs[i])
  {
    seq(|rs|, i requires 0 <= i < |rs| => Negated(rs[i]))
  }

  function MergeMax(b: Bound, rs: seq<Request>): Bound {
    if rs == [] then b else SetMax(MergeMax(b, rs[..|rs| - 1]), rs[|rs| - 1])
  }

  ghost predicate OneForced(rs: seq<Request>) {
    forall i, j :: 0 <= i < j < |rs| ==> !(rs[i].force && rs[j].force)
  }

  ghost predicate HasForced(rs: seq<Request>) {
    exists i :: 0 <= i < |rs| && rs[i].force
  }

  /** The only forced request decides; without one, the result is the greatest of the start and the requests. */
  ghost predicate IsMin(b: Bound, rs: seq<Request>, m: Bound) {
    if HasForced(rs) then m in rs && m.force
    else (m == b || m in rs) && b.size <= m.size && forall i :: 0 <= i < |rs| ==> rs[i].size <= m.size
  }

  ghost predicate IsMax(b: Bound, rs: seq<Request>, m: Bound) {
    if HasForced(rs) then m in rs && m.force
    else (m == b || m in rs) && m.size <= b.size && forall i :: 0 <= i < |rs| ==> m.size <= rs[i].size
  }

  lemma {:induction false} MergeMinSpec(b: Bound, rs: seq<Request>)
    requires !b.force && OneForced(rs)
    ensures IsMin(b, rs, MergeMin(b, rs))
  {
    if rs != [] {
      var n := |rs| - 1;
      var before := rs[..n];
      MergeMinSpec(b, before);
      assert forall i :: 0 <= i < n ==> before[i] == rs[i];
      assert HasForced(rs) <==> HasForced(before) || rs[n].force;
      assert rs[n] in rs;
    }
  }

  lemma {:induction false} MergeMaxMirrors(b: Bound, rs: seq<Request>)
    ensures MergeMax(b, rs) == Negated(MergeMin(Negated(b), NegatedAll(rs)))
  {
    if rs != [] {
      MergeMaxMirrors(b, rs[..|rs| - 1]);
      assert NegatedAll(rs)[..|rs| - 1] == NegatedAll(rs[..|rs| - 1]);
    }
  }

  lemma MergeMaxSpec(b: Bound, rs: seq<Request>)
    requires !b.force && OneForced(rs)
    ensures IsMax(b, rs, MergeMax(b, rs))
  {
    var ns := NegatedAll(rs);
    MergeMaxMirrors(b, rs);
    MergeMinSpec(Negated(b), ns);
    var m := MergeMin(Negated(b), ns);
    assert HasForced(rs) <==> HasForced(ns) by {
      assert forall i :: 0 <= i < |rs| ==> ns[i].force == rs[i].force;
    }
    if m in ns {
      var i :| 0 <= i < |ns| && ns[i] == m;
      assert rs[i] == Negated(m);
    }
    assert forall i :: 0 <= i < |rs| ==> ns[i].size == -rs[i].size;
  }

  // ----- order does not matter -----

  /** The same requests, in any order. */
  ghost predicate SameRequests(a: seq<Request>, b: seq<Request>) {
    forall r :: r in a <==> r in b
  }

  lemma SameForced(a: seq<Request>, b: seq<Request>, x: Request, y: Request)
    requires SameRequests(a, b) && OneForced(a)
    requires x in a && x.force && y in b && y.force
    ensures x == y
  {
    var i :| 0 <= i < |a| && a[i] == x;
    var j :| 0 <= j < |a| && a[j] == y;
  }

  lemma MinIsOrderFree(b: Bound, rs: seq<Request>, rs': seq<Request>)
    requires !b.force && OneForced(rs) && OneForced(rs') && SameRequests(rs, rs')
    ensures MergeMin(b, rs) == MergeMin(b, rs')
  {
    MergeMinSpec(b, rs);
    MergeMinSpec(b, rs');
    var m, m' := MergeMin(b, rs), MergeMin(b, rs');
    assert HasForced(rs) <==> HasForced(rs') by {
      assert forall i :: 0 <= i < |rs| ==> rs[i] in rs';
      assert forall i :: 0 <= i < |rs'| ==> rs'[i] in rs;
    }
    if HasForced(rs) {
      SameForced(rs, rs', m, m');
    } else {
      assert m in rs ==> m in rs' && !m.force;
      assert m' in rs' ==> m' in rs && !m'.force;
    }
  }

  lemma MaxIsOrderFree(b: Bound, rs: seq<Request>, rs': seq<Request>)
    requires !b.force && OneForced(rs) && OneForced(rs') && SameRequests(rs, rs')
    ensures MergeMax(b, rs) == MergeMax(b, rs')
  {
    var ns, ns' := NegatedAll(rs), NegatedAll(rs');
    MergeMaxMirrors(b, rs);
    MergeMaxMirrors(b, rs');
    forall r
      ensures r in ns <==> r in ns'
    {
      NegatedIn(rs, r);
      NegatedIn(rs', r);
    }
    MinIsOrderFree(Negated(b), ns, ns');
  }

  lemma NegatedIn(rs: seq<Request>, r: Request)
    ensures r in NegatedAll(rs) <==> Negated(r) in rs
  {
    if i :| 0 <= i < |rs| && rs[i] == Negated(r) {
      assert NegatedAll(rs)[i] == r;
    }
  }

  // ----- bounds that start out absent -----

  /** The value of a bound object that may still be missing. */
  ghost function MinView(c: MinConstraint?): Option<Bound>
    reads c
  {
    if c == null then None else Some(Bound(c.size, c.force))
  }

  ghost function MaxView(c: MaxConstraint?): Option<Bound>
    reads c
  {
    if c == null then None else Some(Bound(c.size, c.force))
  }

  /** The first request creates the bound. */
  function WithMin(b: Option<Bound>, r: Option<Request>): Option<Bound> {
    if r.None? then b else if b.None? then r else Some(SetMin(b.value, r.value))
  }

  function WithMax(b: Option<Bound>, r: Option<Request>): Option<Bound> {
    if r.None? then b else if b.None? then r else Some(SetMax(b.value, r.value))
  }

  /** MinItemConstraint.update and MinLengthConstraint.update */
  method UpdateMin(c: MinConstraint?, size: int, force: bool) returns (r: MinConstraint)
    modifies c
    ensures r == c || fresh(r)
    ensures MinView(r) == WithMin(old(MinView(c)), Some(Bound(size, force)))
  {
    if c == null {
      r := new MinConstraint(size, force);
    } else {
      c.Set(size, force);
      r := c;
    }
  }

  /** MaxItemConstraint.update and MaxLengthConstraint.update */
  method UpdateMax(c: MaxConstraint?, size: int, force: bool) returns (r: MaxConstraint)
    modifies c
    ensures r == c || fresh(r)
    ensures MaxView(r) == WithMax(old(MaxView(c)), Some(Bound(size, force)))
  {
    if c == null {
      r := new MaxConstraint(size, force);
    } else {
      c.Set(size, force);
      r := c;
    }
  }

  function CreateMin(rs: seq<Request>): Option<Bound> {
    if rs == [] then None else WithMin(CreateMin(rs[..|rs| - 1]), Some(rs[|rs| - 1]))
  }

  function CreateMax(rs: seq<Request>): Option<Bound> {
    if rs == [] then None else WithMax(CreateMax(rs[..|rs| - 1]), Some(rs[|rs| - 1]))
  }

  ghost predicate Below(b: Bound, rs: seq<Request>) {
    !b.force && forall i :: 0 <= i < |rs| ==> b.size < rs[i].size
  }

  ghost predicate Above(b: Bound, rs: seq<Request>) {
    !b.force && forall i :: 0 <= i < |rs| ==> rs[i].size < b.size
  }

  /** An absent bound behaves like one that every request beats. */
  lemma {:induction false} CreateMinIsMerge(b: Bound, rs: seq<Request>)
    requires Below(b, rs)
    ensures CreateMin(rs) == if rs == [] then None else Some(MergeMin(b, rs))
  {
    if rs != [] {
      CreateMinIsMerge(b, rs[..|rs| - 1]);
    }
  }

  lemma {:induction false} CreateMaxIsMerge(b: Bound, rs: seq<Request>)
    requires Above(b, rs)
    ensures CreateMax(rs) == if rs == [] then None else Some(MergeMax(b, rs))
  {
    if rs != [] {
      CreateMaxIsMerge(b, rs[..|rs| - 1]);
    }
  }

  lemma {:induction false} SomethingBelow(rs: seq<Request>) returns (b: Bound)
    ensures Below(b, rs)
  {
    if rs == [] {
      b := Bound(0, false);
    } else {
      b := SomethingBelow(rs[..|rs| - 1]);
      b := Bound(if b.size < rs[|rs| - 1].size then b.size else rs[|rs| - 1].size - 1, false);
    }
  }

  lemma {:induction false} SomethingAbove(rs: seq<Request>) returns (b: Bound)
    ensures Above(b, rs)
  {
    if rs == [] {
      b := Bound(0, false);
    } else {
      b := SomethingAbove(rs[..|rs| - 1]);
      b := Bound(if rs[|rs| - 1].size < b.size then b.size else rs[|rs| - 1].size + 1, false);
    }
  }

  /** The created bound: absent without requests, the forced request if there is one, otherwise the greatest. */
  lemma CreateMinSpec(rs: seq<Request>)
    requires OneForced(rs)
    ensures CreateMin(rs).None? <==> rs == []
    ensures CreateMin(rs).Some? ==>
              && CreateMin(rs).value in rs
              && (HasForced(rs) ==> CreateMin(rs).value.force)
              && (!HasForced(rs) ==> forall i :: 0 <= i < |rs| ==> rs[i].size <= CreateMin(rs).value.size)
  {
    var b := SomethingBelow(rs);
    CreateMinIsMerge(b, rs);
    MergeMinSpec(b, rs);
    if rs != [] {
      assert b.size < rs[0].size;
    }
  }

  lemma CreateMaxSpec(rs: seq<Request>)
    requires OneForced(rs)
    ensures CreateMax(rs).None? <==> rs == []
    ensures CreateMax(rs).Some? ==>
              && CreateMax(rs).value in rs
              && (HasForced(rs) ==> CreateMax(rs).value.force)
              && (!HasForced(rs) ==> forall i :: 0 <= i < |rs| ==> CreateMax(rs).value.size <= rs[i].size)
  {
    var b := SomethingAbove(rs);
    CreateMaxIsMerge(b, rs);
    MergeMaxSpec(b, rs);
    if rs != [] {
      assert rs[0].size < b.size;
    }
  }

  lemma CreatedIsOrderFree(rs: seq<Request>, rs': seq<Request>)
    requires OneForced(rs) && OneForced(rs') && SameRequests(rs, rs')
    ensures CreateMin(rs) == CreateMin(rs') && CreateMax(rs) == CreateMax(rs')
  {
    var lo := SomethingBelow(rs);
    var hi := SomethingAbove(rs);
    forall i | 0 <= i < |rs'|
      ensures rs'[i] in rs
    {
    }
    CreateMinIsMerge(lo, rs);
    CreateMinIsMerge(lo, rs');
    CreateMaxIsMerge(hi, rs);
    CreateMaxIsMerge(hi, rs');
    MinIsOrderFree(lo, rs, rs');
    MaxIsOrderFree(hi, rs, rs');
    assert rs != [] ==> rs[0] in rs';
  }

  // ----- requests made by rules -----

  /** The requests of a list of rules, in the order of the rules; a rule makes at most one to a bound. */
  function Requests<R>(rules: seq<R>, ask: R -> Option<Request>): seq<Request> {
    if rules == [] then []
    else
      var last := ask(rules[|rules| - 1]);
      Requests(rules[..|rules| - 1], ask) + if last.Some? then [last.value] else []
  }

  ghost predicate AtMostOne<R>(rules: seq<R>, p: R -> bool) {
    forall i, j :: 0 <= i < j < |rules| ==> !(p(rules[i]) && p(rules[j]))
  }

  /** Only rules of one kind, the negated ones, make forced requests. */
  ghost predicate ForcesOnly<R(!new)>(ask: R -> Option<Request>, negated: R -> bool) {
    forall r :: ask(r).Some? && ask(r).value.force ==> negated(r)
  }

  lemma {:induction false} RequestsSpec<R>(rules: seq<R>, ask: R -> Option<Request>, q: Request)
    ensures q in Requests(rules, ask) <==> exists i :: 0 <= i < |rules| && ask(rules[i]) == Some(q)
  {
    if rules != [] {
      var n := |rules| - 1;
      RequestsSpec(rules[..n], ask, q);
      assert forall i :: 0 <= i < n ==> rules[..n][i] == rules[i];
      assert ask(rules[n]) == Some(q) ==> q in Requests(rules, ask);
    }
  }

  lemma {:induction false} RequestsForceOnce<R(!new)>(rules: seq<R>, ask: R -> Option<Request>, negated: R -> bool)
    requires ForcesOnly(ask, negated) && AtMostOne(rules, negated)
    ensures OneForced(Requests(rules, ask))
    ensures HasForced(Requests(rules, ask)) ==> exists i :: 0 <= i < |rules| && negated(rules[i])
  {
    if rules != [] {
      var n := |rules| - 1;
      RequestsForceOnce(rules[..n], ask, negated);
      assert forall i :: 0 <= i < n ==> rules[..n][i] == rules[i];
    }
  }

  lemma SameRules<R(!new)>(rules: seq<R>, rules': seq<R>, ask: R -> Option<Request>, negated: R -> bool)
    requires multiset(rules) == multiset(rules') && ForcesOnly(ask, negated)
    requires AtMostOne(rules, negated) && AtMostOne(rules', negated)
    ensures SameRequests(Requests(rules, ask), Requests(rules', ask))
    ensures OneForced(Requests(rules, ask)) && OneForced(Requests(rules', ask))
  {
    RequestsForceOnce(rules, ask, negated);
    RequestsForceOnce(rules', ask, negated);
    assert forall r :: r in rules <==> r in multiset(rules);
    assert forall r :: r in rules' <==> r in multiset(rules');
    forall q
      ensures q in Requests(rules, ask) <==> q in Requests(rules', ask)
    {
      RequestsSpec(rules, ask, q);
      RequestsSpec(rules', ask, q);
      assert (exists i :: 0 <= i < |rules| && ask(rules[i]) == Some(q)) <==> (exists r :: r in rules && ask(r) == Some(q));
      assert (exists i :: 0 <= i < |rules'| && ask(rules'[i]) == Some(q)) <==> (exists r :: r in rules' && ask(r) == Some(q));
    }
  }

  lemma SnocRequest<R>(rules: seq<R>, r: R, ask: R -> Option<Request>)
    ensures ask(r).None? ==> Requests(rules + [r], ask) == Requests(rules, ask)
    ensures ask(r).Some? ==> Requests(rules + [r], ask) == Requests(rules, ask) + [ask(r).value]
    ensures ask(r).Some? ==> Requests(rules + [r], ask)[..|Requests(rules + [r], ask)| - 1] == Requests(rules, ask)
  {
    assert (rules + [r])[..|rules|] == rules;
  }

  lemma CreateOneMore<R>(rules: seq<R>, r: R, ask: R -> Option<Request>)
    ensures CreateMin(Requests(rules + [r], ask)) == WithMin(CreateMin(Requests(rules, ask)), ask(r))
    ensures CreateMax(Requests(rules + [r], ask)) == WithMax(CreateMax(Requests(rules, ask)), ask(r))
  {
    SnocRequest(rules, r, ask);
  }

  predicate Any<R>(rules: seq<R>, p: R -> bool) {
    exists i :: 0 <= i < |rules| && p(rules[i])
  }

  lemma AnyOneMore<R>(rules: seq<R>, r: R, p: R -> bool)
    ensures Any(rules + [r], p) <==> Any(rules, p) || p(r)
  {
    assert forall j :: 0 <= j < |rules| ==> (rules + [r])[j] == rules[j];
    assert (rules + [r])[|rules|] == r;
  }

  /** The same, seen from the last rule of a list. */
  lemma AnyLast<R>(rules: seq<R>, p: R -> bool)
    requires rules != []
    ensures Any(rules, p) <==> Any(rules[..|rules| - 1], p) || p(rules[|rules| - 1])
  {
    AnyOneMore(rules[..|rules| - 1], rules[|rules| - 1], p);
    assert rules == rules[..|rules| - 1] + [rules[|rules| - 1]];
  }

  lemma CreateLast<R>(rules: seq<R>, ask: R -> Option<Request>)
    requires rules != []
    ensures var init, last := rules[..|rules| - 1], ask(rules[|rules| - 1]);
            && CreateMin(Requests(rules, ask)) == WithMin(CreateMin(Requests(init, ask)), last)
            && CreateMax(Requests(rules, ask)) == WithMax(CreateMax(Requests(init, ask)), last)
  {
    CreateOneMore(rules[..|rules| - 1], rules[|rules| - 1], ask);
    assert rules == rules[..|rules| - 1] + [rules[|rules| - 1]];
  }
}
