/** generate_array_value: how many items an array field gets. */
module ArrayRules {
  import opened Wrappers
  import opened Bounds

  datatype Kind =
    | MinItems(v: int)
    | MaxItems(limit: Option<int>, isVariable: bool)  // a limit that cannot be resolved is None
    | TypeArray
    | RequiredTrue
    | ContentConfiguredBy(known: bool)  // whether any measurand is configured
    | Unsupported

  /** A rule as one call meets it; `choice` is the random number drawn for it. */
  datatype Rule = Rule(kind: Kind, negated: bool, hit: bool, choice: nat)

  datatype Outcome = Items(n: nat) | EmptyValue | OtherType | Aborted

  predicate IsNegated(r: Rule) {
    r.negated
  }

  ghost predicate NoneNegated(rules: seq<Rule>) {
    forall i :: 0 <= i < |rules| ==> !rules[i].negated
  }

  ghost predicate OneNegated(rules: seq<Rule>) {
    AtMostOne(rules, IsNegated)
  }

  function MinRequest(r: Rule): Option<Request> {
    if !r.hit then None
    else
      match r.kind
      case MinItems(v) =>
        if !r.negated then Some(Bound(v, false))
        else if v >= 1 then Some(Bound(r.choice % v, true)) else None
      case MaxItems(limit, _) => if r.negated && limit.Some? then Some(Bound(limit.value + 1, true)) else None
      case _ => None
  }

  function MaxRequest(r: Rule): Option<Request> {
    if !r.hit then None
    else
      match r.kind
      case MinItems(v) => if r.negated && v >= 1 then Some(Bound(r.choice % v, true)) else None
      case MaxItems(limit, _) =>
        if limit.None? then None
        else Some(if r.negated then Bound(limit.value + 2, true) else Bound(limit.value, false))
      case _ => None
  }

  function Exit(r: Rule): Option<Outcome> {
    if !r.hit || !r.negated then None
    else
      match r.kind
      case MinItems(v) => if v < 1 then Some(Aborted) else None
      case MaxItems(limit, isVariable) => if limit.None? && isVariable then Some(Aborted) else None
      case TypeArray => Some(OtherType)
      case RequiredTrue => Some(EmptyValue)
      case ContentConfiguredBy(known) => if known then None else Some(Aborted)
      case Unsupported => Some(Aborted)
  }

  function FirstExit(rules: seq<Rule>): (o: Option<Outcome>)
    ensures o.Some? ==> !o.value.Items?
  {
    if rules == [] then None
    else if Exit(rules[0]).Some? then Exit(rules[0])
    else FirstExit(rules[1..])
  }

  /** The number of items before the check against the largest supported array: the lower bound alone decides. */
  function ItemCount(rules: seq<Rule>): int {
    var min := CreateMin(Requests(rules, MinRequest));
    if min.None? then 0 else min.value.size
  }

  function Length(rules: seq<Rule>): nat {
    if ItemCount(rules) < 0 then 0 else ItemCount(rules)
  }

  /** The part of generate_array_value that settles the length. */
  method GenerateLength(rules: seq<Rule>) returns (r: Outcome)
    ensures r == if FirstExit(rules).Some? then FirstExit(rules).value
                 else if ItemCount(rules) > 1000 then Aborted else Items(Length(rules))
  {
    var min: MinConstraint?, max: MaxConstraint? := null, null;
    ghost var done := [];
    for i := 0 to |rules|
      invariant done == rules[..i]
      invariant FirstExit(rules) == FirstExit(rules[i..])
      invariant (min == null || fresh(min)) && (max == null || fresh(max))
      invariant MinView(min) == CreateMin(Requests(done, MinRequest))
      invariant MaxView(max) == CreateMax(Requests(done, MaxRequest))
    {
      var rule := rules[i];
      assert rules[i..][1..] == rules[i + 1..];
      if Exit(rule).Some? {
        return Exit(rule).value;
      }
      CreateOneMore(done, rule, MinRequest);
      CreateOneMore(done, rule, MaxRequest);
      min, max := ApplyRule(rule, min, max);
      done := done + [rule];
    }
    assert done == rules;
    var size := if min == null then 0 else min.size;
    if size > 1000 {
      return Aborted;
    }
    return Items(if size < 0 then 0 else size);
  }

  /** The effect of one rule on the two bounds. */
  method ApplyRule(rule: Rule, min: MinConstraint?, max: MaxConstraint?)
    returns (min': MinConstraint?, max': MaxConstraint?)
    requires Exit(rule).None?
    modifies min, max
    ensures min' == min || fresh(min')
    ensures max' == max || fresh(max')
    ensures MinView(min') == WithMin(old(MinView(min)), MinRequest(rule))
    ensures MaxView(max') == WithMax(old(MaxView(max)), MaxRequest(rule))
  {
    min', max' := min, max;
    if !rule.hit {
      return;
    }
    match rule.kind {
      case MinItems(v) =>
        if !rule.negated {
          min' := UpdateMin(min, v, false);
        } else {
          var size := rule.choice % v;
          min' := UpdateMin(min, size, true);
          max' := UpdateMax(max, size, true);
        }
      case MaxItems(limit, _) =>
        if limit.Some? {
          if !rule.negated {
            max' := UpdateMax(max, limit.value, false);
          } else {
            min' := UpdateMin(min, limit.value + 1, true);
            max' := UpdateMax(max, limit.value + 2, true);
          }
        }
      case _ =>
    }
  }

  // ----- what the length means -----

  lemma AskerForcesOnlyWhenNegated()
    ensures ForcesOnly(MinRequest, IsNegated)
  {
  }

  /** The length does not depend on the order of the rules. */
  lemma LengthIsOrderFree(rules: seq<Rule>, rules': seq<Rule>)
    requires multiset(rules) == multiset(rules') && OneNegated(rules) && OneNegated(rules')
    ensures Length(rules) == Length(rules')
  {
    AskerForcesOnlyWhenNegated();
    SameRules(rules, rules', MinRequest, IsNegated);
    CreatedIsOrderFree(Requests(rules, MinRequest), Requests(rules', MinRequest));
  }

  /** Without a negated rule the length is the least one that obeys every minimum. */
  lemma LengthIsLeast(rules: seq<Rule>, n: nat)
    requires NoneNegated(rules)
    ensures Length(rules) <= n <==>
            forall i :: 0 <= i < |rules| && rules[i].hit && rules[i].kind.MinItems? ==> rules[i].kind.v <= n
  {
    var rs := Requests(rules, MinRequest);
    AskerForcesOnlyWhenNegated();
    RequestsForceOnce(rules, MinRequest, IsNegated);
    CreateMinSpec(rs);
    if CreateMin(rs).Some? {
      RequestsSpec(rules, MinRequest, CreateMin(rs).value);
    }
    forall i | 0 <= i < |rules| && rules[i].hit && rules[i].kind.MinItems?
      ensures Bound(rules[i].kind.v, false) in rs
    {
      RequestsSpec(rules, MinRequest, Bound(rules[i].kind.v, false));
    }
  }

  /** The maxima are obeyed exactly when they do not contradict the minima, since only the minima decide. */
  lemma LengthObeysMaximaIff(rules: seq<Rule>)
    requires NoneNegated(rules)
    ensures (forall i :: 0 <= i < |rules| && rules[i].hit && rules[i].kind.MaxItems? && rules[i].kind.limit.Some? ==>
                           Length(rules) <= rules[i].kind.limit.value) <==>
            (forall i :: 0 <= i < |rules| && rules[i].hit && rules[i].kind.MaxItems? && rules[i].kind.limit.Some? ==>
                           0 <= rules[i].kind.limit.value
                           && forall j :: 0 <= j < |rules| && rules[j].hit && rules[j].kind.MinItems? ==>
                                            rules[j].kind.v <= rules[i].kind.limit.value)
  {
    forall i | 0 <= i < |rules| && rules[i].hit && rules[i].kind.MaxItems? && rules[i].kind.limit.Some?
      ensures Length(rules) <= rules[i].kind.limit.value <==>
              (0 <= rules[i].kind.limit.value
               && forall j :: 0 <= j < |rules| && rules[j].hit && rules[j].kind.MinItems? ==>
                                rules[j].kind.v <= rules[i].kind.limit.value)
    {
      if 0 <= rules[i].kind.limit.value {
        LengthIsLeast(rules, rules[i].kind.limit.value);
      }
    }
  }

  /** A negated minimum or maximum is broken by the length, whatever the other rules ask. */
  lemma LengthBreaksNegated(rules: seq<Rule>, k: nat)
    requires OneNegated(rules) && k < |rules| && rules[k].negated && rules[k].hit && FirstExit(rules).None?
    ensures Exit(rules[k]).None?
    ensures rules[k].kind.MinItems? ==> rules[k].kind.v > 0 && Length(rules) == rules[k].choice % rules[k].kind.v
    ensures rules[k].kind.MinItems? ==> Length(rules) < rules[k].kind.v
    ensures rules[k].kind.MaxItems? && rules[k].kind.limit.Some? && rules[k].kind.limit.value >= 0 ==>
              Length(rules) == rules[k].kind.limit.value + 1
    ensures rules[k].kind.MaxItems? && rules[k].kind.limit.Some? ==> Length(rules) > rules[k].kind.limit.value
  {
    NoExit(rules, k);
    if MinRequest(rules[k]).Some? {
      var rs, q := Requests(rules, MinRequest), MinRequest(rules[k]).value;
      AskerForcesOnlyWhenNegated();
      RequestsForceOnce(rules, MinRequest, IsNegated);
      RequestsSpec(rules, MinRequest, q);
      CreateMinSpec(rs);
      assert HasForced(rs);
      SameForced(rs, rs, q, CreateMin(rs).value);
    }
  }

  lemma {:induction false} NoExit(rules: seq<Rule>, k: nat)
    requires FirstExit(rules).None? && k < |rules|
    ensures Exit(rules[k]).None?
  {
    if k > 0 {
      NoExit(rules[1..], k - 1);
    }
  }

  // ----- when there is no array -----

  /** The outcome that a negated rule forces at once; `Aborted` is an exception. */
  predicate Decides(r: Rule, o: Outcome) {
    match r
    case Rule(TypeArray, true, true, _) => o == OtherType
    case Rule(RequiredTrue, true, true, _) => o == EmptyValue
    case Rule(MinItems(v), true, true, _) => v <= 0 && o == Aborted
    case Rule(MaxItems(None, true), true, true, _) => o == Aborted
    case Rule(ContentConfiguredBy(false), true, true, _) => o == Aborted
    case Rule(Unsupported, true, true, _) => o == Aborted
    case _ => false
  }

  /** The rule decides, and no rule before it does. */
  ghost predicate DecidesFirst(rules: seq<Rule>, i: int, o: Outcome) {
    0 <= i < |rules| && Decides(rules[i], o) && forall j, p :: 0 <= j < i ==> !Decides(rules[j], p)
  }

  /** The loop is left early exactly by the first rule that decides alone, with what it decides. */
  lemma EarlyIff(rules: seq<Rule>, o: Outcome)
    ensures FirstExit(rules) == Some(o) <==> exists i :: DecidesFirst(rules, i, o)
  {
    var i := DecisionAt(rules);
    if k :| DecidesFirst(rules, k, o) {
      assert k == i;
      assert Exit(rules[k]) == Some(o);
    }
    if i < |rules| {
      assert DecidesFirst(rules, i, FirstExit(rules).value);
    }
  }

  /** The position of the first rule that decides, or the end. */
  lemma {:induction false} DecisionAt(rules: seq<Rule>) returns (i: nat)
    ensures i <= |rules|
    ensures forall j, o :: 0 <= j < i ==> !Decides(rules[j], o)
    ensures if i == |rules| then FirstExit(rules).None? else FirstExit(rules).Some? && FirstExit(rules) == Exit(rules[i])
    ensures i < |rules| ==> Decides(rules[i], FirstExit(rules).value)
  {
    i := 0;
    if rules != [] && Exit(rules[0]).None? {
      i := DecisionAt(rules[1..]);
      assert forall j :: 0 < j < |rules| ==> rules[j] == rules[1..][j - 1];
      i := i + 1;
    }
  }
}
