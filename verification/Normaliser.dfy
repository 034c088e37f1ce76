/** get_equivalent_rule: the ordered rewrites that bring a rule into the form the rule sets compare. */
module Normaliser {
  import opened Wrappers
  import opened RuleModel
  import opened Classifier

  // ----- the rewrites, in the order in which they are applied -----

  /** The three rewrites that are guarded by the classifier's verdict. */
  function RewriteByClass(c: Constraint, k: Verdict): Constraint
    requires c.values != []
  {
    if k == Found(VALUE_FROM) && |c.values| > 1 then Constraint(Value, In, c.values)
    else if k == Found(STATUS_EQUAL) then Constraint(Values, Equal, c.values)
    else if k == Found(TYPE_EQUAL) && c.values[0].DateTimeType? then Constraint(Format, Equal, [DateTimeFormat])
    else c
  }

  /** The rewrites before the conditions are looked at. */
  function RewriteAttribute(c: Constraint): Constraint
    requires c.values != []
  {
    if c.attribute.Optional? && c.operator.Equal? && c.values[0].False? then Constraint(Required, Equal, [True])
    else if c.attribute.Minimum? && c.operator.Equal? then Constraint(Values, Ge, c.values)
    else if c.attribute == Variable("") && c.operator.Equal? && CurrencyVariable in c.values
    then Constraint(Values, Equal, c.values)
    else c
  }

  /** The operator rewrites after the conditions. */
  function RewriteOperator(c: Constraint): Constraint {
    if c.attribute.Values? && c.operator.Equal? && |c.values| > 1 then c.(operator := In)
    else if c.operator.Custom? then c.(operator := Equal)
    else if c.attribute.Values? && c.operator.RequiredOperator? then c.(attribute := Required, operator := Equal)
    else c
  }

  /** The last rewrites, of formats, item counts and type names. */
  function RewriteFormat(c: Constraint): Constraint
    requires c.values != []
  {
    if c.attribute.Format? && c.operator.Equal? && c.values[0].Base64? then c.(attribute := Encoding)
    else if c.attribute.MinItems? && c.operator.Ge? then c.(operator := Equal)
    else if c.attribute.Format? && c.operator.Equal? && c.values[0].Uri? then c.(values := c.values[0 := Url])
    else c
  }

  function RewriteTypeName(c: Constraint): Constraint {
    if c.values != [] && c.values[0].Decimal? then c.(values := c.values[0 := NumberText]) else c
  }

  function Rewrite(c: Constraint, k: Verdict): (r: Constraint)
    requires c.values != []
    ensures r.values != []
  {
    RewriteTypeName(RewriteFormat(RewriteOperator(RewriteAttribute(RewriteByClass(c, k)))))
  }

  function RewriteCondition(c: Condition): Condition {
    var c1 := if c.attribute.IncludedCertificateType? && c.operator.Equal?
              then Condition(CertificateType, Some(SignCertificateRequest), ProvidedOperator, c.values) else c;
    var c2 := if c1.attribute.EqualAttribute? then c1.(attribute := Values) else c1;
    var c3 := if c2.target == Some(CentralContractValidation) then c2.(target := Some(CentralContractVariable)) else c2;
    if c3.target == Some(FirstTransactionEvent)
    then c3.(attribute := FirstEventAfterEVConnection, target := Some(Context)) else c3
  }

  function RewriteConditions(cs: seq<Condition>): (r: seq<Condition>)
    ensures |r| == |cs| && forall i :: 0 <= i < |cs| ==> r[i] == RewriteCondition(cs[i])
  {
    seq(|cs|, i requires 0 <= i < |cs| => RewriteCondition(cs[i]))
  }

  /** An empty condition list becomes no list. */
  function NormalConditions(cs: Option<seq<Condition>>): Option<seq<Condition>> {
    if cs.None? || cs.value == [] then None else Some(RewriteConditions(cs.value))
  }

  /** Reading the first value of an empty list raises, in the two rewrites that are not guarded against it. */
  predicate ReadsMissingValue(c: Constraint) {
    && c.values == []
    && (|| (c.attribute.Optional? && c.operator.Equal?)
        || (c.attribute.Format? && (c.operator.Equal? || c.operator.Custom?)))
  }

  /** The normalised rule, or nothing when the program raises an exception. */
  function Normalised(r: Rule): Option<Rule> {
    if Classify(r.constraint) == Raised || ReadsMissingValue(r.constraint) then None
    else Some(Rule(r.causes, NormalConditions(r.conditions),
                   if r.constraint.values == [] then RewriteValueless(r.constraint)
                   else Rewrite(r.constraint, Classify(r.constraint))))
  }

  /** The rewrites that apply to a constraint without values. */
  function RewriteValueless(c: Constraint): Constraint {
    RewriteLateValueless(if c.attribute.Minimum? && c.operator.Equal? then Constraint(Values, Ge, []) else c)
  }

  function RewriteLateValueless(c: Constraint): Constraint {
    if c.operator.Custom? then c.(operator := Equal)
    else if c.attribute.Values? && c.operator.RequiredOperator? then c.(attribute := Required, operator := Equal)
    else if c.attribute.MinItems? && c.operator.Ge? then c.(operator := Equal)
    else c
  }

  // ----- the program -----

  /** A rule object, whose constraint and conditions are rewritten in place. */
  class RuleObject {
    var constraint: Constraint
    var conditions: Option<seq<Condition>>

    constructor (constraint: Constraint, conditions: Option<seq<Condition>>)
      ensures this.constraint == constraint && this.conditions == conditions
    {
      this.constraint, this.conditions := constraint, conditions;
    }

    ghost function AsRule(causes: seq<Cause>): Rule
      reads this
    {
      Rule(causes, conditions, constraint)
    }

    /** get_equivalent_rule; `false` stands for an exception, after which the object may be half rewritten. */
    method GetEquivalentRule() returns (ok: bool)
      modifies this
      ensures ok <==> old(Normalised(AsRule([]))).Some?
      ensures ok ==> AsRule([]) == old(Normalised(AsRule([]))).value
    {
      var k := Classify(constraint);
      if k == Raised {
        return false;
      }
      ok := RewriteEarly(k);
      if !ok {
        return;
      }
      if conditions.Some? {
        EquivalentConditions();
      }
      ok := RewriteLate();
      if conditions == Some([]) {
        conditions := None;
      }
    }

    /** The rewrites before the conditions. */
    method RewriteEarly(k: Verdict) returns (ok: bool)
      requires k == Classify(constraint)
      modifies this`constraint
      ensures ok <==> !(old(constraint).values == [] && old(constraint).attribute.Optional? && old(constraint).operator.Equal?)
      ensures ok && old(constraint).values != [] ==> constraint == RewriteAttribute(RewriteByClass(old(constraint), k))
      ensures ok && old(constraint).values == [] ==>
                constraint == if old(constraint).attribute.Minimum? && old(constraint).operator.Equal?
                              then Constraint(Values, Ge, []) else old(constraint)
    {
      ClassifyExplained(constraint);
      if k == Found(VALUE_FROM) && |constraint.values| > 1 {
        constraint := Constraint(Value, In, constraint.values);
      }
      if k == Found(STATUS_EQUAL) {
        constraint := Constraint(Values, Equal, constraint.values);
      }
      if k == Found(TYPE_EQUAL) && constraint.values[0].DateTimeType? {
        constraint := Constraint(Format, Equal, [DateTimeFormat]);
      }
      if constraint.attribute.Optional? && constraint.operator.Equal? {
        if constraint.values == [] {
          return false;
        }
        if constraint.values[0].False? {
          constraint := Constraint(Required, Equal, [True]);
        }
      }
      if constraint.attribute.Minimum? && constraint.operator.Equal? {
        constraint := Constraint(Values, Ge, constraint.values);
      }
      if constraint.attribute == Variable("") && constraint.operator.Equal? {
        if CurrencyVariable in constraint.values {
          constraint := Constraint(Values, Equal, constraint.values);
        }
      }
      return true;
    }

    /** The loop over the conditions. */
    method EquivalentConditions()
      requires conditions.Some?
      modifies this`conditions
      ensures conditions == Some(RewriteConditions(old(conditions).value))
    {
      var cs := conditions.value;
      ghost var was := cs;
      for i := 0 to |cs|
        invariant |cs| == |was|
        invariant forall j :: 0 <= j < i ==> cs[j] == RewriteCondition(was[j])
        invariant forall j :: i <= j < |cs| ==> cs[j] == was[j]
      {
        if cs[i].attribute.IncludedCertificateType? && cs[i].operator.Equal? {
          cs := cs[i := Condition(CertificateType, Some(SignCertificateRequest), ProvidedOperator, cs[i].values)];
        }
        if cs[i].attribute.EqualAttribute? {
          cs := cs[i := cs[i].(attribute := Values)];
        }
        if cs[i].target == Some(CentralContractValidation) {
          cs := cs[i := cs[i].(target := Some(CentralContractVariable))];
        }
        if cs[i].target == Some(FirstTransactionEvent) {
          cs := cs[i := cs[i].(attribute := FirstEventAfterEVConnection, target := Some(Context))];
        }
      }
      assert cs == RewriteConditions(was);
      conditions := Some(cs);
    }

    /** The rewrites after the conditions. */
    method RewriteLate() returns (ok: bool)
      modifies this`constraint
      ensures ok <==> !(old(constraint).values == [] && old(constraint).attribute.Format?
                        && (old(constraint).operator.Equal? || old(constraint).operator.Custom?))
      ensures ok && old(constraint).values != [] ==>
                constraint == RewriteTypeName(RewriteFormat(RewriteOperator(old(constraint))))
      ensures ok && old(constraint).values == [] ==> constraint == RewriteLateValueless(old(constraint))
    {
      if constraint.attribute.Values? && constraint.operator.Equal? {
        if |constraint.values| > 1 {
          constraint := constraint.(operator := In);
        }
      }
      if constraint.operator.Custom? {
        constraint := constraint.(operator := Equal);
      }
      if constraint.attribute.Values? && constraint.operator.RequiredOperator? {
        constraint := constraint.(attribute := Required, operator := Equal);
      }
      if constraint.attribute.Format? && constraint.operator.Equal? {
        if constraint.values == [] {
          return false;
        }
        if constraint.values[0].Base64? {
          constraint := constraint.(attribute := Encoding);
        }
      }
      if constraint.attribute.MinItems? && constraint.operator.Ge? {
        constraint := constraint.(operator := Equal);
      }
      if constraint.attribute.Format? && constraint.operator.Equal? && constraint.values[0].Uri? {
        constraint := constraint.(values := constraint.values[0 := Url]);
      }
      if constraint.values != [] && constraint.values[0].Decimal? {
        constraint := constraint.(values := constraint.values[0 := NumberText]);
      }
      return true;
    }
  }

  // ----- normal forms and fixed points -----

  /** None of the rewrites before the conditions applies. */
  predicate IsEarlyNormal(c: Constraint)
    requires c.values != []
  {
    var a, o, v := c.attribute, c.operator, c.values[0];
    && !(IsValueFrom(c) && |c.values| > 1)
    && !IsStatusEqual(c)
    && !(IsTypeEqual(c) && v.DateTimeType?)
    && !(a.Optional? && o.Equal? && v.False?)
    && !(a.Minimum? && o.Equal?)
    && !(a == Variable("") && o.Equal? && CurrencyVariable in c.values)
  }

  /** No rewrite applies to the constraint. */
  predicate IsNormal(c: Constraint)
    requires c.values != []
  {
    var a, o, v := c.attribute, c.operator, c.values[0];
    && IsEarlyNormal(c)
    && !(a.Values? && o.Equal? && |c.values| > 1)
    && !o.Custom?
    && !(a.Values? && o.RequiredOperator?)
    && !(a.Format? && o.Equal? && (v.Base64? || v.Uri?))
    && !(a.MinItems? && o.Ge?)
    && !v.Decimal?
  }

  predicate IsNormalCondition(c: Condition) {
    && !(c.attribute.IncludedCertificateType? && c.operator.Equal?)
    && !c.attribute.EqualAttribute?
    && c.target != Some(CentralContractValidation)
    && c.target != Some(FirstTransactionEvent)
  }

  lemma RewriteFixedIff(c: Constraint, k: Verdict)
    requires c.values != [] && Explains(c, k)
    ensures Rewrite(c, k) == c <==> IsNormal(c)
  {
  }

  lemma EarlyReachesNormal(c: Constraint, k: Verdict)
    requires c.values != [] && Explains(c, k) && !k.Raised? && !c.operator.Custom?
    ensures var early := RewriteAttribute(RewriteByClass(c, k));
            IsEarlyNormal(early) && !early.operator.Custom? && !Raises(early)
  {
  }

  /** One application yields a normal form, unless the operator is "custom": that is replaced too late. */
  lemma RewriteReachesNormal(c: Constraint, k: Verdict)
    requires c.values != [] && Explains(c, k) && !k.Raised? && !c.operator.Custom?
    ensures IsNormal(Rewrite(c, k)) && !Raises(Rewrite(c, k))
  {
    EarlyReachesNormal(c, k);
    LateReachesNormal(RewriteAttribute(RewriteByClass(c, k)));
  }

  lemma LateReachesNormal(c: Constraint)
    requires c.values != [] && IsEarlyNormal(c) && !c.operator.Custom? && !Raises(c)
    ensures var late := RewriteTypeName(RewriteFormat(RewriteOperator(c)));
            late.values != [] && IsNormal(late) && !Raises(late)
  {
    var o := RewriteOperator(c);
    OperatorReachesNormal(c);
    KeepsMarkers(o);
  }

  /** The operator rewrites leave no redex of their own or of an earlier rewrite. */
  lemma OperatorReachesNormal(c: Constraint)
    requires c.values != [] && IsEarlyNormal(c) && !c.operator.Custom? && !Raises(c)
    ensures var o := RewriteOperator(c);
            && o.values == c.values && IsEarlyNormal(o) && !o.operator.Custom? && !Raises(o)
            && !(o.attribute.Values? && o.operator.Equal? && |o.values| > 1)
            && !(o.attribute.Values? && o.operator.RequiredOperator?)
  {
  }

  /** The two rewrites of the first value do not touch the values that the classifier looks for. */
  lemma KeepsMarkers(c: Constraint)
    requires c.values != []
    ensures var vs := RewriteTypeName(RewriteFormat(c)).values;
            forall v :: v != Decimal && v != NumberText && v != Uri && v != Url ==> (v in vs <==> v in c.values)
  {
    var vs := RewriteTypeName(RewriteFormat(c)).values;
    assert |vs| == |c.values| && forall i :: 0 < i < |vs| ==> vs[i] == c.values[i];
  }

  lemma RewriteRemovesCustom(c: Constraint, k: Verdict)
    requires c.values != []
    ensures !Rewrite(c, k).operator.Custom?
  {
  }

  lemma ConditionsNormal(cs: Option<seq<Condition>>)
    ensures NormalConditions(NormalConditions(cs)) == NormalConditions(cs)
    ensures NormalConditions(cs) == cs <==>
            cs.None? || (cs.value != [] && forall i :: 0 <= i < |cs.value| ==> IsNormalCondition(cs.value[i]))
  {
    if cs.Some? {
      var once := RewriteConditions(cs.value);
      assert RewriteConditions(once) == once;
      assert once == cs.value <==> forall i :: 0 <= i < |cs.value| ==> once[i] == cs.value[i];
      assert forall c: Condition :: RewriteCondition(c) == c <==> IsNormalCondition(c);
    }
  }

  /** The fixed points of the normaliser, among rules that have values, are the rules without a redex. */
  lemma FixedPointIff(r: Rule)
    requires r.constraint.values != []
    ensures Normalised(r) == Some(r) <==>
            (&& !Raises(r.constraint) && IsNormal(r.constraint)
             && (r.conditions.None? ||
                 (r.conditions.value != []
                  && forall i :: 0 <= i < |r.conditions.value| ==> IsNormalCondition(r.conditions.value[i]))))
  {
    ClassifyExplained(r.constraint);
    RewriteFixedIff(r.constraint, Classify(r.constraint));
    ConditionsNormal(r.conditions);
  }

  /** One application reaches a fixed point when the operator is not "custom". */
  lemma OnceUnlessCustom(r: Rule)
    requires r.constraint.values != [] && !r.constraint.operator.Custom? && Normalised(r).Some?
    ensures Normalised(Normalised(r).value) == Normalised(r)
  {
    var c, k := r.constraint, Classify(r.constraint);
    var r1 := Normalised(r).value;
    ClassifyExplained(c);
    RewriteReachesNormal(c, k);
    ConditionsNormal(r.conditions);
    ClassifyExplained(r1.constraint);
    RewriteFixedIff(r1.constraint, Classify(r1.constraint));
  }

  /** A "custom" constraint that one application finishes: as an "equal" one it has no redex left by then. */
  predicate FinishedAtOnce(c: Constraint) {
    var e := c.(operator := Equal);
    if c.values == [] then !c.attribute.Minimum? && !c.attribute.Optional?
    else !Raises(e) && IsEarlyNormal(e) && !(e.attribute.Values? && |e.values| > 1)
  }

  /** One application reaches a fixed point exactly when the operator is not "custom" or its replacement comes in time. */
  lemma OnceIff(r: Rule)
    requires Normalised(r).Some?
    ensures Normalised(Normalised(r).value) == Normalised(r) <==>
            !r.constraint.operator.Custom? || FinishedAtOnce(r.constraint)
  {
    if r.constraint.values == [] {
      ValuelessOnceIff(r);
    } else if r.constraint.operator.Custom? {
      CustomOnceIff(r);
    } else {
      OnceUnlessCustom(r);
    }
  }

  lemma CustomOnceIff(r: Rule)
    requires r.constraint.values != [] && r.constraint.operator.Custom? && Normalised(r).Some?
    ensures Normalised(Normalised(r).value) == Normalised(r) <==> FinishedAtOnce(r.constraint)
  {
    var c, k := r.constraint, Classify(r.constraint);
    var c1 := Rewrite(c, k);
    ClassifyExplained(c);
    CustomOnce(c, k);
    ConditionsNormal(r.conditions);
    ClassifyExplained(c1);
    RewriteFixedIff(c1, Classify(c1));
    LateKeepsNormality(c.(operator := Equal));
  }

  /** The late rewrites of an "equal" constraint remove their own redexes and no others. */
  lemma LateKeepsNormality(e: Constraint)
    requires e.values != [] && e.operator.Equal?
    ensures var late := RewriteTypeName(RewriteFormat(e));
            late.values != [] && (!Raises(late) && IsNormal(late) <==>
                                  !Raises(e) && IsEarlyNormal(e) && !(e.attribute.Values? && |e.values| > 1))
  {
    KeepsMarkers(e);
  }

  // ----- constraints without values -----

  /** No rewrite applies to a constraint without values. */
  predicate IsNormalValueless(c: Constraint) {
    && !(c.attribute.Minimum? && c.operator.Equal?)
    && !c.operator.Custom?
    && !(c.attribute.Values? && c.operator.RequiredOperator?)
    && !(c.attribute.MinItems? && c.operator.Ge?)
  }

  lemma ValuelessNeverRaises(c: Constraint)
    requires c.values == []
    ensures Classify(c) != Raised
  {
    ClassifyExplained(c);
  }

  lemma ValuelessFixedIff(c: Constraint)
    requires c.values == []
    ensures RewriteValueless(c) == c <==> IsNormalValueless(c)
  {
  }

  /** The fixed points among rules without values. */
  lemma ValuelessFixedPointIff(r: Rule)
    requires r.constraint.values == []
    ensures Normalised(r) == Some(r) <==>
            (&& !ReadsMissingValue(r.constraint) && IsNormalValueless(r.constraint)
             && (r.conditions.None? ||
                 (r.conditions.value != []
                  && forall i :: 0 <= i < |r.conditions.value| ==> IsNormalCondition(r.conditions.value[i]))))
  {
    ValuelessNeverRaises(r.constraint);
    ValuelessFixedIff(r.constraint);
    ConditionsNormal(r.conditions);
  }

  lemma ValuelessOnceIff(r: Rule)
    requires r.constraint.values == [] && Normalised(r).Some?
    ensures Normalised(Normalised(r).value) == Normalised(r) <==>
            !r.constraint.operator.Custom? || FinishedAtOnce(r.constraint)
  {
    var c := r.constraint;
    var c1 := RewriteValueless(c);
    ConditionsNormal(r.conditions);
    ValuelessNeverRaises(c1);
    ValuelessFixedIff(c1);
  }

  /** Without values, the second application raises exactly on a "custom" optional. */
  lemma ValuelessSecondRaisesIff(r: Rule)
    requires r.constraint.values == [] && Normalised(r).Some?
    ensures Normalised(Normalised(r).value).None? <==> r.constraint.attribute.Optional? && r.constraint.operator.Custom?
  {
    ValuelessNeverRaises(RewriteValueless(r.constraint));
  }

  /** Without values too, two applications that do not raise reach a fixed point. */
  lemma ValuelessTwice(r: Rule)
    requires r.constraint.values == [] && Normalised(r).Some? && Normalised(Normalised(r).value).Some?
    ensures var twice := Normalised(Normalised(r).value).value;
            Normalised(twice) == Some(twice)
  {
    assert !RewriteValueless(r.constraint).operator.Custom?;
    ValuelessOnceIff(Normalised(r).value);
  }

  /** Two applications always do, as long as the second one does not raise. */
  lemma TwiceAlways(r: Rule)
    requires r.constraint.values != [] && Normalised(r).Some? && Normalised(Normalised(r).value).Some?
    ensures var twice := Normalised(Normalised(r).value).value;
            Normalised(twice) == Some(twice)
  {
    RewriteRemovesCustom(r.constraint, Classify(r.constraint));
    OnceUnlessCustom(Normalised(r).value);
  }

  /** When the second application raises: a "custom" format whose first value is a number. */
  lemma SecondRaisesIff(r: Rule)
    requires r.constraint.values != [] && Normalised(r).Some?
    ensures Normalised(Normalised(r).value).None? <==>
            (&& r.constraint.attribute.Format? && r.constraint.operator.Custom? && HasPlainValues(r.constraint.values)
             && r.constraint.values[0].Num? && Utf8 !in r.constraint.values && DashedUtf8 !in r.constraint.values)
  {
    if r.constraint.operator.Custom? {
      var c, k := r.constraint, Classify(r.constraint);
      ClassifyExplained(c);
      CustomOnce(c, k);
      LateRaisesIff(c.(operator := Equal));
      ClassifyExplained(Rewrite(c, k));
    } else {
      OnceUnlessCustom(r);
    }
  }

  /** The late rewrites of an "equal" constraint do not change whether the classifier raises on it. */
  lemma LateRaisesIff(e: Constraint)
    requires e.values != [] && e.operator.Equal?
    ensures var late := RewriteTypeName(RewriteFormat(e)); late.values != [] && (Raises(late) <==> Raises(e))
  {
    KeepsMarkers(e);
  }

  /** On "custom" only the late rewrites act, after it has become "equal". */
  lemma CustomOnce(c: Constraint, k: Verdict)
    requires c.values != [] && Explains(c, k) && c.operator.Custom?
    ensures Rewrite(c, k) == RewriteTypeName(RewriteFormat(c.(operator := Equal)))
  {
  }

  /** One application is not enough for "custom": a status with several numbers becomes an "equal" one, then an enum. */
  lemma CustomNeedsTwo(vs: seq<Val>)
    requires |vs| > 1 && forall v :: v in vs ==> v.Num?
    ensures var once := Rule([], None, Constraint(Status, Equal, vs));
            && Normalised(Rule([], None, Constraint(Status, Custom, vs))) == Some(once)
            && Normalised(once) == Some(Rule([], None, Constraint(Values, In, vs)))
  {
    CustomStatus(vs);
    EqualStatus(vs);
  }

  lemma CustomStatus(vs: seq<Val>)
    requires |vs| > 1 && forall v :: v in vs ==> v.Num?
    ensures Normalised(Rule([], None, Constraint(Status, Custom, vs))) == Some(Rule([], None, Constraint(Status, Equal, vs)))
  {
    assert vs[0].Num?;
    ClassifyExplained(Constraint(Status, Custom, vs));
    CustomOnce(Constraint(Status, Custom, vs), Classify(Constraint(Status, Custom, vs)));
  }

  lemma EqualStatus(vs: seq<Val>)
    requires |vs| > 1 && forall v :: v in vs ==> v.Num?
    ensures Normalised(Rule([], None, Constraint(Status, Equal, vs))) == Some(Rule([], None, Constraint(Values, In, vs)))
  {
    assert vs[0].Num?;
    ClassifyExplained(Constraint(Status, Equal, vs));
  }

  /** A second application can raise where the first one did not. */
  lemma CustomCanRaise()
    ensures var once := Rule([], None, Constraint(Format, Equal, [Num(1)]));
            Normalised(Rule([], None, Constraint(Format, Custom, [Num(1)]))) == Some(once) && Normalised(once) == None
  {
    ClassifyExplained(Constraint(Format, Custom, [Num(1)]));
    ClassifyExplained(Constraint(Format, Equal, [Num(1)]));
  }
}
