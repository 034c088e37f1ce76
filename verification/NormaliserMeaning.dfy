/** What a constraint demands, read off a table of its own, and that get_equivalent_rule keeps it. */
module NormaliserMeaning {
  import opened Wrappers
  import opened RuleModel
  import opened Classifier
  import opened Normaliser

  // ----- demands -----

  datatype Demand =
    | Presence(required: bool)
    | OneOf(values: seq<Val>)
    | AtLeast(values: seq<Val>)
    | ItemsAtLeast(values: seq<Val>)
    | Formatted(values: seq<Val>)
    | Plain(attribute: Attribute, operator: Operator, values: seq<Val>)

  /** The two spellings that stand for another one: a decimal is a number, and a format "uri" is a "url". */
  function Spelled(v: Val, format: bool): Val {
    match v
    case Decimal => NumberText
    case Uri => if format then Url else Uri
    case _ => v
  }

  function Spelling(vs: seq<Val>, format: bool): (r: seq<Val>)
    ensures |r| == |vs|
  {
    if vs == [] then [] else [Spelled(vs[0], format)] + vs[1..]
  }

  /** "required" is a demand to be present when it is true, "optional" when it is false. */
  function PresenceOf(required: bool, vs: seq<Val>): Option<bool> {
    if vs != [] && vs[0].True? then Some(required)
    else if vs != [] && vs[0].False? then Some(!required)
    else None
  }

  /** The operator "custom" is read as "equal", and values that are "required" as the attribute required. */
  function Read(c: Constraint): Constraint {
    if c.operator.Custom? then c.(operator := Equal)
    else if c.attribute.Values? && c.operator.RequiredOperator? then Constraint(Required, Equal, c.values)
    else c
  }

  /** A list of values to choose from. */
  predicate IsChoice(c: Constraint) {
    match c.attribute
    case Status => c.operator.Equal?
    case Values => c.operator.Equal? || c.operator.In?
    case Value => c.operator.Equal? || c.operator.In? || (IsValueFrom(c) && |c.values| > 1)
    case Variable(suffix) => suffix == "" && c.operator.Equal? && CurrencyVariable in c.values
    case _ => false
  }

  predicate IsLowerBound(c: Constraint) {
    (c.attribute.Minimum? && c.operator.Equal?) || (IsValueAttribute(c.attribute) && c.operator.Ge?)
  }

  predicate IsItemBound(c: Constraint) {
    c.attribute.MinItems? && (c.operator.Equal? || c.operator.Ge?)
  }

  /** A format by name, or base64 as an encoding. */
  predicate IsFormat(c: Constraint) {
    c.operator.Equal? && (c.attribute.Format? || (c.attribute.Encoding? && c.values != [] && c.values[0].Base64?))
  }

  function Meaning(c: Constraint): Demand {
    MeaningRead(Read(c))
  }

  function MeaningRead(c: Constraint): Demand {
    var vs := Spelling(c.values, c.attribute.Format? && c.operator.Equal?);
    if c.attribute.Required? && c.operator.Equal? && PresenceOf(true, c.values).Some? then
      Presence(PresenceOf(true, c.values).value)
    else if c.attribute.Optional? && c.operator.Equal? && PresenceOf(false, c.values).Some? then
      Presence(PresenceOf(false, c.values).value)
    else if IsChoice(c) then OneOf(vs)
    else if IsLowerBound(c) then AtLeast(vs)
    else if IsItemBound(c) then ItemsAtLeast(vs)
    else if IsTypeEqual(c) && c.values[0].DateTimeType? then Formatted([DateTimeFormat])
    else if IsFormat(c) then Formatted(vs)
    else Plain(c.attribute, c.operator, vs)
  }

  // ----- normalisation keeps them -----

  lemma SourceKeeps(c: Constraint)
    requires IsValueFrom(c) && |c.values| > 1
    ensures Meaning(Constraint(Value, In, c.values)) == Meaning(c)
  {
  }

  lemma StatusKeeps(c: Constraint)
    requires IsStatusEqual(c)
    ensures Meaning(Constraint(Values, Equal, c.values)) == Meaning(c)
  {
  }

  lemma TypeKeeps(c: Constraint)
    requires IsTypeEqual(c) && c.values[0].DateTimeType?
    ensures Meaning(Constraint(Format, Equal, [DateTimeFormat])) == Meaning(c)
  {
  }

  lemma ByClassKeeps(c: Constraint, k: Verdict)
    requires c.values != [] && Explains(c, k)
    ensures RewriteByClass(c, k).values != [] && Meaning(RewriteByClass(c, k)) == Meaning(c)
  {
    if IsValueFrom(c) && |c.values| > 1 {
      SourceKeeps(c);
    } else if IsStatusEqual(c) {
      StatusKeeps(c);
    } else if IsTypeEqual(c) && c.values[0].DateTimeType? {
      TypeKeeps(c);
    }
  }

  lemma AttributeKeeps(c: Constraint)
    requires c.values != []
    ensures RewriteAttribute(c).values != [] && Meaning(RewriteAttribute(c)) == Meaning(c)
  {
    if c.attribute.Optional? {
      assert RewriteAttribute(c) != c ==> Meaning(c) == Presence(true);
    } else if c.attribute.Minimum? {
      assert RewriteAttribute(c) != c ==> Meaning(c) == AtLeast(Spelling(c.values, false));
    } else if c.attribute.Variable? {
      assert RewriteAttribute(c) != c ==> Meaning(c) == OneOf(Spelling(c.values, false));
    }
  }

  lemma OperatorKeeps(c: Constraint)
    requires c.values != []
    ensures RewriteOperator(c).values != [] && Meaning(RewriteOperator(c)) == Meaning(c)
  {
  }

  lemma FormatKeeps(c: Constraint)
    requires c.values != []
    ensures RewriteFormat(c).values != [] && Meaning(RewriteFormat(c)) == Meaning(c)
  {
  }

  lemma TypeNameKeeps(c: Constraint)
    requires c.values != []
    ensures RewriteTypeName(c).values != [] && Meaning(RewriteTypeName(c)) == Meaning(c)
  {
    if c.values[0].Decimal? {
      var d := Read(c);
      assert Read(RewriteTypeName(c)) == d.(values := d.values[0 := NumberText]);
      SpellingOnce(d.values);
      DecimalKeepsKind(d);
    }
  }

  /** A decimal and a number are the same kind of demand. */
  lemma DecimalKeepsKind(c: Constraint)
    requires c.values != [] && c.values[0].Decimal?
    ensures var d := c.(values := c.values[0 := NumberText]);
            && (IsChoice(d) <==> IsChoice(c)) && (IsFormat(d) <==> IsFormat(c))
            && (IsLowerBound(d) <==> IsLowerBound(c)) && (IsItemBound(d) <==> IsItemBound(c))
  {
    SpellingOnce(c.values);
    if c.attribute.Value? && c.operator.From? {
      assert IsValueFrom(c.(values := c.values[0 := NumberText])) == IsValueFrom(c);
    }
  }

  lemma SpellingOnce(vs: seq<Val>)
    requires vs != [] && vs[0].Decimal?
    ensures forall format :: Spelling(vs[0 := NumberText], format) == Spelling(vs, format)
    ensures CurrencyVariable in vs[0 := NumberText] <==> CurrencyVariable in vs
  {
    assert vs[0 := NumberText] == [NumberText] + vs[1..];
    assert vs == [Decimal] + vs[1..];
  }

  lemma RewriteKeeps(c: Constraint, k: Verdict)
    requires c.values != [] && Explains(c, k)
    ensures Meaning(Rewrite(c, k)) == Meaning(c)
  {
    var c1 := RewriteByClass(c, k);
    ByClassKeeps(c, k);
    AttributeKeeps(c1);
    OperatorKeeps(RewriteAttribute(c1));
    FormatKeeps(RewriteOperator(RewriteAttribute(c1)));
    TypeNameKeeps(RewriteFormat(RewriteOperator(RewriteAttribute(c1))));
  }

  lemma ValuelessKeeps(c: Constraint)
    requires c.values == []
    ensures Meaning(RewriteValueless(c)) == Meaning(c)
  {
  }

  /** Whatever a rule demands, its normalised form demands too. */
  lemma NormalisingKeepsMeaning(r: Rule)
    requires Normalised(r).Some?
    ensures Meaning(Normalised(r).value.constraint) == Meaning(r.constraint)
  {
    var c := r.constraint;
    if c.values == [] {
      ValuelessKeeps(c);
    } else {
      ClassifyExplained(c);
      RewriteKeeps(c, Classify(c));
      assert Normalised(r).value.constraint == Rewrite(c, Classify(c));
    }
  }

  /** The demand to be present or absent, on its own. */
  function PresenceDemand(c: Constraint): Option<bool> {
    if !c.operator.Equal? then None
    else if c.attribute.Required? then PresenceOf(true, c.values)
    else if c.attribute.Optional? then PresenceOf(false, c.values)
    else None
  }

  lemma NormalisingKeepsPresence(r: Rule)
    requires Normalised(r).Some? && PresenceDemand(r.constraint).Some?
    ensures PresenceDemand(Normalised(r).value.constraint) == PresenceDemand(r.constraint)
  {
    NormalisingKeepsMeaning(r);
    NormalisedOperator(r);
    PresenceIff(r.constraint);
    PresenceIff(Normalised(r).value.constraint);
  }

  lemma PresenceIff(c: Constraint)
    requires c.operator.Equal?
    ensures Meaning(c).Presence? <==> PresenceDemand(c).Some?
    ensures Meaning(c).Presence? ==> PresenceDemand(c) == Some(Meaning(c).required)
  {
  }

  lemma NormalisedOperator(r: Rule)
    requires Normalised(r).Some? && PresenceDemand(r.constraint).Some?
    ensures Normalised(r).value.constraint.operator.Equal?
  {
    ClassifyExplained(r.constraint);
  }

  // ----- what comes out -----

  /** The form in which a list of values to choose from is collected. */
  function Choice(vs: seq<Val>): Constraint {
    Constraint(Values, if |vs| > 1 then In else Equal, Spelling(vs, false))
  }

  /** The form that each spelling of a demand comes out in. */
  lemma BoundComesOut(r: Rule)
    requires r.constraint.values != [] && Normalised(r).Some?
    ensures var c, out := r.constraint, Normalised(r).value.constraint;
            var a, o, vs := c.attribute, c.operator, c.values;
            && (a.Optional? && o.Equal? && vs[0].False? ==> out == Constraint(Required, Equal, [True]))
            && (a.Minimum? && o.Equal? ==> out == Constraint(Values, Ge, Spelling(vs, false)))
            && (a.MinItems? && o.Ge? ==> out == Constraint(MinItems, Equal, Spelling(vs, false)))
  {
    ClassifyExplained(r.constraint);
  }

  lemma FormatComesOut(r: Rule)
    requires r.constraint.values != [] && Normalised(r).Some?
    ensures var c, out := r.constraint, Normalised(r).value.constraint;
            var a, o, vs := c.attribute, c.operator, c.values;
            && (a.Values? && o.RequiredOperator? ==> out == Constraint(Required, Equal, Spelling(vs, false)))
            && (a.Format? && o.Equal? && vs[0].Base64? ==> out == Constraint(Encoding, Equal, vs))
            && (a.Format? && o.Equal? && vs[0].Uri? ==> out == Constraint(Format, Equal, [Url] + vs[1..]))
  {
    ClassifyExplained(r.constraint);
  }

  lemma StatusComesOut(r: Rule)
    requires Normalised(r).Some? && IsStatusEqual(r.constraint)
    ensures Normalised(r).value.constraint == Choice(r.constraint.values)
  {
    ClassifyExplained(r.constraint);
  }

  lemma ValuesComeOut(r: Rule)
    requires Normalised(r).Some? && r.constraint.values != [] && r.constraint.attribute.Values? && r.constraint.operator.Equal?
    ensures Normalised(r).value.constraint == Choice(r.constraint.values)
  {
    ClassifyExplained(r.constraint);
  }

  lemma CurrencyComesOut(r: Rule)
    requires Normalised(r).Some? && r.constraint.attribute == Variable("") && r.constraint.operator.Equal?
    requires CurrencyVariable in r.constraint.values
    ensures Normalised(r).value.constraint == Choice(r.constraint.values)
  {
    ClassifyExplained(r.constraint);
  }

  lemma SourceComesOut(r: Rule)
    requires r.constraint.values != [] && Normalised(r).Some?
    ensures var c, out := r.constraint, Normalised(r).value.constraint;
            && (IsValueFrom(c) && |c.values| > 1 ==> out == Constraint(Value, In, Spelling(c.values, false)))
            && (IsTypeEqual(c) && c.values[0].DateTimeType? ==> out == Constraint(Format, Equal, [DateTimeFormat]))
  {
    ClassifyExplained(r.constraint);
  }

  /** Where a condition is looked up after the rewrites: its values stay, and so does everything that is not named here. */
  lemma ConditionComesOut(c: Condition)
    ensures var out := RewriteCondition(c);
            var included := c.attribute.IncludedCertificateType? && c.operator.Equal?;
            && out.values == c.values
            && (included ==> out.attribute == CertificateType && out.target == Some(SignCertificateRequest)
                             && out.operator == ProvidedOperator)
            && (!included ==> out.operator == c.operator)
            && (!included && c.target == Some(FirstTransactionEvent) ==>
                  out.attribute == FirstEventAfterEVConnection && out.target == Some(Context))
            && (!included && c.target == Some(CentralContractValidation) ==> out.target == Some(CentralContractVariable))
            && (!included && c.target != Some(FirstTransactionEvent) && c.target != Some(CentralContractValidation) ==>
                  out.target == c.target)
            && (!included && c.target != Some(FirstTransactionEvent) ==>
                  out.attribute == if c.attribute.EqualAttribute? then Values else c.attribute)
  {
  }

  /** Each condition comes out in its place, a list is dropped exactly when it is empty, and the causes are not touched. */
  lemma ConditionsComeOut(r: Rule)
    requires Normalised(r).Some?
    ensures var out := Normalised(r).value;
            && out.causes == r.causes
            && (out.conditions.None? <==> r.conditions.None? || r.conditions.value == [])
            && (out.conditions.Some? ==>
                  && |out.conditions.value| == |r.conditions.value|
                  && forall i :: 0 <= i < |r.conditions.value| ==>
                       out.conditions.value[i] == RewriteCondition(r.conditions.value[i]))
  {
  }
}
