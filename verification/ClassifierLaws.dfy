/** The classes that the value generators read, as conditions on the constraint that do not follow the chain. */
module ClassifierLaws {
  import opened RuleModel
  import opened Classifier

  // ----- the stages of the chain -----

  predicate IsEarly(k: Verdict) {
    || k == Found(MAX_LENGTH) || k == Found(BYTES_FIX) || k == Found(ENUM)
    || k == Found(REQUIRED_EQUAL_FALSE) || k == Found(REQUIRED_EQUAL_TRUE)
  }

  predicate IsMiddle(k: Verdict) {
    || k == Found(VALUE_EQUAL) || k == Found(VALUE_EQUAL_EMPTY_STRING)
    || k == Found(MIN_ITEMS_EQUAL) || k == Found(MAX_ITEMS_EQUAL)
  }

  predicate IsLate(k: Verdict) {
    || k == Found(VALUE_NOT_EQUAL) || k == Found(VALUE_GT) || k == Found(VALUE_GE) || k == Found(VALUE_BETWEEN)
    || k == Found(REMOVE_FIELD_EQUAL_TRUE) || k == Found(MAXIMUM_EQUAL) || k == Found(BIT_EQUAL)
  }

  lemma RestFindsNone(a: Attribute, o: Operator, vs: seq<Val>)
    ensures var k := ClassifyRest(a, o, vs); !IsEarly(k) && !IsMiddle(k) && !IsLate(k)
  {
  }

  lemma FormatNameFindsNone(v: Val)
    ensures var k := ClassifyFormatName(v); !IsEarly(k) && !IsMiddle(k) && !IsLate(k)
  {
  }

  lemma SourceFindsNone(v: Val)
    ensures var k := ClassifySource(v); !IsEarly(k) && !IsMiddle(k) && !IsLate(k)
  {
    if v.Text? {
      match v.traits.appendix {
        case NoAppendix =>
        case Components =>
        case Variables =>
        case SecurityEvents =>
        case DisplayPriorities =>
      }
    }
  }

  lemma ValueIsLate(a: Attribute, o: Operator, vs: seq<Val>)
    ensures var k := ClassifyValue(a, o, vs); !IsEarly(k) && !IsMiddle(k)
  {
    RestFindsNone(a, o, vs);
  }

  lemma ValueFinds(a: Attribute, o: Operator, vs: seq<Val>)
    ensures var k := ClassifyValue(a, o, vs);
            && (k == Found(VALUE_NOT_EQUAL) <==> IsValueAttribute(a) && o == NotEqual)
            && (k == Found(VALUE_GT) <==> IsValueAttribute(a) && o == Gt)
            && (k == Found(VALUE_GE) <==> (IsValueAttribute(a) && o == Ge) || (a == MinLength && o == Equal))
            && (k == Found(VALUE_BETWEEN) <==> IsValueAttribute(a) && o == Between)
  {
    RestFindsNone(a, o, vs);
  }

  lemma ValueFindsOthers(a: Attribute, o: Operator, vs: seq<Val>)
    ensures var k := ClassifyValue(a, o, vs);
            && (k == Found(REMOVE_FIELD_EQUAL_TRUE) <==> a == RemoveField && o == Equal && True in vs)
            && (k == Found(MAXIMUM_EQUAL) <==> a == Maximum && o == Equal)
            && (k == Found(BIT_EQUAL) <==> a == Bit && o == Equal)
  {
    RestFindsNone(a, o, vs);
  }

  /** The attributes and operators that the middle stage looks for. */
  predicate Takes(a: Attribute, o: Operator) {
    || a in {Format, Encoding, MinItems, MaxItems, Prefix, LeadingZeros, Implemented}
    || (IsValueAttribute(a) && (o == Equal || o == From))
  }

  lemma FormatPasses(a: Attribute, o: Operator, vs: seq<Val>)
    requires vs != [] && !Takes(a, o)
    ensures ClassifyFormat(a, o, vs) == ClassifyValue(a, o, vs)
  {
  }

  lemma FormatIsNotEarly(a: Attribute, o: Operator, vs: seq<Val>)
    requires vs != []
    ensures !IsEarly(ClassifyFormat(a, o, vs))
  {
    ValueIsLate(a, o, vs);
    FormatNameFindsNone(vs[0]);
    SourceFindsNone(vs[0]);
  }

  lemma FormatFindsValues(a: Attribute, o: Operator, vs: seq<Val>)
    requires vs != []
    ensures var k := ClassifyFormat(a, o, vs);
            && (k == Found(VALUE_EQUAL) <==> IsValueAttribute(a) && o == Equal && EmptyText !in vs)
            && (k == Found(VALUE_EQUAL_EMPTY_STRING) <==> IsValueAttribute(a) && o == Equal && EmptyText in vs)
  {
    ValueIsLate(a, o, vs);
    FormatNameFindsNone(vs[0]);
    SourceFindsNone(vs[0]);
  }

  lemma FormatFindsItems(a: Attribute, o: Operator, vs: seq<Val>)
    requires vs != []
    ensures var k := ClassifyFormat(a, o, vs);
            && (k == Found(MIN_ITEMS_EQUAL) <==> a == MinItems && (o == Equal || o == Ge))
            && (k == Found(MAX_ITEMS_EQUAL) <==> a == MaxItems && (o == Equal || o == Max) && MaxScheduleTuples !in vs)
  {
    ValueIsLate(a, o, vs);
    FormatNameFindsNone(vs[0]);
    SourceFindsNone(vs[0]);
  }

  lemma FormatLeavesLate(a: Attribute, o: Operator, vs: seq<Val>)
    requires vs != []
    ensures var k, v := ClassifyFormat(a, o, vs), ClassifyValue(a, o, vs);
            (IsLate(k) || IsLate(v)) ==> k == v
  {
    if Takes(a, o) {
      ValueFinds(a, o, vs);
      ValueFindsOthers(a, o, vs);
      FormatTakes(a, o, vs);
    } else {
      FormatPasses(a, o, vs);
    }
  }

  lemma FormatTakes(a: Attribute, o: Operator, vs: seq<Val>)
    requires vs != [] && Takes(a, o)
    ensures IsLate(ClassifyFormat(a, o, vs)) ==> ClassifyFormat(a, o, vs) == ClassifyValue(a, o, vs)
  {
    FormatNameFindsNone(vs[0]);
    SourceFindsNone(vs[0]);
  }

  // ----- the classes -----

  /** Found before the first value is looked at: lengths, enums and presence. */
  lemma EarlyClassIff(c: Constraint)
    ensures var a, o, vs, plain := c.attribute, c.operator, c.values, HasPlainValues(c.values);
            && (Classify(c) == Found(MAX_LENGTH) <==> plain && a == MaxLength && o == Equal && vs[0] != MaxLimit)
            && (Classify(c) == Found(BYTES_FIX) <==> plain && a == Bytes && (o == Equal || o == Either))
            && (Classify(c) == Found(ENUM) <==> plain && IsValueAttribute(a) && o == In && !(True in vs && False in vs))
            && (Classify(c) == Found(REQUIRED_EQUAL_FALSE) <==> plain && a == Required && o == Equal && vs[0] == False)
            && (Classify(c) == Found(REQUIRED_EQUAL_TRUE) <==>
                plain && a == Required && o == Equal && vs[0] != False && True in vs)
  {
    if c.values != [] {
      FormatIsNotEarly(c.attribute, c.operator, c.values);
    }
  }

  /** The first value does not decide alone: it is neither "agreed …" nor "hexadecimal". */
  predicate Open(vs: seq<Val>) {
    HasPlainValues(vs) && !StartsAgreed(vs[0]) && vs[0] != Hexadecimal
  }

  /** A constraint whose attribute and operator leave it to the later stages. */
  predicate PassesFirst(c: Constraint) {
    Open(c.values) && (IsValueAttribute(c.attribute) ==> c.operator != In)
  }

  lemma FirstPasses(c: Constraint)
    requires IsValueAttribute(c.attribute) || c.attribute in {MinItems, MaxItems, MinLength, RemoveField, Maximum, Bit}
    ensures PassesFirst(c) ==> Classify(c) == ClassifyFormat(c.attribute, c.operator, c.values)
    ensures !PassesFirst(c) ==> !IsMiddle(Classify(c)) && !IsLate(Classify(c))
  {
  }

  lemma OthersFindNone(c: Constraint)
    requires !IsValueAttribute(c.attribute) && c.attribute !in {MinItems, MaxItems, MinLength, RemoveField, Maximum, Bit}
    ensures !IsMiddle(Classify(c)) && !IsLate(Classify(c))
  {
    if c.values != [] {
      OtherFormats(c.attribute, c.operator, c.values);
    }
  }

  lemma OtherFormats(a: Attribute, o: Operator, vs: seq<Val>)
    requires vs != [] && !IsValueAttribute(a) && a !in {MinItems, MaxItems, MinLength, RemoveField, Maximum, Bit}
    ensures !IsMiddle(ClassifyFormat(a, o, vs)) && !IsLate(ClassifyFormat(a, o, vs))
  {
    FormatFindsValues(a, o, vs);
    FormatFindsItems(a, o, vs);
    FormatLeavesLate(a, o, vs);
    ValueFinds(a, o, vs);
    ValueFindsOthers(a, o, vs);
  }

  /** Found after it: values, item counts, bounds and removals. */
  lemma LaterClassIff(c: Constraint)
    ensures var a, o, vs, open := c.attribute, c.operator, c.values, Open(c.values);
            && (Classify(c) == Found(VALUE_EQUAL) <==> open && IsValueAttribute(a) && o == Equal && EmptyText !in vs)
            && (Classify(c) == Found(VALUE_EQUAL_EMPTY_STRING) <==> open && IsValueAttribute(a) && o == Equal && EmptyText in vs)
            && (Classify(c) == Found(MIN_ITEMS_EQUAL) <==> open && a == MinItems && (o == Equal || o == Ge))
            && (Classify(c) == Found(MAX_ITEMS_EQUAL) <==>
                open && a == MaxItems && (o == Equal || o == Max) && MaxScheduleTuples !in vs)
  {
    LaterStage(c);
    if c.values != [] {
      FormatFindsValues(c.attribute, c.operator, c.values);
      FormatFindsItems(c.attribute, c.operator, c.values);
    }
  }

  lemma BoundClassIff(c: Constraint)
    ensures var a, o, vs, open := c.attribute, c.operator, c.values, Open(c.values);
            && (Classify(c) == Found(VALUE_NOT_EQUAL) <==> open && IsValueAttribute(a) && o == NotEqual)
            && (Classify(c) == Found(VALUE_GT) <==> open && IsValueAttribute(a) && o == Gt)
            && (Classify(c) == Found(VALUE_GE) <==>
                open && ((IsValueAttribute(a) && o == Ge) || (a == MinLength && o == Equal)))
            && (Classify(c) == Found(VALUE_BETWEEN) <==> open && IsValueAttribute(a) && o == Between)
            && (Classify(c) == Found(REMOVE_FIELD_EQUAL_TRUE) <==> open && a == RemoveField && o == Equal && True in vs)
            && (Classify(c) == Found(MAXIMUM_EQUAL) <==> open && a == Maximum && o == Equal)
            && (Classify(c) == Found(BIT_EQUAL) <==> open && a == Bit && o == Equal)
  {
    LaterStage(c);
    if c.values != [] {
      FormatLeavesLate(c.attribute, c.operator, c.values);
      ValueFinds(c.attribute, c.operator, c.values);
      ValueFindsOthers(c.attribute, c.operator, c.values);
    }
  }

  lemma LaterStage(c: Constraint)
    ensures IsMiddle(Classify(c)) || IsLate(Classify(c)) ==>
              PassesFirst(c) && Classify(c) == ClassifyFormat(c.attribute, c.operator, c.values)
    ensures PassesFirst(c) && (IsValueAttribute(c.attribute) || c.attribute in {MinItems, MaxItems, MinLength, RemoveField, Maximum, Bit}) ==>
              Classify(c) == ClassifyFormat(c.attribute, c.operator, c.values)
  {
    if IsValueAttribute(c.attribute) || c.attribute in {MinItems, MaxItems, MinLength, RemoveField, Maximum, Bit} {
      FirstPasses(c);
    } else {
      OthersFindNone(c);
    }
  }
}
