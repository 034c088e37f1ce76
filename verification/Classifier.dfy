/** getConstraintEnum: the chain of conditionals that classifies a constraint. */
module Classifier {
  import opened RuleModel

  datatype ConstraintEnum =
    | MAX_LENGTH | BYTES_FIX | ENUM | TYPE_EQUAL | REQUIRED_EQUAL_TRUE | REQUIRED_EQUAL_FALSE
    | OPTIONAL_EQUAL_TRUE | AGREED_UPON_BY_ALL_PARTIES | FORMAT_EQUAL_HEX | JAVA_TYPE_EQUAL | ENCODING_EQUAL
    | FORMAT_EQUAL | FORMAT_EQUAL_UTF8 | FORMAT_EQUAL_HUMAN_READABLE | CASE_INSENSITIVE | CASE_SENSITIVE
    | VALUE_EQUAL_EMPTY_STRING | VALUE_EQUAL | VALUE_NOT_EQUAL | MIN_ITEMS_EQUAL | MAX_ITEMS_EQUAL
    | NOT_LEADING_ZEROS | PREFIX_NOT_EQUAL | IMPLEMENTED_EQUAL_FALSE | VALUE_FROM | VALUE_GT | VALUE_GE
    | STATUS_EQUAL | WAS_PROVIDED_IN | DEFAULT_EQUAL | DECIMAL_PLACES_MAX | CHARACTER_SET_UTF8
    | CHARACTER_SET_IN | BIT_EQUAL | VALUE_FROM_MEASUREMENTS_APPENDICES
    | VALUE_FROM_STANDARDIZED_COMPONENT_NAMES | VALUE_FROM_STANDARDIZED_VARIABLE_NAMES
    | VALUE_FROM_SECURITY_EVENTS_LIST | VALUE_FROM_UNDEFINED | REMOVE_FIELD_EQUAL_TRUE | VALUE_BETWEEN
    | MAX_ITEMS_EQUAL_MAX_SCHEDULE_TUPLES | VALUE_IN_FALSE_AND_TRUE | REPRESENTATION_EQUAL
    | IMPLEMENTED_EQUAL_TRUE | IMPLEMENTED_EQUAL_CUSTOM | MAXIMUM_EQUAL | MAX_LENGTH_EQUAL_MAX_LIMIT
    | UNKNOWN_ATTRIBUTE | CONFIGURATION_EQUAL | VALUE_MAX_DURATION_OF_THE_TRANSACTION
    | CONTENT_CONFIGURED_BY | SENDING_DEPENDS_ON_EQUAL | WAS_STORED_IN_CSMS | CAN_VERIFICATION_EQUAL
    | SIGNED_WITH_AND | VALUE_MONITOR_VALUE | ONCE_PER_TRANSACTION_EQUAL_TRUE | MINIMUM_EQUAL_TRUE
    | CHARGING_PROFILE_PURPOSE_EQUAL | RELEVANT_EQUAL | UNTESTABLE_CONSTRAINT

  /** The class, no class, or the exception raised by a string operation on a number. */
  datatype Verdict = Found(enum: ConstraintEnum) | NotFound | Raised

  predicate StartsAgreed(v: Val) {
    v.Text? && v.traits.startsAgreed
  }

  /** Some value mentions a waiting time, the heartbeat interval or the last certificate of its type. */
  predicate MentionsUntestable(values: seq<Val>) {
    exists i :: 0 <= i < |values| && values[i].Text? && values[i].traits.untestable
  }

  predicate IsValueAttribute(a: Attribute) {
    a.Value? || a.Values?
  }

  // ----- the chain -----

  /** The attributes that are untestable whatever the operator and the values are. */
  predicate AlwaysUntestable(a: Attribute) {
    || a.MessageType? || a.Action? || a.Support? || a.ResultSet? || a.Report? || a.Priority? || a.State?
    || a.TriggeredBy? || a.LoggingInformationAvailable? || a.LogUploadOngoing? || a.Transaction?
    || a.Specification? || a.CertificateType? || a.FirmwareUpdateOngoing? || a.Variable?
  }

  function Classify(c: Constraint): Verdict {
    var a, o, vs := c.attribute, c.operator, c.values;
    if AlwaysUntestable(a) || (a.Usage? && o.Equal? && ConnectionUsage in vs) || CurrencyVariable in vs || vs == []
    then Found(UNTESTABLE_CONSTRAINT)
    else ClassifyFirst(a, o, vs)
  }

  function ClassifyFirst(a: Attribute, o: Operator, vs: seq<Val>): Verdict
    requires vs != []
  {
    if IsValueAttribute(a) && o.In? && True in vs && False in vs then Found(VALUE_IN_FALSE_AND_TRUE)
    else if a.EvseId? || a.EvseDotId? || a.StartSchedule? then Found(UNKNOWN_ATTRIBUTE)
    else if a.MaxLength? && o.Equal? then
      Found(if vs[0].MaxLimit? then MAX_LENGTH_EQUAL_MAX_LIMIT else MAX_LENGTH)
    else if a.Bytes? && (o.Either? || o.Equal?) then Found(BYTES_FIX)
    else if IsValueAttribute(a) && o.In? then Found(ENUM)
    else if a.Type? && o.Equal? then Found(if CustomText in vs then UNTESTABLE_CONSTRAINT else TYPE_EQUAL)
    else if a.Required? && o.Equal? && vs[0].False? then Found(REQUIRED_EQUAL_FALSE)
    else if a.Required? && o.Equal? && True in vs then Found(REQUIRED_EQUAL_TRUE)
    else if a.Optional? && o.Equal? && True in vs then Found(OPTIONAL_EQUAL_TRUE)
    else if StartsAgreed(vs[0]) then Found(AGREED_UPON_BY_ALL_PARTIES)
    else if a.Case? && vs[0].Insensitive? then Found(CASE_INSENSITIVE)
    else if a.Case? && vs[0].Sensitive? then Found(CASE_SENSITIVE)
    else if vs[0].Hexadecimal? then Found(FORMAT_EQUAL_HEX)
    else if a.JavaType? && o.Equal? then Found(JAVA_TYPE_EQUAL)
    else ClassifyFormat(a, o, vs)
  }

  function ClassifyFormat(a: Attribute, o: Operator, vs: seq<Val>): Verdict
    requires vs != []
  {
    if (a.Format? || a.Encoding?) && o.Equal? && (Utf8 in vs || DashedUtf8 in vs) then Found(FORMAT_EQUAL_UTF8)
    else if a.Format? && o.Equal? then ClassifyFormatName(vs[0])
    else if IsValueAttribute(a) && o.Equal? then
      Found(if EmptyText in vs then VALUE_EQUAL_EMPTY_STRING else VALUE_EQUAL)
    else if a.MinItems? && (o.Equal? || o.Ge?) then Found(MIN_ITEMS_EQUAL)
    else if a.MaxItems? && (o.Equal? || o.Max?) then
      Found(if MaxScheduleTuples in vs then MAX_ITEMS_EQUAL_MAX_SCHEDULE_TUPLES else MAX_ITEMS_EQUAL)
    else if a.Encoding? && o.Equal? then Found(ENCODING_EQUAL)
    else if a.Prefix? && o.NotEqual? then Found(PREFIX_NOT_EQUAL)
    else if a.LeadingZeros? && o.Equal? && False in vs then Found(NOT_LEADING_ZEROS)
    else if a.Implemented? && o.Equal? && False in vs then Found(IMPLEMENTED_EQUAL_FALSE)
    else if a.Value? && o.From? then ClassifySource(vs[0])
    else ClassifyValue(a, o, vs)
  }

  function ClassifyFormatName(v: Val): Verdict {
    if v.Num? then Raised
    else if v.Utf8? || (v.Text? && v.traits.utf8Name) then Found(FORMAT_EQUAL_UTF8)
    else if v.Text? && v.traits.humanReadable then Found(FORMAT_EQUAL_HUMAN_READABLE)
    else Found(FORMAT_EQUAL)
  }

  function ClassifySource(v: Val): Verdict {
    if v.UnitsAppendix? then Found(VALUE_FROM_MEASUREMENTS_APPENDICES)
    else if v.Num? then Raised
    else if v.Text? then
      match v.traits.appendix
      case NoAppendix => Found(VALUE_FROM)
      case Components => Found(VALUE_FROM_STANDARDIZED_COMPONENT_NAMES)
      case Variables => Found(VALUE_FROM_STANDARDIZED_VARIABLE_NAMES)
      case SecurityEvents => Found(VALUE_FROM_SECURITY_EVENTS_LIST)
      case DisplayPriorities => Found(VALUE_FROM_UNDEFINED)
    else Found(VALUE_FROM)
  }

  function ClassifyValue(a: Attribute, o: Operator, vs: seq<Val>): Verdict {
    if IsValueAttribute(a) && o.NotEqual? then Found(VALUE_NOT_EQUAL)
    else if IsValueAttribute(a) && o.Gt? then Found(VALUE_GT)
    else if IsValueAttribute(a) && o.Ge? then Found(VALUE_GE)
    else if a.MinLength? && o.Equal? then Found(VALUE_GE)
    else if a.Status? && o.Equal? then Found(STATUS_EQUAL)
    else if a.WasProvidedIn? && (o.Equal? || o.Or?) then Found(WAS_PROVIDED_IN)
    else if a.Default? && o.Equal? then Found(DEFAULT_EQUAL)
    else if a.DecimalPlaces? && o.Max? then Found(DECIMAL_PLACES_MAX)
    else if a.CharacterSet? && o.Equal? && DashedUtf8 in vs then Found(CHARACTER_SET_UTF8)
    else if a.CharacterSet? && o.In? then Found(CHARACTER_SET_IN)
    else if a.Bit? && o.Equal? then Found(BIT_EQUAL)
    else if a.RemoveField? && o.Equal? && True in vs then Found(REMOVE_FIELD_EQUAL_TRUE)
    else if IsValueAttribute(a) && o.Between? then Found(VALUE_BETWEEN)
    else if a.Representation? && o.Equal? then Found(REPRESENTATION_EQUAL)
    else if a.Implemented? && o.Equal? && True in vs then Found(IMPLEMENTED_EQUAL_TRUE)
    else if a.Implemented? && o.Equal? && CustomText in vs then Found(IMPLEMENTED_EQUAL_CUSTOM)
    else if a.Maximum? && o.Equal? then Found(MAXIMUM_EQUAL)
    else if a.Configuration? && o.Equal? then Found(CONFIGURATION_EQUAL)
    else ClassifyRest(a, o, vs)
  }

  function ClassifyRest(a: Attribute, o: Operator, vs: seq<Val>): Verdict {
    if DurationLower in vs || DurationUpper in vs || DurationPhrase in vs || DurationBound in vs
    then Found(VALUE_MAX_DURATION_OF_THE_TRANSACTION)
    else if a.ContentConfiguredBy? && (o.Equal? || o.In?) then Found(CONTENT_CONFIGURED_BY)
    else if a.SendingDependsOn? && o.Equal? then Found(SENDING_DEPENDS_ON_EQUAL)
    else if a.WasStoredIn? && o.Equal? && Csms in vs then Found(WAS_STORED_IN_CSMS)
    else if a.CanVerification? && o.Equal? then Found(CAN_VERIFICATION_EQUAL)
    else if a.SignedWith? && o.And? then Found(SIGNED_WITH_AND)
    else if a.OncePerTransaction? && o.Equal? && True in vs then Found(ONCE_PER_TRANSACTION_EQUAL_TRUE)
    else if a.Minimum? && o.Equal? && True in vs then Found(MINIMUM_EQUAL_TRUE)
    else if a.ChargingProfilePurpose? && o.Equal? then Found(CHARGING_PROFILE_PURPOSE_EQUAL)
    else if a.Relevant? && o.Equal? then Found(RELEVANT_EQUAL)
    else if a.Unit? || MentionsUntestable(vs) || (a.Currency? && o.Equal?) || (a.Required? && o.Either?)
    then Found(UNTESTABLE_CONSTRAINT)
    else if MonitorValue in vs then Found(VALUE_MONITOR_VALUE)
    else if a.IncludedCertificateType? || (a.Provided? && o.Equal?) then Found(UNTESTABLE_CONSTRAINT)
    else NotFound
  }

  // ----- the four verdicts that the normaliser depends on, as conditions on the constraint -----

  predicate HasPlainValues(vs: seq<Val>) {
    vs != [] && CurrencyVariable !in vs
  }

  predicate IsTypeEqual(c: Constraint) {
    c.attribute.Type? && c.operator.Equal? && HasPlainValues(c.values) && CustomText !in c.values
  }

  predicate IsStatusEqual(c: Constraint) {
    && c.attribute.Status? && c.operator.Equal? && HasPlainValues(c.values)
    && !StartsAgreed(c.values[0]) && !c.values[0].Hexadecimal?
  }

  predicate IsValueFrom(c: Constraint) {
    && c.attribute.Value? && c.operator.From? && HasPlainValues(c.values)
    && !StartsAgreed(c.values[0]) && !c.values[0].Hexadecimal?
    && ClassifySource(c.values[0]) == Found(VALUE_FROM)
  }

  predicate Raises(c: Constraint) {
    && HasPlainValues(c.values) && c.values[0].Num?
    && (|| (c.attribute.Format? && c.operator.Equal? && Utf8 !in c.values && DashedUtf8 !in c.values)
        || (c.attribute.Value? && c.operator.From?))
  }

  /** What the verdict `k` on `c` means for the normaliser. */
  predicate Explains(c: Constraint, k: Verdict) {
    && (k == Found(TYPE_EQUAL) <==> IsTypeEqual(c))
    && (k == Found(STATUS_EQUAL) <==> IsStatusEqual(c))
    && (k == Found(VALUE_FROM) <==> IsValueFrom(c))
    && (k == Raised <==> Raises(c))
  }

  predicate Matters(k: Verdict) {
    k == Found(TYPE_EQUAL) || k == Found(STATUS_EQUAL) || k == Found(VALUE_FROM) || k == Raised
  }

  lemma RestIsIrrelevant(a: Attribute, o: Operator, vs: seq<Val>)
    ensures !Matters(ClassifyRest(a, o, vs))
  {
  }

  lemma ValueIsStatus(a: Attribute, o: Operator, vs: seq<Val>)
    ensures a.Status? && o.Equal? ==> ClassifyValue(a, o, vs) == Found(STATUS_EQUAL)
    ensures !(a.Status? && o.Equal?) ==> !Matters(ClassifyValue(a, o, vs))
  {
    RestIsIrrelevant(a, o, vs);
  }

  lemma NameExplained(v: Val)
    ensures if v.Num? then ClassifyFormatName(v) == Raised else !Matters(ClassifyFormatName(v))
  {
  }

  lemma SourceExplained(v: Val)
    ensures v.Num? ==> ClassifySource(v) == Raised
    ensures !v.Num? ==> ClassifySource(v) == Found(VALUE_FROM) || !Matters(ClassifySource(v))
  {
  }

  lemma FormatRaises(a: Attribute, o: Operator, vs: seq<Val>)
    requires vs != []
    ensures ClassifyFormat(a, o, vs) == Raised <==>
            vs[0].Num? && (|| (a.Format? && o.Equal? && Utf8 !in vs && DashedUtf8 !in vs)
                           || (a.Value? && o.From?))
  {
    ValueIsStatus(a, o, vs);
    NameExplained(vs[0]);
    SourceExplained(vs[0]);
  }

  lemma FormatExplained(a: Attribute, o: Operator, vs: seq<Val>)
    requires vs != []
    ensures var k := ClassifyFormat(a, o, vs);
            && (k == Found(STATUS_EQUAL) <==> a.Status? && o.Equal?)
            && (k == Found(VALUE_FROM) <==> a.Value? && o.From? && ClassifySource(vs[0]) == Found(VALUE_FROM))
            && k != Found(TYPE_EQUAL)
  {
    ValueIsStatus(a, o, vs);
    NameExplained(vs[0]);
    SourceExplained(vs[0]);
  }

  lemma ClassifyRaises(c: Constraint)
    ensures Classify(c) == Raised <==> Raises(c)
  {
    if c.values != [] {
      FormatRaises(c.attribute, c.operator, c.values);
    }
  }

  lemma ClassifyFindsType(c: Constraint)
    ensures Classify(c) == Found(TYPE_EQUAL) <==> IsTypeEqual(c)
  {
    if c.values != [] {
      FormatExplained(c.attribute, c.operator, c.values);
    }
  }

  lemma ClassifyFindsStatus(c: Constraint)
    ensures Classify(c) == Found(STATUS_EQUAL) <==> IsStatusEqual(c)
  {
    if c.values != [] {
      FormatExplained(c.attribute, c.operator, c.values);
    }
  }

  lemma ClassifyFindsSource(c: Constraint)
    ensures Classify(c) == Found(VALUE_FROM) <==> IsValueFrom(c)
  {
    if c.values != [] {
      FormatExplained(c.attribute, c.operator, c.values);
    }
  }

  /** The whole chain, reduced to those four verdicts. */
  lemma ClassifyExplained(c: Constraint)
    ensures Explains(c, Classify(c))
  {
    ClassifyRaises(c);
    ClassifyFindsType(c);
    ClassifyFindsStatus(c);
    ClassifyFindsSource(c);
  }
}
