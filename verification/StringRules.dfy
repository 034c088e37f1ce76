/** generate_string_value, for strings without format, encoding, prefix, signature and measurand rules. */
module StringRules {
  import opened Wrappers
  import opened Bounds

  datatype Kind =
    | MaxLength(limit: Option<int>, isVariable: bool)  // a limit that cannot be resolved is None
    | BytesFix(lengths: seq<int>)
    | Enum(values: seq<string>)
    | ValueEqual(value: string)
    | ValueNotEqual(value: string)
    | EmptyString
    | TypeString
    | RequiredTrue
    | RemoveField
    | CharacterSet(chars: seq<char>)  // active, it only changes what is drawn from
    | CamelCase
    | Unsupported

  /** A rule as one call meets it; `choice` is the random number drawn for it. */
  datatype Rule = Rule(kind: Kind, negated: bool, hit: bool, choice: nat)

  /** A string drawn at random, one that a rule prescribes, or no string. */
  datatype Outcome = Drawn(s: string) | Given(s: string) | EmptyValue | OtherType | Aborted

  predicate IsText(o: Outcome) {
    o.Drawn? || o.Given?
  }

  predicate IsNegated(r: Rule) {
    r.negated
  }

  ghost predicate NoneNegated(rules: seq<Rule>) {
    forall i :: 0 <= i < |rules| ==> !rules[i].negated
  }

  ghost predicate OneNegated(rules: seq<Rule>) {
    AtMostOne(rules, IsNegated)
  }

  const DEFAULT_MIN_LENGTH := 0
  const DEFAULT_MAX_LENGTH := 12000

  // ----- what each rule asks for -----

  function MinRequest(r: Rule): Option<Request> {
    if !r.hit then None
    else
      match r.kind
      case MaxLength(limit, _) => if r.negated && limit.Some? then Some(Bound(limit.value + 1, true)) else None
      case BytesFix(lengths) =>
        if r.negated || lengths == [] then None else Some(Bound(lengths[r.choice % |lengths|], false))
      case _ => None
  }

  function MaxRequest(r: Rule): Option<Request> {
    if !r.hit then None
    else
      match r.kind
      case MaxLength(limit, _) =>
        if limit.None? then None
        else Some(if r.negated then Bound(limit.value + 101, true) else Bound(limit.value, false))
      case BytesFix(lengths) =>
        if r.negated || lengths == [] then None else Some(Bound(lengths[r.choice % |lengths|], false))
      case _ => None
  }

  function CreatedMin(rules: seq<Rule>): Option<Bound> {
    CreateMin(Requests(rules, MinRequest))
  }

  function CreatedMax(rules: seq<Rule>): Option<Bound> {
    CreateMax(Requests(rules, MaxRequest))
  }

  function MinLength(rules: seq<Rule>): int {
    var b := CreatedMin(rules);
    if b.None? then DEFAULT_MIN_LENGTH else b.value.size
  }

  function MaxLengthOf(rules: seq<Rule>): int {
    var b := CreatedMax(rules);
    if b.None? then DEFAULT_MAX_LENGTH else b.value.size
  }

  /** Rules that end the loop over the rules at once. */
  function Exit(r: Rule): Option<Outcome> {
    if !r.hit then None
    else if !r.negated then if r.kind.BytesFix? && r.kind.lengths == [] then Some(Aborted) else None
    else
      match r.kind
      case MaxLength(limit, isVariable) => if limit.None? && isVariable then Some(Aborted) else None
      case TypeString => Some(OtherType)
      case RequiredTrue => Some(EmptyValue)
      case ValueNotEqual(value) => Some(Given(value))
      case Unsupported => Some(Aborted)
      case _ => None
  }

  /** A negated maximum length whose limit is known. */
  predicate OverLong(r: Rule) {
    r.hit && r.negated && r.kind.MaxLength? && r.kind.limit.Some?
  }

  /** The strings that a rule excludes: those of a negated enum or value, or the one of an active notEqual. */
  function Excepted(r: Rule): seq<string> {
    if !r.hit then []
    else
      match r.kind
      case Enum(values) => if r.negated then values else []
      case ValueEqual(value) => if r.negated then [value] else []
      case ValueNotEqual(value) => if r.negated then [] else [value]
      case EmptyString => if r.negated then [""] else []
      case _ => []
  }

  /** What an enum rule offers to choose from. */
  function Offered(r: Rule): seq<string> {
    if r.hit && r.kind.Enum? && !r.negated then r.kind.values else []
  }

  predicate SetsValue(r: Rule) {
    r.hit && r.kind.ValueEqual? && !r.negated
  }

  predicate AsksEmpty(r: Rule) {
    r.hit && r.kind.EmptyString? && !r.negated
  }

  predicate Removes(r: Rule) {
    r.hit && r.kind.RemoveField? && !r.negated
  }

  predicate Requires(r: Rule) {
    r.hit && (r.kind.RequiredTrue? || (r.kind.RemoveField? && r.negated))
  }

  /** A negated byte count, which sets the lengths that must not be drawn. */
  predicate NegatesBytes(r: Rule) {
    r.hit && r.negated && r.kind.BytesFix?
  }

  /** Negated camel case, which has separators inserted. */
  predicate NegatesCamel(r: Rule) {
    r.hit && r.negated && r.kind.CamelCase?
  }

  const SEPARATORS := ['-', '_']

  function Disallowed(r: Rule): seq<char> {
    if r.hit && r.kind.CharacterSet? && r.negated then r.kind.chars
    else if r.hit && r.kind.CamelCase? && !r.negated then SEPARATORS
    else []
  }

  /** PopulationConstraint: what strings are drawn from; a setting of a lower level than the current one is ignored. */
  datatype Population = Population(chars: seq<char>, level: int)

  function SetPopulation(p: Population, chars: seq<char>, level: int): Population {
    if p.level > level then p else Population(chars, level)
  }

  function Without(chars: seq<char>, excluded: seq<char>): (r: seq<char>)
    ensures forall c :: c in r <==> c in chars && c !in excluded
  {
    if chars == [] then [] else (if chars[0] in excluded then [] else [chars[0]]) + Without(chars[1..], excluded)
  }

  function PopulationAfter(p: Population, r: Rule, printable: seq<char>): Population {
    if !r.hit || !r.kind.CharacterSet? then p
    else if r.negated then SetPopulation(p, Without(printable, r.kind.chars), 999)
    else SetPopulation(p, r.kind.chars, 2)
  }

  // ----- the merged configuration -----

  /** The fields of GenerateStringValueConfig that plain strings use. */
  datatype Setup = Setup(
    min: Option<Bound>, max: Option<Bound>, activeEnum: bool, required: bool, enumList: seq<string>,
    equalValue: Option<string>, exceptList: seq<string>, determined: bool, population: Population,
    notAllowed: seq<char>, inserted: seq<char>, emptyString: bool, remove: bool, excludedLengths: set<int>)

  function Initial(printable: seq<char>): Setup {
    Setup(None, None, true, false, [], None, [], false, Population(printable, 1), [], [], false, false, {})
  }

  function Extended<T(==)>(list: seq<T>, more: seq<T>): (r: seq<T>)
    ensures r == list + more
  {
    if more == [] then list else list + more
  }

  function LengthSet(lengths: seq<int>): (r: set<int>)
    ensures forall n :: n in r <==> n in lengths
  {
    set n | n in lengths
  }

  /** What one rule makes of the configuration, field by field. */
  function Applied(s: Setup, r: Rule, printable: seq<char>): Setup {
    Setup(WithMin(s.min, MinRequest(r)), WithMax(s.max, MaxRequest(r)), s.activeEnum && !OverLong(r),
          s.required || Requires(r), Extended(s.enumList, Offered(r)),
          if SetsValue(r) then Some(r.kind.value) else s.equalValue, Extended(s.exceptList, Excepted(r)),
          s.determined || r.negated, PopulationAfter(s.population, r, printable), Extended(s.notAllowed, Disallowed(r)),
          if NegatesCamel(r) then s.inserted + SEPARATORS else s.inserted, s.emptyString || AsksEmpty(r),
          s.remove || Removes(r), if NegatesBytes(r) then LengthSet(r.kind.lengths) else s.excludedLengths)
  }

  /** The flag for negation may be set before or with the rest. */
  lemma AppliedAfterFlag(s: Setup, r: Rule, printable: seq<char>)
    ensures Applied(s.(determined := s.determined || r.negated), r, printable) == Applied(s, r, printable)
    ensures !r.hit ==> Applied(s, r, printable) == s.(determined := s.determined || r.negated)
  {
  }

  function Merged(rules: seq<Rule>, printable: seq<char>): Setup {
    if rules == [] then Initial(printable)
    else Applied(Merged(rules[..|rules| - 1], printable), rules[|rules| - 1], printable)
  }

  function FirstExit(rules: seq<Rule>): Option<Outcome> {
    if rules == [] then None else if Exit(rules[0]).Some? then Exit(rules[0]) else FirstExit(rules[1..])
  }

  // ----- lengths -----

  function Low(s: Setup): int {
    if s.min.None? then DEFAULT_MIN_LENGTH else s.min.value.size
  }

  function High(s: Setup): int {
    if s.max.None? then DEFAULT_MAX_LENGTH else s.max.value.size
  }

  /** Contradicting bounds are widened above the minimum. */
  function Top(s: Setup): int {
    if High(s) < Low(s) then Low(s) + 10 else High(s)
  }

  /** The lengths from one bound up to, but not including, the other that are not excluded. */
  function Lengths(lo: int, hi: int, excluded: set<int>): set<int> {
    set n | lo <= n < hi && n !in excluded
  }

  /** The lengths that a negated byte count leaves to choose from. */
  function Choices(s: Setup): set<int> {
    if s.excludedLengths == {} then {} else Lengths(Low(s), High(s), s.excludedLengths)
  }

  /** A number is what random.choice returns: an element, if there is one. */
  predicate IsChoice(choices: set<int>, fix: int) {
    choices != {} ==> fix in choices
  }

  /** A negated byte count fixes the length to one that is not excluded; if there is none, nothing happens. */
  function Narrowed(s: Setup, fix: int): Setup {
    if Choices(s) == {} then s
    else s.(min := WithMin(s.min, Some(Bound(fix, true))), max := WithMax(s.max, Some(Bound(fix, true))))
  }

  // ----- one attempt -----

  /** The randomness of one attempt. The draw that replaces an emptied enum has its own length and characters. */
  datatype Try = Try(skip: bool, pick: nat, enumLength: int, enumChars: nat -> nat,
                     length: int, chars: nat -> nat, position: nat -> nat)

  /** random.choice, for a random number: any element can be chosen. */
  function Chosen<T>(list: seq<T>, pick: nat): (x: T)
    requires list != []
    ensures x in list
  {
    if pick < |list| then list[pick] else list[0]
  }

  predicate Uses(s: string, chars: seq<char>) {
    exists i :: 0 <= i < |chars| && chars[i] in s
  }

  function Kept(list: seq<string>, except: seq<string>, least: int): (r: seq<string>)
    ensures forall s :: s in r <==> s in list && s !in except && |s| >= least
  {
    if list == [] then []
    else (if list[0] !in except && |list[0]| >= least then [list[0]] else []) + Kept(list[1..], except, least)
  }

  function Allowed(list: seq<string>, chars: seq<char>): (r: seq<string>)
    ensures forall s :: s in r <==> s in list && !Uses(s, chars)
  {
    if list == [] then []
    else (if Uses(list[0], chars) then [] else [list[0]]) + Allowed(list[1..], chars)
  }

  /** The strings that a rule prescribes: an active enum, value or empty string, or a negated notEqual. */
  function Prescribed(r: Rule): seq<string> {
    if !r.hit then []
    else
      match r.kind
      case Enum(values) => if r.negated then [] else values
      case ValueEqual(value) => if r.negated then [] else [value]
      case ValueNotEqual(value) => if r.negated then [value] else []
      case EmptyString => if r.negated then [] else [""]
      case _ => []
  }

  /** A random length, for a random number. */
  function LengthFor(s: Setup, seed: int): (n: int)
    ensures Low(s) <= n <= Top(s)
  {
    Between(Low(s), Top(s), seed)
  }

  /** randint, for a random number: any integer of the range can be drawn. */
  function Between(lo: int, hi: int, seed: int): (n: int)
    requires lo <= hi
    ensures lo <= n <= hi
  {
    if lo <= seed <= hi then seed else lo
  }

  /** Drawing from no characters raises, unless nothing is to be drawn. */
  function Draw(population: seq<char>, length: int, chars: nat -> nat): Outcome {
    if length <= 0 then Drawn("")
    else if population == [] then Aborted
    else Drawn(seq(length, (i: nat) => Chosen(population, chars(i))))
  }

  /** Characters inserted one after the other at random positions. */
  function Inserted(s: string, chars: seq<char>, position: nat -> nat): (r: string)
    ensures |r| == |s| + |chars|
    ensures forall c :: c in r <==> c in s || c in chars
    decreases |chars|
  {
    if chars == [] then s
    else
      var p := if position(|chars|) <= |s| then position(|chars|) else 0;
      Inserted(s[..p] + [chars[0]] + s[p..], chars[1..], position)
  }

  function EqualValue(s: Setup): Option<string> {
    if !s.activeEnum || s.equalValue.None? || s.equalValue.value == "" then None
    else if s.equalValue.value in s.exceptList || Uses(s.equalValue.value, s.notAllowed) then None
    else s.equalValue
  }

  /** The enum without the values that are excluded, too short or use a character that is not allowed. */
  function Filtered(s: Setup): seq<string> {
    var kept := if s.exceptList == [] then s.enumList
                else Kept(s.enumList, s.exceptList, if s.min.Some? then s.min.value.size else 0);
    if s.notAllowed == [] then kept else Allowed(kept, s.notAllowed)
  }

  datatype Step = Step(outcome: Outcome, next: Setup)

  /** get_random_enum_value: the filtered list replaces the list; an empty one yields a drawn string. */
  function EnumStep(s: Setup, t: Try): Step {
    var list := Filtered(s);
    Step(if list != [] then Given(Chosen(list, t.pick))
         else Draw(s.population.chars, LengthFor(s, t.enumLength), t.enumChars),
         s.(enumList := list))
  }

  /** The population without the characters that are not allowed. */
  function Limited(s: Setup): Setup {
    if s.notAllowed == [] then s
    else s.(population := SetPopulation(s.population, Without(s.population.chars, s.notAllowed), 9999))
  }

  /** A drawn string with the required characters inserted. */
  function DrawWith(population: seq<char>, length: int, inserted: seq<char>, t: Try): Outcome {
    var drawn := Draw(population, length, t.chars);
    if drawn.Drawn? then Drawn(Inserted(drawn.s, inserted, t.position)) else drawn
  }

  function DrawStep(s: Setup, t: Try): Step {
    Step(DrawWith(Limited(s).population.chars, LengthFor(s, t.length), s.inserted, t), Limited(s))
  }

  /** generate_random_string_value */
  function Tried(s: Setup, t: Try): Step {
    if !s.required && t.skip && !s.determined then Step(EmptyValue, s)
    else if !s.determined && s.emptyString then Step(Given(""), s)
    else if !s.determined && s.remove then Step(EmptyValue, s)
    else if EqualValue(s).Some? then Step(Given(EqualValue(s).value), s)
    else if s.enumList != [] && s.activeEnum then
      var step := EnumStep(s, t);
      if IsText(step.outcome) && step.outcome.s == "" then DrawStep(step.next, t) else step
    else DrawStep(s, t)
  }

  /** With excluded strings, an attempt counts only if it yields a string that is neither empty nor excluded. */
  predicate Accepts(exceptList: seq<string>, o: Outcome) {
    !IsText(o) || exceptList == [] || (o.s != "" && o.s !in exceptList)
  }

  /** The first attempt that counts, or an exception. */
  function Trials(s: Setup, tries: seq<Try>): Outcome
    decreases |tries|
  {
    if tries == [] then Aborted
    else
      var step := Tried(s, tries[0]);
      if Accepts(s.exceptList, step.outcome) then step.outcome else Trials(step.next, tries[1..])
  }

  const MAX_TRY_COUNT := 200

  /** generate_string_value as a function of the rules and the random numbers. */
  function Generated(rules: seq<Rule>, printable: seq<char>, fix: int, tries: seq<Try>): Outcome {
    if FirstExit(rules).Some? then FirstExit(rules).value
    else Trials(Narrowed(Merged(rules, printable), fix), tries)
  }

  // ----- the program -----

  /** GenerateStringValueConfig */
  class Config {
    var min: Option<Bound>  // the length bound objects, by value
    var max: Option<Bound>
    var activeEnum: bool
    var required: bool
    var enumList: seq<string>
    var equalValue: Option<string>
    var exceptList: seq<string>
    var isDetermineProperty: bool
    var population: Population
    var notAllowed: seq<char>
    var requiredCharacters: seq<char>
    var emptyString: bool
    var remove: bool
    var excludedLengths: set<int>

    ghost function View(): Setup
      reads this
    {
      Setup(min, max, activeEnum, required, enumList, equalValue, exceptList, isDetermineProperty, population,
            notAllowed, requiredCharacters, emptyString, remove, excludedLengths)
    }

    constructor (printable: seq<char>)
      ensures View() == Initial(printable)
    {
      min, max, activeEnum, required, enumList, equalValue := None, None, true, false, [], None;
      exceptList, isDetermineProperty, population := [], false, Population(printable, 1);
      notAllowed, requiredCharacters, emptyString, remove, excludedLengths := [], [], false, false, {};
    }

    /** One pass of the loop over the rules. */
    method Apply(r: Rule, printable: seq<char>)
      modifies this
      ensures View() == Applied(old(View()), r, printable)
    {
      AppliedAfterFlag(View(), r, printable);
      if r.negated {
        isDetermineProperty := true;
      }
      if r.hit {
        if r.kind.MaxLength? {
          ApplyMaximum(r, printable);
        } else if r.kind.BytesFix? {
          ApplyBytes(r, printable);
        } else if r.kind.CharacterSet? || r.kind.CamelCase? {
          ApplyCharacters(r, printable);
        } else if r.kind.Enum? || r.kind.ValueEqual? || r.kind.ValueNotEqual? {
          ApplyValues(r, printable);
        } else {
          ApplyFlags(r, printable);
        }
      }
    }

    method ApplyMaximum(r: Rule, ghost printable: seq<char>)
      requires r.hit && r.kind.MaxLength? && (r.negated ==> isDetermineProperty)
      modifies this`min, this`max, this`activeEnum
      ensures View() == Applied(old(View()), r, printable)
    {
      if r.kind.limit.Some? {
        var limit := r.kind.limit.value;
        if !r.negated {
          max := WithMax(max, Some(Bound(limit, false)));
        } else {
          activeEnum := false;
          min := WithMin(min, Some(Bound(limit + 1, true)));
          max := WithMax(max, Some(Bound(limit + 1 + 100, true)));
        }
      }
    }

    method ApplyBytes(r: Rule, ghost printable: seq<char>)
      requires r.hit && r.kind.BytesFix? && (r.negated ==> isDetermineProperty)
      modifies this`min, this`max, this`excludedLengths
      ensures View() == Applied(old(View()), r, printable)
    {
      var lengths := r.kind.lengths;
      if r.negated {
        excludedLengths := LengthSet(lengths);
      } else if lengths != [] {
        var length := lengths[r.choice % |lengths|];
        max := WithMax(max, Some(Bound(length, false)));
        min := WithMin(min, Some(Bound(length, false)));
      }
    }

    /** Character sets and camel case. */
    method ApplyCharacters(r: Rule, printable: seq<char>)
      requires r.hit && (r.kind.CharacterSet? || r.kind.CamelCase?) && (r.negated ==> isDetermineProperty)
      modifies this`population, this`notAllowed, this`requiredCharacters
      ensures View() == Applied(old(View()), r, printable)
    {
      match r.kind {
        case CharacterSet(chars) =>
          if !r.negated {
            population := SetPopulation(population, chars, 2);
          } else {
            notAllowed := notAllowed + chars;
            population := SetPopulation(population, Without(printable, chars), 999);
          }
        case CamelCase =>
          if !r.negated {
            notAllowed := notAllowed + ['-'];
            notAllowed := notAllowed + ['_'];
          } else {
            requiredCharacters := requiredCharacters + ['-'];
            requiredCharacters := requiredCharacters + ['_'];
          }
      }
    }

    /** Enums, prescribed and excluded values. */
    method ApplyValues(r: Rule, ghost printable: seq<char>)
      requires r.hit && (r.kind.Enum? || r.kind.ValueEqual? || r.kind.ValueNotEqual?)
      requires r.negated ==> isDetermineProperty
      modifies this`enumList, this`exceptList, this`equalValue
      ensures View() == Applied(old(View()), r, printable)
    {
      match r.kind {
        case Enum(values) =>
          if !r.negated { enumList := enumList + values; } else { exceptList := exceptList + values; }
        case ValueEqual(value) =>
          if !r.negated { equalValue := Some(value); } else { exceptList := exceptList + [value]; }
        case ValueNotEqual(value) =>
          if !r.negated { exceptList := exceptList + [value]; }
      }
    }

    /** The empty string, presence, and the kinds without effect. */
    method ApplyFlags(r: Rule, ghost printable: seq<char>)
      requires r.hit && !r.kind.MaxLength? && !r.kind.BytesFix? && !r.kind.CharacterSet? && !r.kind.CamelCase?
      requires !r.kind.Enum? && !r.kind.ValueEqual? && !r.kind.ValueNotEqual? && (r.negated ==> isDetermineProperty)
      modifies this`exceptList, this`emptyString, this`required, this`remove
      ensures View() == Applied(old(View()), r, printable)
    {
      match r.kind {
        case EmptyString =>
          if !r.negated { emptyString := true; } else { exceptList := exceptList + [""]; }
        case RequiredTrue =>
          required := true;
        case RemoveField =>
          if !r.negated { remove := true; } else { required := true; }
        case _ =>
      }
    }

    /** The step after the loop that honours a negated byte count. */
    method NarrowLengths(fix: int)
      requires IsChoice(Choices(View()), fix)
      modifies this`min, this`max
      ensures View() == Narrowed(old(View()), fix)
    {
      if excludedLengths != {} {
        var minLength := if min.None? then DEFAULT_MIN_LENGTH else min.value.size;
        var maxLength := if max.None? then DEFAULT_MAX_LENGTH else max.value.size;
        var possible := Lengths(minLength, maxLength, excludedLengths);
        if possible != {} {
          min := WithMin(min, Some(Bound(fix, true)));
          max := WithMax(max, Some(Bound(fix, true)));
        }
      }
    }

    /** get_generate_value_random_length */
    method RandomLength(seed: int) returns (length: int)
      ensures length == LengthFor(View(), seed)
    {
      var minValue := if min.None? then DEFAULT_MIN_LENGTH else min.value.size;
      var maxValue := if max.None? then DEFAULT_MAX_LENGTH else max.value.size;
      if maxValue < minValue {
        maxValue := minValue + 10;
      }
      length := Between(minValue, maxValue, seed);
    }

    /** get_equal_value */
    method GetEqualValue() returns (r: Option<string>)
      ensures r == EqualValue(View())
      ensures r.Some? ==> activeEnum && r == equalValue && r.value != "" && r.value !in exceptList
      ensures r.Some? ==> forall c :: c in r.value ==> c !in notAllowed
      ensures r.None? && activeEnum && equalValue.Some? && equalValue.value != "" ==>
                equalValue.value in exceptList || exists c :: c in equalValue.value && c in notAllowed
    {
      if !activeEnum || equalValue.None? || equalValue.value == "" {
        return None;
      }
      if equalValue.value in exceptList || Uses(equalValue.value, notAllowed) {
        return None;
      }
      return equalValue;
    }

    method RandomEnumValue(t: Try) returns (r: Outcome)
      modifies this`enumList
      ensures Step(r, View()) == EnumStep(old(View()), t)
    {
      if exceptList != [] {
        enumList := Kept(enumList, exceptList, if min.Some? then min.value.size else 0);
      }
      if notAllowed != [] {
        enumList := Allowed(enumList, notAllowed);
      }
      if enumList != [] {
        return Given(Chosen(enumList, t.pick));
      }
      var length := RandomLength(t.enumLength);
      r := Draw(population.chars, length, t.enumChars);
    }

    method DrawString(t: Try) returns (r: Outcome)
      modifies this`population
      ensures Step(r, View()) == DrawStep(old(View()), t)
    {
      var length := RandomLength(t.length);
      if notAllowed != [] {
        population := SetPopulation(population, Without(population.chars, notAllowed), 9999);
      }
      r := Draw(population.chars, length, t.chars);
      if r.Drawn? {
        r := Drawn(Inserted(r.s, requiredCharacters, t.position));
      }
    }

    /** generate_random_string_value */
    method Attempt(t: Try) returns (r: Outcome)
      modifies this`enumList, this`population
      ensures Step(r, View()) == Tried(old(View()), t)
    {
      if !required && t.skip && !isDetermineProperty {
        return EmptyValue;
      }
      if !isDetermineProperty {
        if emptyString {
          return Given("");
        }
        if remove {
          return EmptyValue;
        }
      }
      var equal := GetEqualValue();
      if equal.Some? {
        return Given(equal.value);
      }
      if enumList != [] && activeEnum {
        r := RandomEnumValue(t);
        if r.Aborted? || r.s != "" {
          return;
        }
      }
      r := DrawString(t);
    }

    /** The loop that tries values until one is not excluded, and then gives up. */
    method TryAll(tries: seq<Try>) returns (r: Outcome)
      modifies this`enumList, this`population
      ensures r == Trials(old(View()), tries)
    {
      for i := 0 to |tries|
        invariant Trials(old(View()), tries) == Trials(View(), tries[i..])
      {
        assert tries[i..][0] == tries[i] && tries[i..][1..] == tries[i + 1..];
        r := Attempt(tries[i]);
        if Accepts(exceptList, r) {
          return;
        }
      }
      r := Aborted;
    }
  }

  lemma MergedOneMore(rules: seq<Rule>, r: Rule, printable: seq<char>)
    ensures Merged(rules + [r], printable) == Applied(Merged(rules, printable), r, printable)
  {
    assert (rules + [r])[..|rules|] == rules;
  }

  lemma TakeOneMore(rules: seq<Rule>, i: nat)
    requires i < |rules|
    ensures rules[..i] + [rules[i]] == rules[..i + 1]
    ensures rules[i..][0] == rules[i] && rules[i..][1..] == rules[i + 1..]
  {
  }

  /** The loop over the rules: the first rule that ends it, or the configuration that the rules ask for. */
  method MergeRules(rules: seq<Rule>, printable: seq<char>) returns (exit: Option<Outcome>, config: Config)
    ensures fresh(config) && exit == FirstExit(rules)
    ensures exit.None? ==> config.View() == Merged(rules, printable)
  {
    config := new Config(printable);
    ghost var done := [];
    assert rules[..|rules|] == rules && rules[0..] == rules;
    for i := 0 to |rules|
      invariant fresh(config) && done == rules[..i]
      invariant FirstExit(rules) == FirstExit(rules[i..])
      invariant config.View() == Merged(done, printable)
    {
      TakeOneMore(rules, i);
      exit := Exit(rules[i]);
      if exit.Some? {
        return;
      }
      MergedOneMore(done, rules[i], printable);
      config.Apply(rules[i], printable);
      done := done + [rules[i]];
    }
    exit := None;
  }

  /** generate_string_value: the rules are merged, then values are tried until one is not excluded. */
  method GenerateString(rules: seq<Rule>, printable: seq<char>, fix: int, tries: seq<Try>) returns (r: Outcome)
    requires |tries| == MAX_TRY_COUNT && IsChoice(Choices(Merged(rules, printable)), fix)
    ensures r == Generated(rules, printable, fix, tries)
  {
    var exit, config := MergeRules(rules, printable);
    if exit.Some? {
      return exit.value;
    }
    config.NarrowLengths(fix);
    r := config.TryAll(tries);
  }
}
