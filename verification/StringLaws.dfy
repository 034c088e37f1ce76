/** What generate_string_value guarantees about the strings it returns, and when it returns one. */
module StringLaws {
  import opened Wrappers
  import opened Bounds
  import opened StringRules

  // ----- what the merged configuration holds -----

  /** All strings that the rules exclude. */
  ghost function Forbidden(rules: seq<Rule>): set<string> {
    set i, s | 0 <= i < |rules| && s in Excepted(rules[i]) :: s
  }

  /** All strings that the rules prescribe. */
  ghost function AllPrescribed(rules: seq<Rule>): set<string> {
    set i, s | 0 <= i < |rules| && s in Prescribed(rules[i]) :: s
  }

  function Elements(list: seq<string>): set<string> {
    set s | s in list
  }

  /** The strings that can be given without drawing. */
  function Givable(s: Setup): set<string> {
    Elements(s.enumList) + (if s.equalValue.Some? then {s.equalValue.value} else {})
    + (if s.emptyString then {""} else {})
  }

  lemma {:induction false} MergedBounds(rules: seq<Rule>, printable: seq<char>)
    ensures Merged(rules, printable).min == CreatedMin(rules) && Merged(rules, printable).max == CreatedMax(rules)
  {
    if rules != [] {
      MergedBounds(rules[..|rules| - 1], printable);
      CreateLast(rules, MinRequest);
      CreateLast(rules, MaxRequest);
    }
  }

  lemma {:induction false} MergedFlags(rules: seq<Rule>, printable: seq<char>)
    ensures Merged(rules, printable).activeEnum <==> !Any(rules, OverLong)
    ensures Merged(rules, printable).determined <==> Any(rules, IsNegated)
  {
    if rules != [] {
      MergedFlags(rules[..|rules| - 1], printable);
      AnyLast(rules, OverLong);
      AnyLast(rules, IsNegated);
    }
  }

  /** Lengths are excluded only by a negated byte count. */
  lemma {:induction false} MergedExcluded(rules: seq<Rule>, printable: seq<char>)
    requires forall i :: 0 <= i < |rules| ==> !NegatesBytes(rules[i])
    ensures Merged(rules, printable).excludedLengths == {}
  {
    if rules != [] {
      MergedExcluded(rules[..|rules| - 1], printable);
    }
  }

  /** Characters are inserted only under negated camel case. */
  lemma {:induction false} MergedInserted(rules: seq<Rule>, printable: seq<char>)
    requires forall i :: 0 <= i < |rules| ==> !NegatesCamel(rules[i])
    ensures Merged(rules, printable).inserted == []
  {
    if rules != [] {
      MergedInserted(rules[..|rules| - 1], printable);
    }
  }

  /** Under negated camel case a separator is inserted. */
  lemma {:induction false} MergedSeparator(rules: seq<Rule>, printable: seq<char>, k: nat)
    requires k < |rules| && NegatesCamel(rules[k])
    ensures '-' in Merged(rules, printable).inserted
  {
    var n := |rules| - 1;
    if k < n {
      MergedSeparator(rules[..n], printable, k);
    }
    HoldsSeparator(Merged(rules[..n], printable).inserted);
  }

  lemma HoldsSeparator(chars: seq<char>)
    ensures '-' in chars + SEPARATORS
  {
    assert (chars + SEPARATORS)[|chars|] == '-';
  }

  /** The list of excluded strings holds exactly what the rules exclude. */
  lemma {:induction false} MergedExcepts(rules: seq<Rule>, printable: seq<char>, x: string)
    ensures x in Merged(rules, printable).exceptList <==> x in Forbidden(rules)
  {
    if rules != [] {
      var n := |rules| - 1;
      MergedExcepts(rules[..n], printable, x);
      ForbiddenOneMore(rules, x);
      assert Merged(rules, printable).exceptList == Merged(rules[..n], printable).exceptList + Excepted(rules[n]);
    }
  }

  lemma ForbiddenOneMore(rules: seq<Rule>, x: string)
    requires rules != []
    ensures x in Forbidden(rules) <==> x in Forbidden(rules[..|rules| - 1]) || x in Excepted(rules[|rules| - 1])
  {
    assert forall i :: 0 <= i < |rules| - 1 ==> rules[..|rules| - 1][i] == rules[i];
    if x in Excepted(rules[|rules| - 1]) {
      assert x in Forbidden(rules);
    }
  }

  /** Whatever can be given without drawing was prescribed by a rule. */
  lemma {:induction false} MergedGivable(rules: seq<Rule>, printable: seq<char>, x: string)
    requires x in Givable(Merged(rules, printable))
    ensures x in AllPrescribed(rules)
  {
    if rules != [] {
      var n := |rules| - 1;
      GivableOneMore(Merged(rules[..n], printable), rules[n], printable, x);
      if x !in Prescribed(rules[n]) {
        MergedGivable(rules[..n], printable, x);
        PrescribedEarlier(rules, n, x);
      }
    }
  }

  lemma PrescribedEarlier(rules: seq<Rule>, n: nat, x: string)
    requires n <= |rules| && x in AllPrescribed(rules[..n])
    ensures x in AllPrescribed(rules)
  {
    var i :| 0 <= i < n && x in Prescribed(rules[..n][i]);
    assert rules[..n][i] == rules[i];
  }

  lemma GivableOneMore(s: Setup, r: Rule, printable: seq<char>, x: string)
    requires x in Givable(Applied(s, r, printable))
    ensures x in Givable(s) || x in Prescribed(r)
  {
    if x in Applied(s, r, printable).enumList {
      assert x in s.enumList || x in Offered(r);
    }
  }

  /** Without rules on characters, strings are drawn from all printable characters. */
  lemma {:induction false} MergedPopulation(rules: seq<Rule>, printable: seq<char>)
    requires forall i :: 0 <= i < |rules| ==> !rules[i].kind.CharacterSet? && !rules[i].kind.CamelCase?
    ensures Merged(rules, printable).population == Population(printable, 1)
    ensures Merged(rules, printable).notAllowed == []
  {
    if rules != [] {
      MergedPopulation(rules[..|rules| - 1], printable);
    }
  }

  /** Only one rule is negated, so a negated rule of one kind leaves none of another. */
  lemma OneKind(rules: seq<Rule>, k: nat, p: Rule -> bool)
    requires OneNegated(rules) && k < |rules| && rules[k].negated && !p(rules[k])
    requires forall r :: p(r) ==> r.negated
    ensures forall i :: 0 <= i < |rules| ==> !p(rules[i])
  {
    forall i | 0 <= i < |rules| && p(rules[i])
      ensures false
    {
      assert IsNegated(rules[i]) && IsNegated(rules[k]);
    }
  }

  // ----- one attempt after another -----

  /** What every attempt leaves as it was. */
  ghost predicate Continues(s: Setup, after: Setup) {
    && after == s.(enumList := after.enumList, population := after.population)
    && Elements(after.enumList) <= Elements(s.enumList)
    && forall c :: c in after.population.chars ==> c in s.population.chars
  }

  lemma FilteredIsPart(s: Setup)
    ensures Elements(Filtered(s)) <= Elements(s.enumList)
  {
    forall x | x in Filtered(s)
      ensures x in s.enumList
    {
    }
  }

  lemma EnumContinues(s: Setup, t: Try)
    ensures Continues(s, EnumStep(s, t).next)
  {
    FilteredIsPart(s);
  }

  lemma LimitedIsPart(s: Setup)
    ensures Limited(s) == s.(population := Limited(s).population)
    ensures forall c :: c in Limited(s).population.chars ==> c in s.population.chars
  {
    if s.notAllowed != [] {
      var fewer := Without(s.population.chars, s.notAllowed);
      assert Limited(s).population.chars == s.population.chars || Limited(s).population.chars == fewer;
    }
  }

  lemma DrawContinues(s: Setup, t: Try)
    ensures Continues(s, DrawStep(s, t).next)
  {
    LimitedIsPart(s);
    assert DrawStep(s, t).next == Limited(s);
  }

  lemma ContinuesOn(s: Setup, middle: Setup, after: Setup)
    requires Continues(s, middle) && Continues(middle, after)
    ensures Continues(s, after)
  {
  }

  lemma TriedContinues(s: Setup, t: Try)
    ensures Continues(s, Tried(s, t).next)
  {
    EnumContinues(s, t);
    DrawContinues(s, t);
    DrawContinues(EnumStep(s, t).next, t);
    ContinuesOn(s, EnumStep(s, t).next, DrawStep(EnumStep(s, t).next, t).next);
  }

  /** A drawn string has a possible length, apart from what is inserted into it. */
  predicate LengthFits(s: Setup, n: int) {
    (Low(s) <= n <= Top(s) && n >= 0) || (n == 0 && Low(s) <= 0)
  }

  lemma DrawFits(s: Setup, population: seq<char>, seed: int, chars: nat -> nat)
    ensures var o := Draw(population, LengthFor(s, seed), chars);
            && (o.Aborted? <==> LengthFor(s, seed) > 0 && population == [])
            && (!o.Aborted? ==> o.Drawn? && LengthFits(s, |o.s|) && forall c :: c in o.s ==> c in population)
  {
    if LengthFor(s, seed) > 0 && population != [] {
      DrawnFrom(population, LengthFor(s, seed), chars);
    }
  }

  lemma DrawnFrom(population: seq<char>, n: nat, chars: nat -> nat)
    requires population != []
    ensures var x := seq(n, (i: nat) => Chosen(population, chars(i)));
            |x| == n && forall c :: c in x ==> c in population
  {
    var x := seq(n, (i: nat) => Chosen(population, chars(i)));
    forall c | c in x
      ensures c in population
    {
      var i :| 0 <= i < |x| && x[i] == c;
      assert x[i] == Chosen(population, chars(i));
    }
  }

  /** What attempts can yield from a configuration. */
  predicate Yields(s: Setup, o: Outcome) {
    && !o.OtherType?
    && (o.Drawn? && s.inserted == [] ==> LengthFits(s, |o.s|))
    && (o.Given? ==> o.s in Givable(s))
    && (s.determined ==> !o.EmptyValue?)
    && (s.determined && !s.activeEnum ==> o.Drawn? || o.Aborted?)
  }

  lemma YieldsOn(s: Setup, after: Setup, o: Outcome)
    requires Continues(s, after) && Yields(after, o)
    ensures Yields(s, o)
  {
  }

  lemma EnumYields(s: Setup, t: Try)
    requires s.activeEnum
    ensures Yields(s, EnumStep(s, t).outcome)
  {
    DrawFits(s, s.population.chars, t.enumLength, t.enumChars);
    FilteredIsPart(s);
    assert forall x :: x in Elements(Filtered(s)) <==> x in Filtered(s);
  }

  lemma DrawYields(s: Setup, t: Try)
    ensures Yields(s, DrawStep(s, t).outcome)
  {
    DrawFits(s, Limited(s).population.chars, t.length, t.chars);
  }

  /** An attempt that goes through the enum. */
  function ThroughEnum(s: Setup, t: Try): Step {
    var step := EnumStep(s, t);
    if IsText(step.outcome) && step.outcome.s == "" then DrawStep(step.next, t) else step
  }

  lemma ThroughEnumYields(s: Setup, t: Try)
    requires s.activeEnum
    ensures Yields(s, ThroughEnum(s, t).outcome)
  {
    EnumYields(s, t);
    EnumContinues(s, t);
    DrawYields(EnumStep(s, t).next, t);
    YieldsOn(s, EnumStep(s, t).next, DrawStep(EnumStep(s, t).next, t).outcome);
  }

  lemma TriedYields(s: Setup, t: Try)
    ensures Yields(s, Tried(s, t).outcome)
  {
    if s.enumList != [] && s.activeEnum {
      ThroughEnumYields(s, t);
    } else {
      DrawYields(s, t);
    }
  }

  /** The whole series of attempts yields nothing else, and nothing that is excluded. */
  lemma {:induction false} TrialsYield(s: Setup, tries: seq<Try>)
    ensures Yields(s, Trials(s, tries))
    ensures IsText(Trials(s, tries)) ==> Trials(s, tries).s !in s.exceptList
    decreases |tries|
  {
    if tries != [] {
      var step := Tried(s, tries[0]);
      TriedYields(s, tries[0]);
      if !Accepts(s.exceptList, step.outcome) {
        TriedContinues(s, tries[0]);
        TrialsYield(step.next, tries[1..]);
        YieldsOn(s, step.next, Trials(step.next, tries[1..]));
      }
    }
  }

  // ----- the meaning of the length rules -----

  /** A string length obeys every length rule that applies. */
  ghost predicate Meets(rules: seq<Rule>, n: int) {
    forall i :: 0 <= i < |rules| ==>
                  && (MinRequest(rules[i]).Some? ==> MinRequest(rules[i]).value.size <= n)
                  && (MaxRequest(rules[i]).Some? ==> n <= MaxRequest(rules[i]).value.size)
  }

  /** What the two length bounds leave possible for a drawn string. */
  ghost predicate Possible(rules: seq<Rule>, n: nat) {
    var lo, hi := MinLength(rules), MaxLengthOf(rules);
    (lo <= n || n == 0) && (n <= (if hi < lo then lo + 10 else hi) || n == 0) && (n == 0 ==> lo <= 0)
  }

  /** A negated maximum length leaves only longer strings possible, whatever the other rules ask. */
  lemma OverLongIsLonger(rules: seq<Rule>, k: nat, n: nat)
    requires OneNegated(rules) && k < |rules| && OverLong(rules[k]) && Possible(rules, n)
    ensures n > rules[k].kind.limit.value
  {
    LengthIsForced(rules, k);
  }

  lemma LengthIsForced(rules: seq<Rule>, k: nat)
    requires OneNegated(rules) && k < |rules| && OverLong(rules[k])
    ensures MinLength(rules) == rules[k].kind.limit.value + 1
    ensures MaxLengthOf(rules) == rules[k].kind.limit.value + 101
  {
    var lows, highs := Requests(rules, MinRequest), Requests(rules, MaxRequest);
    var lo, hi := MinRequest(rules[k]).value, MaxRequest(rules[k]).value;
    AskersForceOnlyWhenNegated();
    RequestsForceOnce(rules, MinRequest, IsNegated);
    RequestsForceOnce(rules, MaxRequest, IsNegated);
    RequestsSpec(rules, MinRequest, lo);
    RequestsSpec(rules, MaxRequest, hi);
    CreateMinSpec(lows);
    CreateMaxSpec(highs);
    assert HasForced(lows) && HasForced(highs);
    SameForced(lows, lows, lo, CreateMin(lows).value);
    SameForced(highs, highs, hi, CreateMax(highs).value);
  }

  lemma AskersForceOnlyWhenNegated()
    ensures ForcesOnly(MinRequest, IsNegated) && ForcesOnly(MaxRequest, IsNegated)
  {
  }

  /** The length bounds do not depend on the order of the rules. */
  lemma LengthsAreOrderFree(rules: seq<Rule>, rules': seq<Rule>)
    requires multiset(rules) == multiset(rules') && OneNegated(rules) && OneNegated(rules')
    ensures MinLength(rules) == MinLength(rules') && MaxLengthOf(rules) == MaxLengthOf(rules')
  {
    AskersForceOnlyWhenNegated();
    SameRules(rules, rules', MinRequest, IsNegated);
    SameRules(rules, rules', MaxRequest, IsNegated);
    CreatedIsOrderFree(Requests(rules, MinRequest), Requests(rules', MinRequest));
    CreatedIsOrderFree(Requests(rules, MaxRequest), Requests(rules', MaxRequest));
  }

  /** Without a negated rule, a length obeys every rule exactly when it is between the two bounds. */
  lemma MeetsIffBetween(rules: seq<Rule>, n: int)
    requires NoneNegated(rules)
    ensures Meets(rules, n) <==>
            && (Requests(rules, MinRequest) != [] ==> MinLength(rules) <= n)
            && (Requests(rules, MaxRequest) != [] ==> n <= MaxLengthOf(rules))
  {
    var lows, highs := Requests(rules, MinRequest), Requests(rules, MaxRequest);
    AskersForceOnlyWhenNegated();
    RequestsForceOnce(rules, MinRequest, IsNegated);
    RequestsForceOnce(rules, MaxRequest, IsNegated);
    CreateMinSpec(lows);
    CreateMaxSpec(highs);
    if lows != [] {
      RequestsSpec(rules, MinRequest, CreateMin(lows).value);
    }
    if highs != [] {
      RequestsSpec(rules, MaxRequest, CreateMax(highs).value);
    }
    forall i | 0 <= i < |rules|
      ensures MinRequest(rules[i]).Some? ==> MinRequest(rules[i]).value in lows
      ensures MaxRequest(rules[i]).Some? ==> MaxRequest(rules[i]).value in highs
    {
      if MinRequest(rules[i]).Some? {
        RequestsSpec(rules, MinRequest, MinRequest(rules[i]).value);
      }
      if MaxRequest(rules[i]).Some? {
        RequestsSpec(rules, MaxRequest, MaxRequest(rules[i]).value);
      }
    }
  }

  /** A drawn string obeys the length rules exactly when some string length does. */
  lemma DrawnMeetsIffSatisfiable(rules: seq<Rule>, n: nat)
    requires NoneNegated(rules) && Possible(rules, n)
    ensures Meets(rules, n) <==> exists m: nat :: Meets(rules, m)
  {
    forall m: nat | Meets(rules, m)
      ensures Meets(rules, n)
    {
      MeetsIffBetween(rules, m);
      MeetsIffBetween(rules, n);
      if Requests(rules, MinRequest) != [] {
        MinimumIsMaximum(rules);
      }
    }
  }

  /** Without a negated rule, whatever is asked of the minimum is asked of the maximum too: it is a byte count. */
  lemma AskedOfBoth(rules: seq<Rule>, q: Request)
    requires NoneNegated(rules) && q in Requests(rules, MinRequest)
    ensures q in Requests(rules, MaxRequest)
  {
    RequestsSpec(rules, MinRequest, q);
    var i :| 0 <= i < |rules| && MinRequest(rules[i]) == Some(q);
    assert MaxRequest(rules[i]) == Some(q);
    RequestsSpec(rules, MaxRequest, q);
  }

  lemma NothingForced(rules: seq<Rule>)
    requires NoneNegated(rules)
    ensures OneForced(Requests(rules, MinRequest)) && OneForced(Requests(rules, MaxRequest))
    ensures !HasForced(Requests(rules, MaxRequest))
  {
    AskersForceOnlyWhenNegated();
    RequestsForceOnce(rules, MinRequest, IsNegated);
    RequestsForceOnce(rules, MaxRequest, IsNegated);
  }

  /** A minimum comes only from a byte count, which sets the maximum as well. */
  lemma MinimumIsMaximum(rules: seq<Rule>)
    requires NoneNegated(rules) && Requests(rules, MinRequest) != []
    ensures Requests(rules, MaxRequest) != [] && MaxLengthOf(rules) <= MinLength(rules)
  {
    NothingForced(rules);
    CreateMinSpec(Requests(rules, MinRequest));
    AskedOfBoth(rules, CreatedMin(rules).value);
    CreateMaxSpec(Requests(rules, MaxRequest));
  }

  // ----- what a returned string does to the rules -----

  predicate InSet(s: string, chars: seq<char>) {
    forall i :: 0 <= i < |s| ==> s[i] in chars
  }

  /** A string obeys a rule, as far as the rule is about the content or the length of plain strings. */
  predicate Obeys(s: string, k: Kind) {
    match k
    case MaxLength(limit, _) => limit.Some? ==> |s| <= limit.value
    case BytesFix(lengths) => |s| in lengths
    case Enum(values) => s in values
    case ValueEqual(value) => s == value
    case ValueNotEqual(value) => s != value
    case EmptyString => s == ""
    case CharacterSet(chars) => InSet(s, chars)
    case CamelCase => !Uses(s, SEPARATORS)
    case _ => true
  }

  /** A rule that says something about the string itself. */
  predicate IsAbout(k: Kind) {
    match k
    case MaxLength(limit, _) => limit.Some?
    case TypeString => false
    case RequiredTrue => false
    case RemoveField => false
    case Unsupported => false
    case _ => true
  }

  /** A string breaks a rule that says something about it exactly when it does not obey it. */
  predicate Breaks(s: string, k: Kind) {
    IsAbout(k) ==> !Obeys(s, k)
  }

  lemma {:induction false} FirstExitIs(rules: seq<Rule>)
    ensures FirstExit(rules).Some? ==> exists i :: 0 <= i < |rules| && Exit(rules[i]) == FirstExit(rules)
    ensures FirstExit(rules).None? ==> forall i :: 0 <= i < |rules| ==> Exit(rules[i]).None?
  {
    if rules != [] {
      FirstExitIs(rules[1..]);
      assert forall i :: 0 < i < |rules| ==> rules[i] == rules[1..][i - 1];
      if FirstExit(rules).Some? && Exit(rules[0]).None? {
        var i :| 0 <= i < |rules| - 1 && Exit(rules[1..][i]) == FirstExit(rules);
        assert Exit(rules[i + 1]) == FirstExit(rules);
      }
    }
  }

  /** A string that ends the loop over the rules comes from the negated rule, prescribes itself and breaks that rule. */
  lemma ExitBreaks(rules: seq<Rule>, k: nat)
    requires FirstExit(rules).Some?
    ensures !FirstExit(rules).value.Drawn?
    ensures FirstExit(rules).value.Given? ==> FirstExit(rules).value.s in AllPrescribed(rules) && !NoneNegated(rules)
    ensures FirstExit(rules).value.Given? && OneNegated(rules) && k < |rules| && rules[k].negated ==>
              Breaks(FirstExit(rules).value.s, rules[k].kind)
  {
    FirstExitIs(rules);
    var i :| 0 <= i < |rules| && Exit(rules[i]) == FirstExit(rules);
    ExitIsNegated(rules[i]);
    if FirstExit(rules).value.Given? {
      assert FirstExit(rules).value.s in Prescribed(rules[i]);
      if OneNegated(rules) && k < |rules| && rules[k].negated {
        SameNegated(rules, i, k);
      }
    }
  }

  lemma ExitIsNegated(r: Rule)
    requires Exit(r).Some?
    ensures !Exit(r).value.Drawn?
    ensures Exit(r).value.Given? ==> r.negated && Exit(r).value.s in Prescribed(r) && Breaks(Exit(r).value.s, r.kind)
  {
  }

  lemma SameNegated(rules: seq<Rule>, i: nat, k: nat)
    requires OneNegated(rules) && i < |rules| && k < |rules| && rules[i].negated && rules[k].negated
    ensures i == k
  {
    assert IsNegated(rules[i]) && IsNegated(rules[k]);
  }

  lemma NarrowedOnlyForBytes(rules: seq<Rule>, printable: seq<char>, fix: int)
    requires forall i :: 0 <= i < |rules| ==> !NegatesBytes(rules[i])
    ensures Narrowed(Merged(rules, printable), fix) == Merged(rules, printable)
  {
    MergedExcluded(rules, printable);
  }

  // ----- with no rule negated -----

  /** With no rule negated, no excluded string is returned, and a drawn one obeys the length rules if any string can. */
  lemma NoneNegatedLaws(rules: seq<Rule>, printable: seq<char>, fix: int, tries: seq<Try>)
    requires NoneNegated(rules)
    ensures var o := Generated(rules, printable, fix, tries);
            && (IsText(o) ==> o.s !in Forbidden(rules))
            && (o.Drawn? ==> Possible(rules, |o.s|))
            && (o.Drawn? && (exists m: nat :: Meets(rules, m)) ==> Meets(rules, |o.s|))
  {
    if FirstExit(rules).Some? {
      ExitBreaks(rules, 0);
    } else {
      var s, o := Merged(rules, printable), Generated(rules, printable, fix, tries);
      NarrowedOnlyForBytes(rules, printable, fix);
      TrialsYield(s, tries);
      MergedBounds(rules, printable);
      MergedInserted(rules, printable);
      if IsText(o) {
        MergedExcepts(rules, printable, o.s);
      }
      if o.Drawn? {
        DrawnMeetsIffSatisfiable(rules, |o.s|);
      }
    }
  }

  /** A string that was not drawn was prescribed by a rule. */
  lemma GivenIsPrescribed(rules: seq<Rule>, printable: seq<char>, fix: int, tries: seq<Try>)
    requires Generated(rules, printable, fix, tries).Given?
    ensures Generated(rules, printable, fix, tries).s in AllPrescribed(rules)
  {
    if FirstExit(rules).Some? {
      ExitBreaks(rules, 0);
    } else {
      var s := Merged(rules, printable);
      TrialsYield(Narrowed(s, fix), tries);
      assert Givable(Narrowed(s, fix)) == Givable(s);
      MergedGivable(rules, printable, Generated(rules, printable, fix, tries).s);
    }
  }

  // ----- with one rule negated -----

  /** A negated character set leaves none of its characters to draw from. */
  ghost predicate Avoids(s: Setup, chars: seq<char>) {
    && (forall c :: c in s.population.chars ==> c !in chars)
    && (forall c :: c in chars ==> c in s.notAllowed)
    && s.determined && s.inserted == []
  }

  lemma {:induction false} ActiveLevel(rules: seq<Rule>, printable: seq<char>)
    requires NoneNegated(rules)
    ensures Merged(rules, printable).population.level <= 2
  {
    if rules != [] {
      ActiveLevel(rules[..|rules| - 1], printable);
    }
  }

  lemma {:induction false} MergedCharset(rules: seq<Rule>, printable: seq<char>, k: nat)
    requires OneNegated(rules) && k < |rules| && rules[k].hit && rules[k].negated && rules[k].kind.CharacterSet?
    ensures Merged(rules, printable).population == Population(Without(printable, rules[k].kind.chars), 999)
  {
    var n := |rules| - 1;
    assert IsNegated(rules[k]);
    if k == n {
      assert NoneNegated(rules[..n]) by {
        assert forall i :: 0 <= i < n ==> !IsNegated(rules[i]);
      }
      ActiveLevel(rules[..n], printable);
    } else {
      assert !IsNegated(rules[n]);
      assert forall i :: 0 <= i < n ==> rules[..n][i] == rules[i];
      MergedCharset(rules[..n], printable, k);
    }
  }

  function AllDisallowed(rules: seq<Rule>): seq<char> {
    if rules == [] then [] else Extended(AllDisallowed(rules[..|rules| - 1]), Disallowed(rules[|rules| - 1]))
  }

  lemma {:induction false} MergedNotAllowed(rules: seq<Rule>, printable: seq<char>)
    ensures Merged(rules, printable).notAllowed == AllDisallowed(rules)
  {
    if rules != [] {
      MergedNotAllowed(rules[..|rules| - 1], printable);
    }
  }

  lemma {:induction false} DisallowedStays(rules: seq<Rule>, k: nat, c: char)
    requires k < |rules| && c in Disallowed(rules[k])
    ensures c in AllDisallowed(rules)
  {
    var n := |rules| - 1;
    if k < n {
      DisallowedStays(rules[..n], k, c);
    }
    assert c in AllDisallowed(rules[..n]) + Disallowed(rules[n]);
  }

  lemma TriedAvoids(s: Setup, t: Try, chars: seq<char>)
    requires Avoids(s, chars)
    ensures IsText(Tried(s, t).outcome) ==> !Uses(Tried(s, t).outcome.s, chars)
  {
    UsesFewer(s, chars);
    if EqualValue(s).None? {
      if s.enumList != [] && s.activeEnum {
        EnumAvoids(s, t, chars);
        DrawAvoids(EnumStep(s, t).next, t, chars);
      } else {
        DrawAvoids(s, t, chars);
      }
    }
  }

  lemma EnumAvoids(s: Setup, t: Try, chars: seq<char>)
    requires Avoids(s, chars)
    ensures IsText(EnumStep(s, t).outcome) ==> !Uses(EnumStep(s, t).outcome.s, chars)
    ensures Avoids(EnumStep(s, t).next, chars)
  {
    UsesFewer(s, chars);
    DrawFits(s, s.population.chars, t.enumLength, t.enumChars);
    assert forall x :: x in Filtered(s) && s.notAllowed != [] ==> !Uses(x, s.notAllowed);
  }

  lemma UsesFewer(s: Setup, chars: seq<char>)
    requires forall c :: c in chars ==> c in s.notAllowed
    ensures forall x: string :: !Uses(x, s.notAllowed) ==> !Uses(x, chars)
  {
    forall x: string | Uses(x, chars)
      ensures Uses(x, s.notAllowed)
    {
      var i :| 0 <= i < |chars| && chars[i] in x;
      assert chars[i] in s.notAllowed;
    }
  }

  lemma DrawAvoids(s: Setup, t: Try, chars: seq<char>)
    requires Avoids(s, chars)
    ensures DrawStep(s, t).outcome.Drawn? ==> !Uses(DrawStep(s, t).outcome.s, chars)
  {
    DrawFits(s, Limited(s).population.chars, t.length, t.chars);
    LimitedIsPart(s);
  }

  lemma {:induction false} TrialsAvoid(s: Setup, tries: seq<Try>, chars: seq<char>)
    requires Avoids(s, chars)
    ensures IsText(Trials(s, tries)) ==> !Uses(Trials(s, tries).s, chars)
    decreases |tries|
  {
    if tries != [] {
      TriedAvoids(s, tries[0], chars);
      if !Accepts(s.exceptList, Tried(s, tries[0]).outcome) {
        TriedContinues(s, tries[0]);
        TrialsAvoid(Tried(s, tries[0]).next, tries[1..], chars);
      }
    }
  }

  /** Only negated byte counts narrow the lengths, and only negated camel case inserts characters. */
  lemma NegatedKeeps(rules: seq<Rule>, printable: seq<char>, fix: int, k: nat)
    requires OneNegated(rules) && k < |rules| && rules[k].negated && !rules[k].kind.BytesFix? && !rules[k].kind.CamelCase?
    ensures Narrowed(Merged(rules, printable), fix) == Merged(rules, printable)
    ensures Merged(rules, printable).inserted == [] && Merged(rules, printable).determined
  {
    OneKind(rules, k, NegatesBytes);
    OneKind(rules, k, NegatesCamel);
    NarrowedOnlyForBytes(rules, printable, fix);
    MergedInserted(rules, printable);
    MergedFlags(rules, printable);
    assert IsNegated(rules[k]);
  }

  /** Under a negated character set no returned string uses any of its characters; so only the empty one obeys it. */
  lemma CharactersAvoided(rules: seq<Rule>, printable: seq<char>, tries: seq<Try>, k: nat)
    requires OneNegated(rules) && k < |rules| && rules[k].hit && rules[k].negated && rules[k].kind.CharacterSet?
    requires IsText(Trials(Merged(rules, printable), tries))
    ensures !Uses(Trials(Merged(rules, printable), tries).s, rules[k].kind.chars)
    ensures Breaks(Trials(Merged(rules, printable), tries).s, rules[k].kind) <==> Trials(Merged(rules, printable), tries).s != ""
  {
    NegatedKeeps(rules, printable, 0, k);
    MergedCharset(rules, printable, k);
    MergedNotAllowed(rules, printable);
    forall c | c in rules[k].kind.chars
      ensures c in AllDisallowed(rules)
    {
      DisallowedStays(rules, k, c);
    }
    TrialsAvoid(Merged(rules, printable), tries, rules[k].kind.chars);
    UnusedIsBroken(Trials(Merged(rules, printable), tries).s, rules[k].kind.chars);
  }

  lemma UnusedIsBroken(x: string, chars: seq<char>)
    requires !Uses(x, chars)
    ensures InSet(x, chars) <==> x == ""
  {
    if x != "" {
      assert x[0] in x;
      assert x[0] !in chars;
    }
  }

  lemma MaximumExceeded(rules: seq<Rule>, printable: seq<char>, tries: seq<Try>, k: nat)
    requires OneNegated(rules) && k < |rules| && OverLong(rules[k])
    requires IsText(Trials(Merged(rules, printable), tries))
    ensures Breaks(Trials(Merged(rules, printable), tries).s, rules[k].kind)
  {
    NegatedKeeps(rules, printable, 0, k);
    MergedFlags(rules, printable);
    assert !Merged(rules, printable).activeEnum;
    TrialsYield(Merged(rules, printable), tries);
    MergedBounds(rules, printable);
    OverLongIsLonger(rules, k, |Trials(Merged(rules, printable), tries).s|);
  }

  lemma ContentAvoided(rules: seq<Rule>, k: nat, x: string)
    requires k < |rules| && rules[k].hit && rules[k].negated && x !in Forbidden(rules)
    requires rules[k].kind.Enum? || rules[k].kind.ValueEqual? || rules[k].kind.EmptyString?
    ensures Breaks(x, rules[k].kind)
  {
    assert x !in Excepted(rules[k]);
  }

  /** A returned string breaks the negated rule; byte counts, character sets and camel case have theorems of their own. */
  lemma TextBreaksNegated(rules: seq<Rule>, printable: seq<char>, fix: int, tries: seq<Try>, k: nat)
    requires OneNegated(rules) && k < |rules| && rules[k].hit && rules[k].negated
    requires !rules[k].kind.BytesFix? && !rules[k].kind.CharacterSet? && !rules[k].kind.CamelCase?
    requires IsText(Generated(rules, printable, fix, tries))
    ensures Breaks(Generated(rules, printable, fix, tries).s, rules[k].kind)
  {
    if FirstExit(rules).Some? {
      ExitBreaks(rules, k);
    } else {
      var x := Generated(rules, printable, fix, tries).s;
      FirstExitIs(rules);
      NegatedKeeps(rules, printable, fix, k);
      TrialsYield(Merged(rules, printable), tries);
      MergedExcepts(rules, printable, x);
      match rules[k].kind {
        case MaxLength(limit, _) => if limit.Some? { MaximumExceeded(rules, printable, tries, k); }
        case Enum(_) => ContentAvoided(rules, k, x);
        case ValueEqual(_) => ContentAvoided(rules, k, x);
        case EmptyString => ContentAvoided(rules, k, x);
        case _ =>
      }
    }
  }

  // ----- when a string is returned at all -----

  /** Every attempt yields the empty string or an excluded one. */
  predicate AllRejected(s: Setup, tries: seq<Try>)
    decreases |tries|
  {
    tries != [] ==>
      var step := Tried(s, tries[0]);
      !Accepts(s.exceptList, step.outcome) && AllRejected(step.next, tries[1..])
  }

  /** There is something to draw from. */
  predicate Usable(s: Setup) {
    Limited(s).population.chars != []
  }

  lemma {:induction false} WithoutAll(chars: seq<char>, excluded: seq<char>)
    requires forall c :: c in chars ==> c !in excluded
    ensures Without(chars, excluded) == chars
  {
    if chars != [] {
      WithoutAll(chars[1..], excluded);
    }
  }

  /** Limiting the population a second time changes nothing. */
  lemma LimitedTwice(s: Setup)
    ensures Limited(Limited(s)).population.chars == Limited(s).population.chars
  {
    if s.notAllowed != [] {
      var l := Limited(s);
      if s.population.level <= 9999 {
        WithoutAll(l.population.chars, s.notAllowed);
      }
    }
  }

  lemma EnumKeepsUsable(s: Setup, list: seq<string>)
    ensures Limited(s.(enumList := list)).population == Limited(s).population
  {
  }

  /** The ways in which an attempt can go. */
  ghost predicate TriedAs(s: Setup, t: Try, step: Step) {
    || (step.next == s && !step.outcome.Aborted? && !step.outcome.Drawn?)
    || step == EnumStep(s, t)
    || step == DrawStep(EnumStep(s, t).next, t)
    || step == DrawStep(s, t)
  }

  lemma TriedIs(s: Setup, t: Try)
    ensures TriedAs(s, t, Tried(s, t))
  {
  }

  lemma StepKeepsUsable(s: Setup, t: Try, step: Step)
    requires Usable(s) && TriedAs(s, t, step)
    ensures Usable(step.next) && !step.outcome.Aborted?
  {
    EnumKeepsUsable(s, EnumStep(s, t).next.enumList);
    if step == EnumStep(s, t) {
      LimitedIsPart(s);
      DrawFits(s, s.population.chars, t.enumLength, t.enumChars);
    } else if step == DrawStep(s, t) {
      DrawKeepsUsable(s, t);
    } else if step == DrawStep(EnumStep(s, t).next, t) {
      DrawKeepsUsable(EnumStep(s, t).next, t);
    }
  }

  lemma TriedKeepsUsable(s: Setup, t: Try)
    requires Usable(s)
    ensures Usable(Tried(s, t).next) && !Tried(s, t).outcome.Aborted?
  {
    TriedIs(s, t);
    StepKeepsUsable(s, t, Tried(s, t));
  }

  lemma DrawKeepsUsable(s: Setup, t: Try)
    requires Usable(s)
    ensures Usable(DrawStep(s, t).next) && !DrawStep(s, t).outcome.Aborted?
  {
    LimitedTwice(s);
    DrawFits(s, Limited(s).population.chars, t.length, t.chars);
  }

  /** With something to draw from, the generator gives up exactly when every attempt is rejected. */
  lemma {:induction false} GivesUpIff(s: Setup, tries: seq<Try>)
    requires Usable(s)
    ensures Trials(s, tries).Aborted? <==> AllRejected(s, tries)
    decreases |tries|
  {
    if tries != [] {
      TriedKeepsUsable(s, tries[0]);
      GivesUpIff(Tried(s, tries[0]).next, tries[1..]);
    }
  }

  lemma OverLongIsNegated(rules: seq<Rule>)
    ensures Any(rules, OverLong) ==> Any(rules, IsNegated)
  {
    if Any(rules, OverLong) {
      var i :| 0 <= i < |rules| && OverLong(rules[i]);
      assert IsNegated(rules[i]);
    }
  }

  /** Without excluded strings, and with something to draw from, the generator never gives up. */
  lemma NeverGivesUp(rules: seq<Rule>, printable: seq<char>, fix: int, tries: seq<Try>)
    requires FirstExit(rules).None? && Forbidden(rules) == {} && tries != []
    requires Usable(Merged(rules, printable))
    ensures !Generated(rules, printable, fix, tries).Aborted?
  {
    var s := Narrowed(Merged(rules, printable), fix);
    if s.exceptList != [] {
      MergedExcepts(rules, printable, s.exceptList[0]);
    }
    assert Usable(s);
    TriedKeepsUsable(s, tries[0]);
  }

  /** Then a negated maximum length always leads to a drawn string. */
  lemma OverLongIsDrawn(rules: seq<Rule>, printable: seq<char>, fix: int, tries: seq<Try>)
    requires FirstExit(rules).None? && Forbidden(rules) == {} && tries != []
    requires Usable(Merged(rules, printable)) && Any(rules, OverLong)
    ensures Generated(rules, printable, fix, tries).Drawn?
  {
    NeverGivesUp(rules, printable, fix, tries);
    MergedFlags(rules, printable);
    OverLongIsNegated(rules);
    TrialsYield(Narrowed(Merged(rules, printable), fix), tries);
  }

  // ----- a negated maximum length -----

  /** The string that one attempt draws. */
  function DrawnBy(s: Setup, t: Try): Outcome {
    DrawStep(s, t).outcome
  }

  /** With enums switched off by a negated rule, an attempt is a draw, the same after any attempts before it. */
  ghost predicate DrawsLike(s: Setup, after: Setup) {
    && after.determined && !after.activeEnum && after.exceptList == s.exceptList && after.inserted == s.inserted
    && after.min == s.min && after.max == s.max
    && Limited(after).population.chars == Limited(s).population.chars
  }

  lemma OnlyDraw(s: Setup, t: Try)
    requires s.determined && !s.activeEnum
    ensures Tried(s, t) == DrawStep(s, t)
  {
  }

  lemma LikeOutcome(s: Setup, after: Setup, t: Try)
    requires DrawsLike(s, after)
    ensures DrawStep(after, t).outcome == DrawnBy(s, t)
  {
    assert Low(after) == Low(s) && Top(after) == Top(s);
    assert LengthFor(after, t.length) == LengthFor(s, t.length);
  }

  lemma LikeNext(s: Setup, after: Setup)
    requires DrawsLike(s, after)
    ensures DrawsLike(s, Limited(after))
  {
    LimitedTwice(after);
    LimitedIsPart(after);
  }

  lemma RejectedFirst(s: Setup, after: Setup, tries: seq<Try>)
    requires DrawsLike(s, after) && tries != []
    ensures AllRejected(after, tries) <==>
            !Accepts(s.exceptList, DrawnBy(s, tries[0])) && AllRejected(Limited(after), tries[1..])
  {
    OnlyDraw(after, tries[0]);
    LikeOutcome(s, after, tries[0]);
  }

  /** Every draw of a series, each made from the same configuration, is empty or excluded. */
  predicate DrawsRejected(s: Setup, tries: seq<Try>) {
    tries == [] || (!Accepts(s.exceptList, DrawnBy(s, tries[0])) && DrawsRejected(s, tries[1..]))
  }

  lemma {:induction false} OnlyDraws(s: Setup, after: Setup, tries: seq<Try>)
    requires DrawsLike(s, after)
    ensures AllRejected(after, tries) <==> DrawsRejected(s, tries)
    decreases |tries|
  {
    if tries != [] {
      RejectedFirst(s, after, tries);
      LikeNext(s, after);
      OnlyDraws(s, Limited(after), tries[1..]);
    }
  }

  /**
   A negated maximum length always yields a string that is longer, but at most by 101, whatever enums and values
   the other rules prescribe. It gives up exactly when all of its draws are empty or excluded.
   */
  lemma NegatedMaximumYields(rules: seq<Rule>, printable: seq<char>, fix: int, tries: seq<Try>, k: nat)
    requires OneNegated(rules) && k < |rules| && OverLong(rules[k]) && FirstExit(rules).None?
    requires Usable(Merged(rules, printable))
    ensures var o := Generated(rules, printable, fix, tries);
            && (o.Drawn? || o.Aborted?)
            && (o.Drawn? ==> rules[k].kind.limit.value < |o.s|)
            && (o.Drawn? && rules[k].kind.limit.value >= 0 ==> |o.s| <= rules[k].kind.limit.value + 101)
            && (o.Aborted? <==> DrawsRejected(Merged(rules, printable), tries))
    ensures Forbidden(rules) == {} && tries != [] ==> Generated(rules, printable, fix, tries).Drawn?
  {
    var s := Merged(rules, printable);
    NegatedKeeps(rules, printable, fix, k);
    OverLongDraws(rules, printable, k);
    LengthIsForced(rules, k);
    TrialsYield(s, tries);
    GivesUpIff(s, tries);
    OnlyDraws(s, s, tries);
    if Forbidden(rules) == {} && tries != [] {
      NeverGivesUp(rules, printable, fix, tries);
    }
  }

  lemma OverLongDraws(rules: seq<Rule>, printable: seq<char>, k: nat)
    requires OneNegated(rules) && k < |rules| && OverLong(rules[k])
    ensures DrawsLike(Merged(rules, printable), Merged(rules, printable))
    ensures Low(Merged(rules, printable)) == MinLength(rules) && High(Merged(rules, printable)) == MaxLengthOf(rules)
  {
    NegatedKeeps(rules, printable, 0, k);
    MergedFlags(rules, printable);
    MergedBounds(rules, printable);
    assert Any(rules, OverLong);
  }
}
