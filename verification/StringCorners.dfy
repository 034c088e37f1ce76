/** When negated and active rules on lengths and characters are broken and obeyed by every returned string. */
module StringCorners {
  import opened StringRules
  import opened StringLaws
  import opened StringReach
  import opened StringGuards

  // ----- drawing without exclusions -----

  /** A string that repeats one character. */
  ghost function Repeated(c: char, n: nat): string {
    seq(n, (i: nat) => c)
  }

  lemma RepeatedIsDrawable(s: Setup, population: seq<char>, c: char, n: nat)
    requires c in population && LengthFits(s, n)
    ensures Drawable(s, population, Repeated(c, n))
  {
  }

  /** Without exclusions, all drawn strings consist of certain characters exactly when the population does. */
  lemma AllDrawnCharacters(s: Setup, population: seq<char>, q: string -> bool, ok: char -> bool)
    requires s.exceptList == [] && forall x: string :: q(x) <==> forall i :: 0 <= i < |x| ==> ok(x[i])
    ensures AllDrawn(s, population, q) <==> Top(s) < 1 || forall c :: c in population ==> ok(c)
  {
    AllDrawnIff(s, population, q);
    if Top(s) >= 1 && exists c :: c in population && !ok(c) {
      var c :| c in population && !ok(c);
      var n := if Low(s) < 1 then 1 else Low(s);
      RepeatedIsDrawable(s, population, c, n);
      assert Repeated(c, n)[0] == c;
      assert !q(Repeated(c, n));
    }
  }

  // ----- a negated byte count -----

  lemma {:induction false} MergedExcludes(rules: seq<Rule>, printable: seq<char>, k: nat)
    requires OneNegated(rules) && k < |rules| && NegatesBytes(rules[k])
    ensures Merged(rules, printable).excludedLengths == LengthSet(rules[k].kind.lengths)
  {
    var n := |rules| - 1;
    assert IsNegated(rules[k]);
    if k < n {
      assert !IsNegated(rules[n]);
      assert forall i :: 0 <= i < n ==> rules[..n][i] == rules[i];
      MergedExcludes(rules[..n], printable, k);
    }
  }

  lemma {:induction false} MergedUnforced(rules: seq<Rule>, printable: seq<char>)
    requires forall i :: 0 <= i < |rules| ==> !OverLong(rules[i])
    ensures Merged(rules, printable).min.Some? ==> !Merged(rules, printable).min.value.force
    ensures Merged(rules, printable).max.Some? ==> !Merged(rules, printable).max.value.force
  {
    if rules != [] {
      MergedUnforced(rules[..|rules| - 1], printable);
    }
  }

  lemma BytesKeep(rules: seq<Rule>, printable: seq<char>, k: nat)
    requires OneNegated(rules) && k < |rules| && NegatesBytes(rules[k])
    ensures Merged(rules, printable).inserted == [] && Merged(rules, printable).determined
  {
    OneKind(rules, k, NegatesCamel);
    MergedInserted(rules, printable);
    MergedFlags(rules, printable);
    assert IsNegated(rules[k]);
  }

  /** With a length to choose, a drawn string has that length, which is not excluded. */
  lemma ChosenLengthIsDrawn(rules: seq<Rule>, printable: seq<char>, k: nat, fix: int, x: string)
    requires OneNegated(rules) && k < |rules| && NegatesBytes(rules[k])
    requires fix in Choices(Merged(rules, printable)) && Low(Merged(rules, printable)) >= 0
    requires LengthFits(Narrowed(Merged(rules, printable), fix), |x|)
    ensures |x| == fix && |x| !in rules[k].kind.lengths
  {
    OneKind(rules, k, OverLong);
    MergedUnforced(rules, printable);
    MergedExcludes(rules, printable, k);
    var s := Narrowed(Merged(rules, printable), fix);
    assert Low(s) == fix && High(s) == fix;
  }

  /** A negated byte count is always broken exactly when the guard holds. */
  lemma BytesBrokenIff(rules: seq<Rule>, printable: seq<char>, k: nat)
    requires OneNegated(rules) && k < |rules| && NegatesBytes(rules[k]) && FirstExit(rules).None?
    ensures Always(rules, printable, Breaking(rules[k].kind)) <==> GuardAll(Merged(rules, printable), Breaking(rules[k].kind))
  {
    BytesKeep(rules, printable, k);
    AlwaysIff(rules, printable, Breaking(rules[k].kind));
  }

  /** None of the lengths can be drawn. */
  predicate DrawsNone(s: Setup, lengths: seq<int>) {
    forall n | n in lengths :: !(Low(s) <= n <= Top(s))
  }

  /** There is a length to choose, or no length that can be drawn is excluded. */
  predicate SafeDraws(s: Setup, lengths: seq<int>) {
    Choices(s) != {} || DrawsNone(s, lengths)
  }

  /** The prescribed value, the values of the enum, and the draws all avoid the lengths, as far as each can be reached. */
  predicate AvoidsLengths(s: Setup, lengths: seq<int>) {
    if EqualValue(s).Some? then |EqualValue(s).value| !in lengths
    else if s.enumList != [] && s.activeEnum && Filtered(s) != [] then
      && (forall x | x in Filtered(s) :: x != "" ==> |x| !in lengths)
      && ("" in Filtered(s) ==> SafeDraws(s, lengths))
    else SafeDraws(s, lengths)
  }

  /** The prescribed value or the values of the enum avoid the lengths. */
  predicate PrescribedAvoids(s: Setup, lengths: seq<int>) {
    if EqualValue(s).Some? then |EqualValue(s).value| !in lengths
    else if s.enumList != [] && s.activeEnum then forall x | x in Filtered(s) :: x != "" ==> |x| !in lengths
    else true
  }

  /**
   Without excluded strings, a negated byte count is always broken exactly when what the rules prescribe avoids the
   lengths and, where strings are drawn, there is a length to choose or none of the lengths can be drawn. The source
   passes over a missing choice in silence.
   */
  lemma BytesBrokenGuard(rules: seq<Rule>, printable: seq<char>, k: nat)
    requires OneNegated(rules) && k < |rules| && NegatesBytes(rules[k]) && FirstExit(rules).None?
    requires Merged(rules, printable).exceptList == [] && Usable(Merged(rules, printable)) && Low(Merged(rules, printable)) >= 0
    ensures Always(rules, printable, Breaking(rules[k].kind)) <==> AvoidsLengths(Merged(rules, printable), rules[k].kind.lengths)
  {
    var s := Merged(rules, printable);
    BytesKeep(rules, printable, k);
    BytesBrokenIff(rules, printable, k);
    if Choices(s) == {} {
      NoChoiceGuard(s, rules[k].kind.lengths);
    } else {
      forall fix | fix in Choices(s)
        ensures Guard(Narrowed(s, fix), Breaking(rules[k].kind)) <==> AvoidsLengths(s, rules[k].kind.lengths)
      {
        ChoiceGuard(rules, printable, k, fix);
      }
      var fix :| fix in Choices(s);
    }
  }

  lemma NoChoiceGuard(s: Setup, lengths: seq<int>)
    requires s.determined && s.exceptList == [] && Usable(s) && Low(s) >= 0 && Choices(s) == {}
    ensures Guard(s, Breaking(BytesFix(lengths))) <==> AvoidsLengths(s, lengths)
  {
    LimitedIsPart(s);
    var c := Limited(s).population.chars[0];
    assert c in s.population.chars;
    AllDrawnLengths(s, Limited(s).population.chars, lengths);
    AllDrawnLengths(s, s.population.chars, lengths);
  }

  lemma AllDrawnLengths(s: Setup, population: seq<char>, lengths: seq<int>)
    requires s.exceptList == [] && population != [] && Low(s) >= 0
    ensures AllDrawn(s, population, Breaking(BytesFix(lengths))) <==> DrawsNone(s, lengths)
  {
    var q := Breaking(BytesFix(lengths));
    AllDrawnIff(s, population, q);
    if !DrawsNone(s, lengths) {
      var n :| n in lengths && Low(s) <= n <= Top(s);
      RepeatedIsDrawable(s, population, population[0], n);
      assert !q(Repeated(population[0], n));
    }
  }

  /** Choosing a length changes neither the prescribed value nor the filtered enum when nothing is excluded. */
  lemma NarrowedPrescribes(s: Setup, fix: int)
    requires s.exceptList == []
    ensures EqualValue(Narrowed(s, fix)) == EqualValue(s) && Filtered(Narrowed(s, fix)) == Filtered(s)
  {
  }

  lemma ChoiceGuard(rules: seq<Rule>, printable: seq<char>, k: nat, fix: int)
    requires OneNegated(rules) && k < |rules| && NegatesBytes(rules[k])
    requires Merged(rules, printable).exceptList == [] && Low(Merged(rules, printable)) >= 0
    requires fix in Choices(Merged(rules, printable))
    ensures Guard(Narrowed(Merged(rules, printable), fix), Breaking(rules[k].kind)) <==>
            AvoidsLengths(Merged(rules, printable), rules[k].kind.lengths)
  {
    var s := Merged(rules, printable);
    var f := Narrowed(s, fix);
    BytesKeep(rules, printable, k);
    NarrowedPrescribes(s, fix);
    ChosenIsSafe(rules, printable, k, fix, Limited(f).population.chars);
    ChosenIsSafe(rules, printable, k, fix, f.population.chars);
    SafeGuard(f, rules[k].kind.lengths);
    ChoiceAvoids(s, rules[k].kind.lengths);
    PrescribedAlike(s, f, rules[k].kind.lengths);
  }

  /** With a length to choose, draws are safe, and only what is prescribed matters. */
  lemma ChoiceAvoids(s: Setup, lengths: seq<int>)
    requires Choices(s) != {}
    ensures AvoidsLengths(s, lengths) <==> PrescribedAvoids(s, lengths)
  {
  }

  lemma PrescribedAlike(s: Setup, f: Setup, lengths: seq<int>)
    requires EqualValue(s) == EqualValue(f) && Filtered(s) == Filtered(f) && s.enumList == f.enumList && s.activeEnum == f.activeEnum
    ensures PrescribedAvoids(s, lengths) <==> PrescribedAvoids(f, lengths)
  {
  }

  /** Where all draws are safe, only what is prescribed matters. */
  lemma SafeGuard(f: Setup, lengths: seq<int>)
    requires f.determined && AllDrawn(f, Limited(f).population.chars, Breaking(BytesFix(lengths)))
    requires AllDrawn(f, f.population.chars, Breaking(BytesFix(lengths)))
    ensures Guard(f, Breaking(BytesFix(lengths))) <==> PrescribedAvoids(f, lengths)
  {
  }

  lemma ChosenIsSafe(rules: seq<Rule>, printable: seq<char>, k: nat, fix: int, population: seq<char>)
    requires OneNegated(rules) && k < |rules| && NegatesBytes(rules[k])
    requires fix in Choices(Merged(rules, printable)) && Low(Merged(rules, printable)) >= 0
    ensures AllDrawn(Narrowed(Merged(rules, printable), fix), population, Breaking(rules[k].kind))
  {
    var f := Narrowed(Merged(rules, printable), fix);
    AllDrawnIff(f, population, Breaking(rules[k].kind));
    forall x | Drawable(f, population, x)
      ensures Breaks(x, rules[k].kind)
    {
      ChosenLengthIsDrawn(rules, printable, k, fix, x);
    }
  }

  // ----- a negated character set -----

  /** A configuration that can yield the empty string. */
  predicate YieldsEmpty(s: Setup) {
    s.exceptList == [] && ReachesDraw(s) && Low(s) <= 0
  }

  /** A negated character set is always broken exactly when the empty string, which obeys every set, cannot be drawn. */
  lemma CharsetBrokenIff(rules: seq<Rule>, printable: seq<char>, k: nat)
    requires OneNegated(rules) && k < |rules| && rules[k].hit && rules[k].negated && rules[k].kind.CharacterSet?
    requires FirstExit(rules).None?
    ensures Always(rules, printable, Breaking(rules[k].kind)) <==> !YieldsEmpty(Merged(rules, printable))
  {
    var s := Merged(rules, printable);
    NegatedKeeps(rules, printable, 0, k);
    ReturnedIff(rules, printable, "");
    EmptyIsReturnedIff(rules, printable, k);
    forall fix, tries | Returns(rules, printable, fix, tries)
      ensures Breaks(Generated(rules, printable, fix, tries).s, rules[k].kind) <==> Generated(rules, printable, fix, tries).s != ""
    {
      NegatedKeeps(rules, printable, fix, k);
      CharactersAvoided(rules, printable, tries, k);
    }
  }

  lemma EmptyIsReturnedIff(rules: seq<Rule>, printable: seq<char>, k: nat)
    requires OneNegated(rules) && k < |rules| && rules[k].hit && rules[k].negated && rules[k].kind.CharacterSet?
    ensures (exists fix :: ReturnsWith(Merged(rules, printable), fix, "")) <==> YieldsEmpty(Merged(rules, printable))
  {
    var s := Merged(rules, printable);
    forall fix: int
      ensures Narrowed(s, fix) == s
    {
      NegatedKeeps(rules, printable, fix, k);
    }
    NegatedKeeps(rules, printable, 0, k);
    OneKind(rules, k, NegatesBytes);
    MergedExcluded(rules, printable);
    assert CanReturn(s, "") <==> YieldsEmpty(s);
    assert CanReturn(s, "") ==> ReturnsWith(s, 0, "");
  }

  // ----- negated camel case -----

  function OrEmpty(q: string -> bool): string -> bool {
    x => x == "" || q(x)
  }

  /** Whether every string that is returned without insertion has a property. */
  predicate PlainGuard(s: Setup, q: string -> bool) {
    if EqualValue(s).Some? then q(EqualValue(s).value)
    else if s.enumList == [] || !s.activeEnum then true
    else if Filtered(s) == [] then AllDrawn(s, s.population.chars, OrEmpty(q))
    else AllFiltered(s, q)
  }

  lemma PlainGuardIff(s: Setup, q: string -> bool)
    ensures PlainGuard(s, q) <==> forall x :: Plainly(s, x) ==> q(x)
  {
    AllDrawnIff(s, s.population.chars, OrEmpty(q));
    forall x | x in Filtered(s)
      ensures x !in s.exceptList
    {
      FilteredIsAccepted(s, x);
    }
    if EqualValue(s).Some? {
      assert Plainly(s, EqualValue(s).value);
    }
  }

  lemma PlainlyIsReturned(rules: seq<Rule>, printable: seq<char>, k: nat, x: string) returns (tries: seq<Try>)
    requires OneNegated(rules) && k < |rules| && NegatesCamel(rules[k]) && FirstExit(rules).None?
    requires Plainly(Merged(rules, printable), x)
    ensures Returns(rules, printable, 0, tries) && Generated(rules, printable, 0, tries).s == x
  {
    var s := Merged(rules, printable);
    CamelKeeps(rules, printable, k);
    var t := PlainlyIsTried(s, x);
    tries := TriedIsReturned(s, t, x);
    assert Narrowed(s, 0) == s;
  }

  lemma WithoutSeparator(rules: seq<Rule>, printable: seq<char>, k: nat, fix: int, tries: seq<Try>)
    requires OneNegated(rules) && k < |rules| && NegatesCamel(rules[k]) && FirstExit(rules).None?
    requires Returns(rules, printable, fix, tries) && !Uses(Generated(rules, printable, fix, tries).s, SEPARATORS)
    ensures Plainly(Merged(rules, printable), Generated(rules, printable, fix, tries).s)
  {
    var s := Merged(rules, printable);
    CamelKeeps(rules, printable, k);
    assert Narrowed(s, fix) == s;
    TrialsReach(s, s, tries);
    SeparatorIsUsed(Generated(rules, printable, fix, tries).s);
  }

  lemma CamelKeeps(rules: seq<Rule>, printable: seq<char>, k: nat)
    requires OneNegated(rules) && k < |rules| && NegatesCamel(rules[k])
    ensures '-' in Merged(rules, printable).inserted && Merged(rules, printable).determined
    ensures Choices(Merged(rules, printable)) == {}
  {
    OneKind(rules, k, NegatesBytes);
    MergedExcluded(rules, printable);
    MergedSeparator(rules, printable, k);
    MergedFlags(rules, printable);
    assert IsNegated(rules[k]);
  }

  lemma SeparatorIsUsed(x: string)
    ensures '-' in x ==> Uses(x, SEPARATORS)
  {
    assert SEPARATORS[0] == '-';
  }

  /** Negated camel case is always broken exactly when whatever is returned without insertion has a separator. */
  lemma CamelBrokenIff(rules: seq<Rule>, printable: seq<char>, k: nat)
    requires OneNegated(rules) && k < |rules| && NegatesCamel(rules[k]) && FirstExit(rules).None?
    ensures Always(rules, printable, Breaking(CamelCase)) <==> PlainGuard(Merged(rules, printable), Breaking(CamelCase))
  {
    var s := Merged(rules, printable);
    PlainGuardIff(s, Breaking(CamelCase));
    if Always(rules, printable, Breaking(CamelCase)) {
      forall x | Plainly(s, x)
        ensures Breaks(x, CamelCase)
      {
        var tries := PlainlyIsReturned(rules, printable, k, x);
      }
    } else {
      var fix, tries :| Returns(rules, printable, fix, tries) && !Breaks(Generated(rules, printable, fix, tries).s, CamelCase);
      WithoutSeparator(rules, printable, k, fix, tries);
    }
  }

  /** The prescribed value and the values of the enum have separators, and an emptied enum leaves only separators to draw. */
  predicate KeepsSeparators(s: Setup) {
    if EqualValue(s).Some? then Uses(EqualValue(s).value, SEPARATORS)
    else if s.enumList == [] || !s.activeEnum then true
    else if Filtered(s) == [] then Top(s) < 1 || forall c | c in s.population.chars :: c in SEPARATORS
    else forall x | x in Filtered(s) :: x != "" ==> Uses(x, SEPARATORS)
  }

  /** The same without excluded strings, as a condition on values and characters. */
  lemma CamelBrokenGuard(rules: seq<Rule>, printable: seq<char>, k: nat)
    requires OneNegated(rules) && k < |rules| && NegatesCamel(rules[k]) && FirstExit(rules).None?
    requires Merged(rules, printable).exceptList == []
    ensures Always(rules, printable, Breaking(CamelCase)) <==> KeepsSeparators(Merged(rules, printable))
  {
    CamelBrokenIff(rules, printable, k);
    SeparatorsKept(Merged(rules, printable));
  }

  lemma SeparatorsKept(s: Setup)
    requires s.exceptList == []
    ensures PlainGuard(s, Breaking(CamelCase)) <==> KeepsSeparators(s)
  {
    if EqualValue(s).None? && s.enumList != [] && s.activeEnum && Filtered(s) == [] {
      SeparatorsDrawn(s);
    }
  }

  lemma SeparatorsDrawn(s: Setup)
    requires s.exceptList == []
    ensures AllDrawn(s, s.population.chars, OrEmpty(Breaking(CamelCase))) <==>
            Top(s) < 1 || forall c :: c in s.population.chars ==> c in SEPARATORS
  {
    var q := OrEmpty(Breaking(CamelCase));
    AllDrawnIff(s, s.population.chars, q);
    if Top(s) >= 1 && exists c :: c in s.population.chars && c !in SEPARATORS {
      var c :| c in s.population.chars && c !in SEPARATORS;
      var n := if Low(s) < 1 then 1 else Low(s);
      RepeatedIsDrawable(s, s.population.chars, c, n);
      RepeatedUses(c, n, SEPARATORS);
      assert !q(Repeated(c, n));
    } else {
      forall x | Drawable(s, s.population.chars, x)
        ensures q(x)
      {
        if x != "" {
          FirstIsUsed(x, s.population.chars);
          assert Top(s) >= 1;
        }
      }
    }
  }

  lemma RepeatedUses(c: char, n: nat, chars: seq<char>)
    requires c !in chars
    ensures !Uses(Repeated(c, n), chars)
  {
  }

  lemma FirstIsUsed(x: string, population: seq<char>)
    requires x != "" && InSet(x, population) && forall c :: c in population ==> c in SEPARATORS
    ensures Uses(x, SEPARATORS)
  {
    assert x[0] in population && x[0] in x;
    var i :| 0 <= i < |SEPARATORS| && SEPARATORS[i] == x[0];
  }

  // ----- active rules -----

  /** With none negated, every returned string obeys a rule exactly when the guard holds. */
  lemma ObeyedIff(rules: seq<Rule>, printable: seq<char>, kind: Kind)
    requires NoneNegated(rules) && FirstExit(rules).None?
    ensures Always(rules, printable, Obeying(kind)) <==> Guard(Merged(rules, printable), Obeying(kind))
  {
    MergedInserted(rules, printable);
    MergedExcluded(rules, printable);
    AlwaysIff(rules, printable, Obeying(kind));
  }

  /** Filtering leaves nothing of the enum, and a string is drawn in its place. */
  predicate DrawsFromEmptied(s: Setup) {
    Free(s) && EqualValue(s).None? && s.enumList != [] && s.activeEnum && Filtered(s) == []
  }

  /** What active camel case leaves in the configuration. */
  ghost predicate DisallowsSeparators(s: Setup) {
    s.notAllowed != [] && s.population.level <= 9999 && forall c :: c in SEPARATORS ==> c in s.notAllowed
  }

  lemma CamelDisallows(rules: seq<Rule>, printable: seq<char>, k: nat)
    requires NoneNegated(rules) && k < |rules| && rules[k].hit && rules[k].kind.CamelCase?
    ensures DisallowsSeparators(Merged(rules, printable))
  {
    ActiveLevel(rules, printable);
    MergedNotAllowed(rules, printable);
    forall c | c in SEPARATORS
      ensures c in AllDisallowed(rules)
    {
      DisallowedStays(rules, k, c);
    }
    assert SEPARATORS[0] in SEPARATORS;
  }

  /** Whatever is given, and whatever is drawn from the limited population, has no separator. */
  lemma SeparatorsAvoided(s: Setup)
    requires DisallowsSeparators(s)
    ensures EqualValue(s).Some? ==> !Uses(EqualValue(s).value, SEPARATORS)
    ensures AllFiltered(s, Obeying(CamelCase)) && AllDrawn(s, Limited(s).population.chars, Obeying(CamelCase))
  {
    UsesFewer(s, SEPARATORS);
    forall x | x in Filtered(s)
      ensures !Uses(x, SEPARATORS)
    {
      FilteredIsAccepted(s, x);
    }
    AllDrawnIff(s, Limited(s).population.chars, Obeying(CamelCase));
    forall x | Drawable(s, Limited(s).population.chars, x)
      ensures !Uses(x, SEPARATORS)
    {
      LimitedHasNone(s, x);
    }
  }

  lemma LimitedHasNone(s: Setup, x: string)
    requires DisallowsSeparators(s) && InSet(x, Limited(s).population.chars)
    ensures !Uses(x, SEPARATORS)
  {
    assert Limited(s).population.chars == Without(s.population.chars, s.notAllowed);
    forall i | 0 <= i < |SEPARATORS|
      ensures SEPARATORS[i] !in x
    {
      assert SEPARATORS[i] in s.notAllowed;
    }
  }

  /** Active camel case is always obeyed exactly when no string with a separator can be drawn in place of an emptied enum. */
  lemma CamelObeyedIff(rules: seq<Rule>, printable: seq<char>, k: nat)
    requires NoneNegated(rules) && FirstExit(rules).None? && k < |rules| && rules[k].hit && rules[k].kind.CamelCase?
    ensures var s := Merged(rules, printable);
            Always(rules, printable, Obeying(CamelCase)) <==>
            !DrawsFromEmptied(s) || AllDrawn(s, s.population.chars, Obeying(CamelCase))
  {
    ObeyedIff(rules, printable, CamelCase);
    CamelDisallows(rules, printable, k);
    CamelGuardIff(Merged(rules, printable));
  }

  lemma CamelGuardIff(s: Setup)
    requires DisallowsSeparators(s)
    ensures Guard(s, Obeying(CamelCase)) <==> !DrawsFromEmptied(s) || AllDrawn(s, s.population.chars, Obeying(CamelCase))
  {
    SeparatorsAvoided(s);
    NoneUsesSeparators("");
  }

  lemma NoneUsesSeparators(x: string)
    ensures x == "" ==> !Uses(x, SEPARATORS)
  {
  }

  /** The same without excluded strings: the population has no separators, or nothing but the empty string fits. */
  lemma CamelObeyedGuard(rules: seq<Rule>, printable: seq<char>, k: nat)
    requires NoneNegated(rules) && FirstExit(rules).None? && k < |rules| && rules[k].hit && rules[k].kind.CamelCase?
    requires Merged(rules, printable).exceptList == []
    ensures var s := Merged(rules, printable);
            Always(rules, printable, Obeying(CamelCase)) <==>
            !DrawsFromEmptied(s) || Top(s) < 1 || forall c :: c in s.population.chars ==> c !in SEPARATORS
  {
    CamelObeyedIff(rules, printable, k);
    CamelByCharacters(Merged(rules, printable));
  }

  lemma CamelByCharacters(s: Setup)
    requires s.exceptList == []
    ensures AllDrawn(s, s.population.chars, Obeying(CamelCase)) <==>
            Top(s) < 1 || forall c :: c in s.population.chars ==> c !in SEPARATORS
  {
    forall x: string
      ensures Obeying(CamelCase)(x) <==> forall i :: 0 <= i < |x| ==> NoSeparator(x[i])
    {
      UsesByCharacter(x);
    }
    AllDrawnCharacters(s, s.population.chars, Obeying(CamelCase), NoSeparator);
  }

  predicate NoSeparator(c: char) {
    c !in SEPARATORS
  }

  lemma UsesByCharacter(x: string)
    ensures !Uses(x, SEPARATORS) <==> forall i :: 0 <= i < |x| ==> NoSeparator(x[i])
  {
    forall i | 0 <= i < |x| && !NoSeparator(x[i])
      ensures Uses(x, SEPARATORS)
    {
      var j :| 0 <= j < |SEPARATORS| && SEPARATORS[j] == x[i];
      assert SEPARATORS[j] in x;
    }
  }

  /** Without excluded strings, drawn strings stay in a set. */
  predicate DrawsInSet(s: Setup, population: seq<char>, chars: seq<char>) {
    Top(s) < 1 || forall c | c in population :: c in chars
  }

  /** The prescribed value, the values of the enum and the draws stay in a set, as far as each can be reached. */
  predicate StaysInSet(s: Setup, chars: seq<char>) {
    if !Free(s) then true
    else if EqualValue(s).Some? then InSet(EqualValue(s).value, chars)
    else if s.enumList == [] || !s.activeEnum then DrawsInSet(s, Limited(s).population.chars, chars)
    else if Filtered(s) == [] then DrawsInSet(s, s.population.chars, chars)
    else (forall x | x in Filtered(s) :: InSet(x, chars))
         && ("" in Filtered(s) ==> DrawsInSet(s, Limited(s).population.chars, chars))
  }

  /** Without excluded strings, an active character set is always obeyed exactly when all that is reached stays in it. */
  lemma CharsetObeyedGuard(rules: seq<Rule>, printable: seq<char>, chars: seq<char>)
    requires NoneNegated(rules) && FirstExit(rules).None? && Merged(rules, printable).exceptList == []
    ensures Always(rules, printable, Obeying(CharacterSet(chars))) <==> StaysInSet(Merged(rules, printable), chars)
  {
    ObeyedIff(rules, printable, CharacterSet(chars));
    SetGuard(Merged(rules, printable), chars);
  }

  lemma SetGuard(s: Setup, chars: seq<char>)
    requires s.exceptList == []
    ensures Guard(s, Obeying(CharacterSet(chars))) <==> StaysInSet(s, chars)
  {
    DrawsInSetIff(s, s.population.chars, chars);
    DrawsInSetIff(s, Limited(s).population.chars, chars);
  }

  lemma DrawsInSetIff(s: Setup, population: seq<char>, chars: seq<char>)
    requires s.exceptList == []
    ensures AllDrawn(s, population, Obeying(CharacterSet(chars))) <==> DrawsInSet(s, population, chars)
  {
    AllDrawnCharacters(s, population, Obeying(CharacterSet(chars)), c => c in chars);
  }

  /** With none negated, strings are drawn from the last active character set. */
  lemma {:induction false} PopulationIsLast(rules: seq<Rule>, printable: seq<char>, k: nat)
    requires NoneNegated(rules) && k < |rules| && rules[k].hit && rules[k].kind.CharacterSet?
    requires forall i :: k < i < |rules| ==> !(rules[i].hit && rules[i].kind.CharacterSet?)
    ensures Merged(rules, printable).population == Population(rules[k].kind.chars, 2)
  {
    var n := |rules| - 1;
    if k < n {
      PopulationIsLast(rules[..n], printable, k);
    } else {
      ActiveLevel(rules[..n], printable);
    }
  }

  /** Whatever is drawn comes from the population that the attempts start with. */
  lemma {:induction false} TrialsDrawFrom(s: Setup, tries: seq<Try>)
    requires s.inserted == []
    ensures Trials(s, tries).Drawn? ==> InSet(Trials(s, tries).s, s.population.chars)
    decreases |tries|
  {
    if tries != [] {
      TriedDrawsFrom(s, tries[0]);
      if !Accepts(s.exceptList, Tried(s, tries[0]).outcome) {
        TriedContinues(s, tries[0]);
        TrialsDrawFrom(Tried(s, tries[0]).next, tries[1..]);
      }
    }
  }

  lemma TriedDrawsFrom(s: Setup, t: Try)
    requires s.inserted == []
    ensures Tried(s, t).outcome.Drawn? ==> InSet(Tried(s, t).outcome.s, s.population.chars)
  {
    TriedIs(s, t);
    StepDrawsFrom(s, t, Tried(s, t));
  }

  lemma StepDrawsFrom(s: Setup, t: Try, step: Step)
    requires s.inserted == [] && TriedAs(s, t, step)
    ensures step.outcome.Drawn? ==> InSet(step.outcome.s, s.population.chars)
  {
    LimitedIsPart(s);
    SameDrawStep(s, Filtered(s), t);
    DrawIsDrawable(s, s.population.chars, t.enumLength, t.enumChars);
    DrawIsDrawable(s, Limited(s).population.chars, t.length, t.chars);
  }

  /** So a drawn string always obeys the last active character set, whatever is excluded. */
  lemma DrawnObeysLastSet(rules: seq<Rule>, printable: seq<char>, fix: int, tries: seq<Try>, k: nat)
    requires NoneNegated(rules) && k < |rules| && rules[k].hit && rules[k].kind.CharacterSet?
    requires forall i :: k < i < |rules| ==> !(rules[i].hit && rules[i].kind.CharacterSet?)
    requires Generated(rules, printable, fix, tries).Drawn?
    ensures Obeys(Generated(rules, printable, fix, tries).s, rules[k].kind)
  {
    if FirstExit(rules).Some? {
      ExitBreaks(rules, 0);
    } else {
      MergedInserted(rules, printable);
      NarrowedOnlyForBytes(rules, printable, fix);
      PopulationIsLast(rules, printable, k);
      TrialsDrawFrom(Merged(rules, printable), tries);
    }
  }
}
