/** Inputs on which a negated rule is obeyed, or an active one broken, by a returned string. */
module StringExamples {
  import opened Wrappers
  import opened Bounds
  import opened StringRules
  import opened StringLaws
  import opened StringGuards
  import opened StringCorners

  ghost function Negate(kind: Kind): Rule {
    Rule(kind, true, true, 0)
  }

  ghost function Activate(kind: Kind): Rule {
    Rule(kind, false, true, 0)
  }

  // ----- what two rules make of the configuration -----

  lemma MergedOne(a: Rule, printable: seq<char>)
    ensures Merged([a], printable) == Applied(Initial(printable), a, printable)
  {
    assert [a][..0] == [];
    assert Merged([a], printable) == Applied(Merged([], printable), a, printable);
  }

  lemma MergedPair(a: Rule, b: Rule, printable: seq<char>)
    ensures Merged([a, b], printable) == Applied(Applied(Initial(printable), a, printable), b, printable)
  {
    assert [a, b][..1] == [a];
    MergedOne(a, printable);
  }

  lemma NoExitOfOne(a: Rule)
    requires Exit(a).None?
    ensures FirstExit([a]).None?
  {
    assert [a][1..] == [];
    assert FirstExit([a]) == FirstExit([]);
  }

  /** Two rules, at most one of them negated, of which neither ends the loop. */
  ghost predicate IsPair(rules: seq<Rule>, a: Rule, b: Rule) {
    |rules| == 2 && rules[0] == a && rules[1] == b && OneNegated(rules) && FirstExit(rules).None?
  }

  lemma PairIsPair(a: Rule, b: Rule)
    requires (!a.negated || !b.negated) && Exit(a).None? && Exit(b).None?
    ensures IsPair([a, b], a, b)
  {
    assert [a, b][1..] == [b];
    NoExitOfOne(b);
    assert IsNegated([a, b][0]) <==> a.negated;
    assert IsNegated([a, b][1]) <==> b.negated;
  }

  lemma AppliedNegated(s: Setup, kind: Kind, printable: seq<char>)
    requires kind.BytesFix? || kind.CamelCase?
    ensures var after := Applied(s, Negate(kind), printable);
            && after == s.(determined := true, inserted := after.inserted, excludedLengths := after.excludedLengths)
            && (kind.BytesFix? ==> after.excludedLengths == LengthSet(kind.lengths) && after.inserted == s.inserted)
  {
  }

  lemma AppliedEnum(s: Setup, x: string, printable: seq<char>)
    ensures Applied(s, Activate(Enum([x])), printable) == s.(enumList := s.enumList + [x])
  {
  }

  lemma AppliedMaximum(s: Setup, m: int, printable: seq<char>)
    ensures Applied(s, Activate(MaxLength(Some(m), false)), printable) == s.(max := WithMax(s.max, Some(Bound(m, false))))
  {
  }

  lemma AppliedCamel(s: Setup, printable: seq<char>)
    requires s.notAllowed == []
    ensures Applied(s, Activate(CamelCase), printable) == s.(notAllowed := SEPARATORS)
  {
    assert [] + SEPARATORS == SEPARATORS;
  }

  /** An enum of one value that nothing filters. */
  ghost predicate OffersOnly(s: Setup, x: string) {
    && s.exceptList == [] && s.notAllowed == [] && s.equalValue.None? && s.activeEnum && s.enumList == [x]
    && s.min.None? && s.max.None? && s.determined
  }

  lemma EnumPair(kind: Kind, x: string, printable: seq<char>)
    requires kind.BytesFix? || kind.CamelCase?
    ensures OffersOnly(Merged([Negate(kind), Activate(Enum([x]))], printable), x)
  {
    MergedPair(Negate(kind), Activate(Enum([x])), printable);
    AppliedNegated(Initial(printable), kind, printable);
    AppliedEnum(Applied(Initial(printable), Negate(kind), printable), x, printable);
    assert [] + [x] == [x];
  }

  // ----- the inputs -----

  /** The only value of an active enum has the excluded length, and enums stay active: it is returned. */
  lemma EnumDefeatsBytes(x: string, printable: seq<char>)
    requires x != ""
    ensures !Always([Negate(BytesFix([|x|])), Activate(Enum([x]))], printable, Breaking(BytesFix([|x|])))
  {
    var a, b := Negate(BytesFix([|x|])), Activate(Enum([x]));
    EnumPair(a.kind, x, printable);
    PairIsPair(a, b);
    EnumOfExcludedLength([a, b], printable, a, b, x);
  }

  lemma EnumOfExcludedLength(rules: seq<Rule>, printable: seq<char>, a: Rule, b: Rule, x: string)
    requires IsPair(rules, a, b) && x != "" && NegatesBytes(a) && a.kind == BytesFix([|x|])
    requires OffersOnly(Merged(rules, printable), x)
    ensures !Always(rules, printable, Breaking(a.kind))
  {
    var s := Merged(rules, printable);
    BytesBrokenIff(rules, printable, 0);
    MergedExcludes(rules, printable, 0);
    ZeroIsChosen(s, |x|);
    LengthIsKept(x);
    OnlyValueGuards(Narrowed(s, 0), x, Breaking(a.kind));
    OneChoiceFails(s, 0, Breaking(a.kind));
  }

  lemma OneChoiceFails(s: Setup, fix: int, q: string -> bool)
    requires fix in Choices(s) && !Guard(Narrowed(s, fix), q)
    ensures !GuardAll(s, q)
  {
  }

  lemma LengthIsKept(x: string)
    ensures !Breaking(BytesFix([|x|]))(x)
  {
    assert [|x|][0] == |x|;
  }

  lemma OnlyValueGuards(s: Setup, x: string, q: string -> bool)
    requires s.exceptList == [] && s.notAllowed == [] && s.equalValue.None? && s.activeEnum && s.enumList == [x] && s.determined
    requires x != "" && !q(x)
    ensures !Guard(s, q)
  {
    assert Filtered(s) == [x];
    assert [x][0] == x;
  }

  lemma ZeroIsChosen(s: Setup, n: nat)
    requires s.min.None? && s.max.None? && n > 0 && s.excludedLengths == LengthSet([n])
    ensures 0 in Choices(s)
  {
    assert 0 !in s.excludedLengths;
    assert [n][0] == n && n in s.excludedLengths;
    assert 0 in Lengths(Low(s), High(s), s.excludedLengths);
  }

  ghost function UpTo(m: nat): seq<int> {
    seq(m, (i: nat) => i)
  }

  /** A maximum leaves only excluded lengths to choose from, so none is chosen and all of them can be drawn. */
  lemma MaximumDefeatsBytes(m: nat, printable: seq<char>)
    requires m > 0 && printable != []
    ensures !Always([Activate(MaxLength(Some(m), false)), Negate(BytesFix(UpTo(m)))], printable, Breaking(BytesFix(UpTo(m))))
  {
    var a, b := Activate(MaxLength(Some(m), false)), Negate(BytesFix(UpTo(m)));
    MaximumPair(m, printable);
    PairIsPair(a, b);
    NoChoiceFails([a, b], printable, a, b, m);
  }

  /** Nothing is prescribed or excluded, and lengths up to a maximum are drawn. */
  ghost predicate DrawsUpTo(s: Setup, m: nat) {
    && s.exceptList == [] && s.equalValue.None? && s.enumList == [] && Usable(s)
    && Low(s) == 0 && Top(s) == m && Choices(s) == {}
  }

  lemma MaximumPair(m: nat, printable: seq<char>)
    requires m > 0 && printable != []
    ensures DrawsUpTo(Merged([Activate(MaxLength(Some(m), false)), Negate(BytesFix(UpTo(m)))], printable), m)
  {
    var s := Initial(printable).(max := Some(Bound(m, false)));
    MergedPair(Activate(MaxLength(Some(m), false)), Negate(BytesFix(UpTo(m))), printable);
    AppliedMaximum(Initial(printable), m, printable);
    AppliedNegated(s, BytesFix(UpTo(m)), printable);
    NoLengthBelow(m);
  }

  lemma NoLengthBelow(m: nat)
    ensures Lengths(0, m, LengthSet(UpTo(m))) == {}
  {
    forall n | 0 <= n < m
      ensures n in LengthSet(UpTo(m))
    {
      assert UpTo(m)[n] == n;
    }
  }

  lemma NoChoiceFails(rules: seq<Rule>, printable: seq<char>, a: Rule, b: Rule, m: nat)
    requires m > 0 && IsPair(rules, a, b)
    requires NegatesBytes(b) && b.kind == BytesFix(UpTo(m)) && DrawsUpTo(Merged(rules, printable), m)
    ensures !Always(rules, printable, Breaking(b.kind))
  {
    BytesBrokenGuard(rules, printable, 1);
    assert UpTo(m)[0] == 0 && 0 in UpTo(m);
  }

  /** Under a negated character set alone, the empty string is returned, and it obeys every set. */
  lemma EmptyDefeatsCharset(chars: seq<char>, printable: seq<char>)
    ensures !Always([Negate(CharacterSet(chars))], printable, Breaking(CharacterSet(chars)))
  {
    var a := Negate(CharacterSet(chars));
    MergedOne(a, printable);
    NoExitOfOne(a);
    assert [a][0] == a;
    CharsetBrokenIff([a], printable, 0);
    assert YieldsEmpty(Applied(Initial(printable), a, printable));
  }

  /** The only value of an active enum has no separator, and it is returned. */
  lemma EnumDefeatsCamel(x: string, printable: seq<char>)
    requires x != "" && !Uses(x, SEPARATORS)
    ensures !Always([Negate(CamelCase), Activate(Enum([x]))], printable, Breaking(CamelCase))
  {
    var a, b := Negate(CamelCase), Activate(Enum([x]));
    EnumPair(a.kind, x, printable);
    PairIsPair(a, b);
    EnumWithoutSeparator([a, b], printable, a, b, x);
  }

  lemma EnumWithoutSeparator(rules: seq<Rule>, printable: seq<char>, a: Rule, b: Rule, x: string)
    requires IsPair(rules, a, b) && NegatesCamel(a) && x != "" && !Uses(x, SEPARATORS)
    requires OffersOnly(Merged(rules, printable), x)
    ensures !Always(rules, printable, Breaking(CamelCase))
  {
    CamelBrokenGuard(rules, printable, 0);
    OnlyValueHasNone(Merged(rules, printable), x);
  }

  lemma OnlyValueHasNone(s: Setup, x: string)
    requires OffersOnly(s, x) && x != "" && !Uses(x, SEPARATORS)
    ensures !KeepsSeparators(s)
  {
    assert Filtered(s) == [x];
    assert [x][0] == x;
  }

  /** The only value of an active enum is not camel case, and a string with a separator is drawn in its place. */
  lemma EnumDefeatsActiveCamel(x: string, c: char, printable: seq<char>)
    requires x != "" && Uses(x, SEPARATORS) && c in SEPARATORS && c in printable
    ensures !Always([Activate(CamelCase), Activate(Enum([x]))], printable, Obeying(CamelCase))
  {
    var a, b := Activate(CamelCase), Activate(Enum([x]));
    ActivePair(x, printable);
    PairIsPair(a, b);
    EnumWithSeparator([a, b], printable, a, b, x, c);
  }

  lemma ActivePair(x: string, printable: seq<char>)
    requires Uses(x, SEPARATORS)
    ensures var s := Merged([Activate(CamelCase), Activate(Enum([x]))], printable);
            s.exceptList == [] && s.population.chars == printable && Top(s) >= 1 && DrawsFromEmptied(s)
  {
    MergedPair(Activate(CamelCase), Activate(Enum([x])), printable);
    AppliedCamel(Initial(printable), printable);
    AppliedEnum(Initial(printable).(notAllowed := SEPARATORS), x, printable);
    OnlyValueIsFiltered(Initial(printable).(notAllowed := SEPARATORS, enumList := [] + [x]), x);
  }

  lemma EnumWithSeparator(rules: seq<Rule>, printable: seq<char>, a: Rule, b: Rule, x: string, c: char)
    requires IsPair(rules, a, b) && a == Activate(CamelCase) && !b.negated && c in SEPARATORS && c in printable
    requires var s := Merged(rules, printable);
             s.exceptList == [] && s.population.chars == printable && Top(s) >= 1 && DrawsFromEmptied(s)
    ensures !Always(rules, printable, Obeying(CamelCase))
  {
    CamelObeyedGuard(rules, printable, 0);
  }

  lemma OnlyValueIsFiltered(s: Setup, x: string)
    requires s.exceptList == [] && s.notAllowed == SEPARATORS && s.equalValue.None? && s.activeEnum && s.enumList == [] + [x]
    requires !s.emptyString && !s.remove && Uses(x, SEPARATORS)
    ensures DrawsFromEmptied(s)
  {
    assert s.enumList == [x] && [x][1..] == [];
    assert Allowed([x], SEPARATORS) == Allowed([], SEPARATORS);
  }
}
