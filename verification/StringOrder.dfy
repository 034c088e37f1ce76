/** When the order in which a set yields the rules does not matter for a string. */
module StringOrder {
  import opened Wrappers
  import opened Bounds
  import opened StringRules
  import opened StringLaws
  import opened StringReach
  import opened StringCorners

  // ----- configurations that differ only in the order of their lists -----

  ghost predicate SameElements<T(!new)>(a: seq<T>, b: seq<T>) {
    forall x :: x in a <==> x in b
  }

  /** Equal but for the order, and the repeats, of what the lists hold. */
  ghost predicate Equivalent(s: Setup, s': Setup) {
    && s' == s.(enumList := s'.enumList, exceptList := s'.exceptList, notAllowed := s'.notAllowed)
    && SameElements(s.enumList, s'.enumList) && SameElements(s.exceptList, s'.exceptList)
    && SameElements(s.notAllowed, s'.notAllowed)
  }

  lemma EmptyAlike<T(!new)>(a: seq<T>, b: seq<T>)
    requires SameElements(a, b)
    ensures a == [] <==> b == []
  {
    if a != [] {
      assert a[0] in b;
    }
    if b != [] {
      assert b[0] in a;
    }
  }

  lemma UsesAlike(x: string, a: seq<char>, b: seq<char>)
    requires SameElements(a, b)
    ensures Uses(x, a) <==> Uses(x, b)
  {
    if Uses(x, a) {
      var i :| 0 <= i < |a| && a[i] in x;
      assert a[i] in b;
    }
    if Uses(x, b) {
      var i :| 0 <= i < |b| && b[i] in x;
      assert b[i] in a;
    }
  }

  lemma EqualValueAlike(s: Setup, s': Setup)
    requires Equivalent(s, s')
    ensures EqualValue(s) == EqualValue(s')
  {
    if s.equalValue.Some? {
      UsesAlike(s.equalValue.value, s.notAllowed, s'.notAllowed);
    }
  }

  lemma FilteredIff(s: Setup, x: string)
    ensures x in Filtered(s) <==>
            && x in s.enumList && x !in s.exceptList
            && (s.exceptList != [] && s.min.Some? ==> |x| >= s.min.value.size)
            && !Uses(x, s.notAllowed)
  {
  }

  lemma FilteredAlike(s: Setup, s': Setup)
    requires Equivalent(s, s')
    ensures SameElements(Filtered(s), Filtered(s'))
  {
    EmptyAlike(s.exceptList, s'.exceptList);
    forall x
      ensures x in Filtered(s) <==> x in Filtered(s')
    {
      FilteredIff(s, x);
      FilteredIff(s', x);
      UsesAlike(x, s.notAllowed, s'.notAllowed);
    }
  }

  lemma LimitedAlike(s: Setup, s': Setup)
    requires Equivalent(s, s')
    ensures SameElements(Limited(s).population.chars, Limited(s').population.chars)
  {
    EmptyAlike(s.notAllowed, s'.notAllowed);
  }

  lemma DrawableAlike(s: Setup, s': Setup, a: seq<char>, b: seq<char>, x: string)
    requires s.min == s'.min && s.max == s'.max && SameElements(a, b)
    ensures Drawable(s, a, x) <==> Drawable(s', b, x)
  {
  }

  /** Equivalent configurations can return the same strings. */
  lemma ReturnsAlike(s: Setup, s': Setup, x: string)
    requires Equivalent(s, s')
    ensures CanReturn(s, x) <==> CanReturn(s', x)
  {
    EqualValueAlike(s, s');
    FilteredAlike(s, s');
    LimitedAlike(s, s');
    EmptyAlike(s.exceptList, s'.exceptList);
    EmptyAlike(s.enumList, s'.enumList);
    EmptyAlike(Filtered(s), Filtered(s'));
    DrawableAlike(s, s', s.population.chars, s'.population.chars, x);
    DrawableAlike(s, s', Limited(s).population.chars, Limited(s').population.chars, x);
    AcceptsAlike(s, s', x);
  }

  lemma AcceptsAlike(s: Setup, s': Setup, x: string)
    requires SameElements(s.exceptList, s'.exceptList)
    ensures Accepts(s.exceptList, Given(x)) <==> Accepts(s'.exceptList, Given(x))
  {
    EmptyAlike(s.exceptList, s'.exceptList);
  }

  lemma NarrowedAlike(s: Setup, s': Setup, fix: int)
    requires Equivalent(s, s')
    ensures Choices(s) == Choices(s') && Equivalent(Narrowed(s, fix), Narrowed(s', fix))
  {
  }

  // ----- what the order of the rules leaves as it is -----

  /** The same rules in another order. */
  ghost predicate Reordered(rules: seq<Rule>, rules': seq<Rule>) {
    multiset(rules) == multiset(rules')
  }

  lemma InReordered(rules: seq<Rule>, rules': seq<Rule>, i: nat) returns (j: nat)
    requires Reordered(rules, rules') && i < |rules|
    ensures j < |rules'| && rules'[j] == rules[i]
  {
    assert rules[i] in multiset(rules);
    assert rules[i] in rules';
    j :| j < |rules'| && rules'[j] == rules[i];
  }

  lemma AnyReordered(rules: seq<Rule>, rules': seq<Rule>, p: Rule -> bool)
    requires Reordered(rules, rules')
    ensures Any(rules, p) <==> Any(rules', p)
  {
    if Any(rules, p) {
      var i :| 0 <= i < |rules| && p(rules[i]);
      var j := InReordered(rules, rules', i);
    }
    if Any(rules', p) {
      var i :| 0 <= i < |rules'| && p(rules'[i]);
      var j := InReordered(rules', rules, i);
    }
  }

  function Offers(x: string): Rule -> bool {
    r => x in Offered(r)
  }

  function Excepts(x: string): Rule -> bool {
    r => x in Excepted(r)
  }

  function Disallows(c: char): Rule -> bool {
    r => c in Disallowed(r)
  }

  lemma {:induction false} EnumHolds(rules: seq<Rule>, printable: seq<char>, x: string)
    ensures x in Merged(rules, printable).enumList <==> Any(rules, Offers(x))
  {
    if rules != [] {
      var init, last := rules[..|rules| - 1], rules[|rules| - 1];
      EnumHolds(init, printable, x);
      AnyLast(rules, Offers(x));
      assert Merged(rules, printable).enumList == Merged(init, printable).enumList + Offered(last);
    }
  }

  lemma {:induction false} ExceptsHold(rules: seq<Rule>, printable: seq<char>, x: string)
    ensures x in Merged(rules, printable).exceptList <==> Any(rules, Excepts(x))
  {
    if rules != [] {
      var init, last := rules[..|rules| - 1], rules[|rules| - 1];
      ExceptsHold(init, printable, x);
      AnyLast(rules, Excepts(x));
      assert Merged(rules, printable).exceptList == Merged(init, printable).exceptList + Excepted(last);
    }
  }

  lemma {:induction false} DisallowedHolds(rules: seq<Rule>, c: char)
    ensures c in AllDisallowed(rules) <==> Any(rules, Disallows(c))
  {
    if rules != [] {
      var init, last := rules[..|rules| - 1], rules[|rules| - 1];
      DisallowedHolds(init, c);
      AnyLast(rules, Disallows(c));
      assert AllDisallowed(rules) == AllDisallowed(init) + Disallowed(last);
    }
  }

  lemma {:induction false} FlagsHold(rules: seq<Rule>, printable: seq<char>)
    ensures Merged(rules, printable).required <==> Any(rules, Requires)
    ensures Merged(rules, printable).emptyString <==> Any(rules, AsksEmpty)
    ensures Merged(rules, printable).remove <==> Any(rules, Removes)
  {
    if rules != [] {
      FlagsHold(rules[..|rules| - 1], printable);
      AnyLast(rules, Requires);
      AnyLast(rules, AsksEmpty);
      AnyLast(rules, Removes);
    }
  }

  /** At most one rule inserts, so the separators are inserted once or not at all. */
  lemma {:induction false} InsertedOnce(rules: seq<Rule>, printable: seq<char>)
    requires OneNegated(rules)
    ensures Merged(rules, printable).inserted == if Any(rules, NegatesCamel) then SEPARATORS else []
  {
    if rules != [] {
      var n := |rules| - 1;
      AnyLast(rules, NegatesCamel);
      assert forall i :: 0 <= i < n ==> rules[..n][i] == rules[i];
      if NegatesCamel(rules[n]) {
        assert forall i :: 0 <= i < n ==> !IsNegated(rules[i]) by {
          assert IsNegated(rules[n]);
        }
        MergedInserted(rules[..n], printable);
        assert [] + SEPARATORS == SEPARATORS;
      } else {
        InsertedOnce(rules[..n], printable);
      }
    }
  }

  lemma BoundsAlike(rules: seq<Rule>, rules': seq<Rule>, printable: seq<char>)
    requires Reordered(rules, rules') && OneNegated(rules) && OneNegated(rules')
    ensures Merged(rules, printable).min == Merged(rules', printable).min
    ensures Merged(rules, printable).max == Merged(rules', printable).max
  {
    MergedBounds(rules, printable);
    MergedBounds(rules', printable);
    AskersForceOnlyWhenNegated();
    SameRules(rules, rules', MinRequest, IsNegated);
    SameRules(rules, rules', MaxRequest, IsNegated);
    CreatedIsOrderFree(Requests(rules, MinRequest), Requests(rules', MinRequest));
    CreatedIsOrderFree(Requests(rules, MaxRequest), Requests(rules', MaxRequest));
  }

  lemma ListsAlike(rules: seq<Rule>, rules': seq<Rule>, printable: seq<char>)
    requires Reordered(rules, rules')
    ensures SameElements(Merged(rules, printable).enumList, Merged(rules', printable).enumList)
    ensures SameElements(Merged(rules, printable).exceptList, Merged(rules', printable).exceptList)
    ensures SameElements(Merged(rules, printable).notAllowed, Merged(rules', printable).notAllowed)
  {
    forall x
      ensures x in Merged(rules, printable).enumList <==> x in Merged(rules', printable).enumList
      ensures x in Merged(rules, printable).exceptList <==> x in Merged(rules', printable).exceptList
    {
      EnumHolds(rules, printable, x);
      EnumHolds(rules', printable, x);
      AnyReordered(rules, rules', Offers(x));
      ExceptsHold(rules, printable, x);
      ExceptsHold(rules', printable, x);
      AnyReordered(rules, rules', Excepts(x));
    }
    MergedNotAllowed(rules, printable);
    MergedNotAllowed(rules', printable);
    forall c
      ensures c in AllDisallowed(rules) <==> c in AllDisallowed(rules')
    {
      DisallowedHolds(rules, c);
      DisallowedHolds(rules', c);
      AnyReordered(rules, rules', Disallows(c));
    }
  }

  lemma FlagsAlike(rules: seq<Rule>, rules': seq<Rule>, printable: seq<char>)
    requires Reordered(rules, rules') && OneNegated(rules) && OneNegated(rules')
    ensures var s, s' := Merged(rules, printable), Merged(rules', printable);
            && s.activeEnum == s'.activeEnum && s.determined == s'.determined && s.required == s'.required
            && s.emptyString == s'.emptyString && s.remove == s'.remove && s.inserted == s'.inserted
  {
    MergedFlags(rules, printable);
    MergedFlags(rules', printable);
    FlagsHold(rules, printable);
    FlagsHold(rules', printable);
    InsertedOnce(rules, printable);
    InsertedOnce(rules', printable);
    AnyReordered(rules, rules', OverLong);
    AnyReordered(rules, rules', IsNegated);
    AnyReordered(rules, rules', Requires);
    AnyReordered(rules, rules', AsksEmpty);
    AnyReordered(rules, rules', Removes);
    AnyReordered(rules, rules', NegatesCamel);
  }

  /** At most one rule excludes lengths, so it does not matter where it stands. */
  lemma ExcludedAlike(rules: seq<Rule>, rules': seq<Rule>, printable: seq<char>)
    requires Reordered(rules, rules') && OneNegated(rules) && OneNegated(rules')
    ensures Merged(rules, printable).excludedLengths == Merged(rules', printable).excludedLengths
  {
    AnyReordered(rules, rules', NegatesBytes);
    if Any(rules, NegatesBytes) {
      var i :| 0 <= i < |rules| && NegatesBytes(rules[i]);
      var j := InReordered(rules, rules', i);
      MergedExcludes(rules, printable, i);
      MergedExcludes(rules', printable, j);
    } else {
      MergedExcluded(rules, printable);
      MergedExcluded(rules', printable);
    }
  }

  /** Only the prescribed value and the population depend on the order of the rules. */
  lemma AlikeIff(rules: seq<Rule>, rules': seq<Rule>, printable: seq<char>)
    requires Reordered(rules, rules') && OneNegated(rules) && OneNegated(rules')
    ensures Equivalent(Merged(rules, printable), Merged(rules', printable)) <==>
            && Merged(rules, printable).equalValue == Merged(rules', printable).equalValue
            && Merged(rules, printable).population == Merged(rules', printable).population
  {
    BoundsAlike(rules, rules', printable);
    ListsAlike(rules, rules', printable);
    FlagsAlike(rules, rules', printable);
    ExcludedAlike(rules, rules', printable);
  }

  // ----- moving one rule -----

  ghost function MovedLast(rules: seq<Rule>, i: nat): seq<Rule>
    requires i < |rules|
  {
    rules[..i] + rules[i + 1..] + [rules[i]]
  }

  ghost function MovedFirst(rules: seq<Rule>, i: nat): seq<Rule>
    requires i < |rules|
  {
    [rules[i]] + rules[..i] + rules[i + 1..]
  }

  lemma MovedIsReordered(rules: seq<Rule>, i: nat)
    requires i < |rules|
    ensures Reordered(rules, MovedLast(rules, i)) && Reordered(rules, MovedFirst(rules, i))
  {
    assert rules == rules[..i] + [rules[i]] + rules[i + 1..];
  }

  lemma MovedIsLast(rules: seq<Rule>, printable: seq<char>, i: nat)
    requires i < |rules|
    ensures var moved := MovedLast(rules, i);
            moved != [] && moved[|moved| - 1] == rules[i]
            && Merged(moved, printable) == Applied(Merged(rules[..i] + rules[i + 1..], printable), rules[i], printable)
  {
    MergedOneMore(rules[..i] + rules[i + 1..], rules[i], printable);
  }

  // ----- the prescribed value -----

  /** All applicable rules that prescribe a value prescribe the same. */
  ghost predicate AgreeOnValue(rules: seq<Rule>) {
    forall i, j :: 0 <= i < |rules| && 0 <= j < |rules| && SetsValue(rules[i]) && SetsValue(rules[j]) ==>
                     rules[i].kind.value == rules[j].kind.value
  }

  lemma {:induction false} ValueIsSet(rules: seq<Rule>, printable: seq<char>)
    ensures Merged(rules, printable).equalValue.Some? <==> Any(rules, SetsValue)
    ensures Any(rules, SetsValue) ==>
              exists i :: 0 <= i < |rules| && SetsValue(rules[i]) && Merged(rules, printable).equalValue == Some(rules[i].kind.value)
  {
    if rules != [] {
      var n := |rules| - 1;
      ValueIsSet(rules[..n], printable);
      AnyLast(rules, SetsValue);
      if !SetsValue(rules[n]) && Any(rules, SetsValue) {
        var i :| 0 <= i < n && SetsValue(rules[..n][i]) && Merged(rules[..n], printable).equalValue == Some(rules[..n][i].kind.value);
        assert rules[..n][i] == rules[i];
      }
    }
  }

  /** The value is the same for every order. */
  ghost predicate ValueOrderFree(rules: seq<Rule>, printable: seq<char>) {
    forall rules' :: Reordered(rules, rules') ==> Merged(rules', printable).equalValue == Merged(rules, printable).equalValue
  }

  lemma ValueAlike(rules: seq<Rule>, rules': seq<Rule>, printable: seq<char>)
    requires Reordered(rules, rules') && AgreeOnValue(rules)
    ensures Merged(rules', printable).equalValue == Merged(rules, printable).equalValue
  {
    ValueIsSet(rules, printable);
    ValueIsSet(rules', printable);
    AnyReordered(rules, rules', SetsValue);
    if Any(rules, SetsValue) {
      var i :| 0 <= i < |rules'| && SetsValue(rules'[i]) && Merged(rules', printable).equalValue == Some(rules'[i].kind.value);
      var j := InReordered(rules', rules, i);
      assert SetsValue(rules[j]);
    }
  }

  lemma ValueOrderFreeIff(rules: seq<Rule>, printable: seq<char>)
    ensures ValueOrderFree(rules, printable) <==> AgreeOnValue(rules)
  {
    if AgreeOnValue(rules) {
      forall rules' | Reordered(rules, rules')
        ensures Merged(rules', printable).equalValue == Merged(rules, printable).equalValue
      {
        ValueAlike(rules, rules', printable);
      }
    } else if ValueOrderFree(rules, printable) {
      forall i | 0 <= i < |rules| && SetsValue(rules[i])
        ensures Merged(rules, printable).equalValue == Some(rules[i].kind.value)
      {
        MovedIsReordered(rules, i);
        MovedIsLast(rules, printable, i);
      }
    }
  }

  // ----- the population -----

  predicate SetsCharacters(r: Rule) {
    r.hit && r.kind.CharacterSet?
  }

  predicate NegatesCharacters(r: Rule) {
    SetsCharacters(r) && r.negated
  }

  /** One character set is negated, or all applicable ones are the same. */
  ghost predicate AgreeOnCharacters(rules: seq<Rule>) {
    || Any(rules, NegatesCharacters)
    || forall i, j :: 0 <= i < |rules| && 0 <= j < |rules| && SetsCharacters(rules[i]) && SetsCharacters(rules[j]) ==>
                        rules[i].kind.chars == rules[j].kind.chars
  }

  lemma {:induction false} PopulationIsSet(rules: seq<Rule>, printable: seq<char>)
    requires forall i :: 0 <= i < |rules| ==> !NegatesCharacters(rules[i])
    ensures !Any(rules, SetsCharacters) ==> Merged(rules, printable).population == Population(printable, 1)
    ensures Any(rules, SetsCharacters) ==>
              exists i :: 0 <= i < |rules| && SetsCharacters(rules[i])
                          && Merged(rules, printable).population == Population(rules[i].kind.chars, 2)
  {
    if rules != [] {
      var n := |rules| - 1;
      PopulationIsSet(rules[..n], printable);
      AnyLast(rules, SetsCharacters);
      if SetsCharacters(rules[n]) {
        assert Merged(rules, printable).population == Population(rules[n].kind.chars, 2);
      } else if Any(rules, SetsCharacters) {
        var i :| 0 <= i < n && SetsCharacters(rules[..n][i])
          && Merged(rules[..n], printable).population == Population(rules[..n][i].kind.chars, 2);
        assert rules[..n][i] == rules[i];
      }
    }
  }

  ghost predicate PopulationOrderFree(rules: seq<Rule>, printable: seq<char>) {
    forall rules' :: Reordered(rules, rules') && OneNegated(rules') ==>
                       Merged(rules', printable).population == Merged(rules, printable).population
  }

  lemma PopulationAlike(rules: seq<Rule>, rules': seq<Rule>, printable: seq<char>)
    requires Reordered(rules, rules') && OneNegated(rules) && OneNegated(rules') && AgreeOnCharacters(rules)
    ensures Merged(rules', printable).population == Merged(rules, printable).population
  {
    AnyReordered(rules, rules', NegatesCharacters);
    if Any(rules, NegatesCharacters) {
      var i :| 0 <= i < |rules| && NegatesCharacters(rules[i]);
      var j := InReordered(rules, rules', i);
      MergedCharset(rules, printable, i);
      MergedCharset(rules', printable, j);
    } else {
      PopulationIsSet(rules, printable);
      PopulationIsSet(rules', printable);
      AnyReordered(rules, rules', SetsCharacters);
      if Any(rules, SetsCharacters) {
        var i :| 0 <= i < |rules'| && SetsCharacters(rules'[i]) && Merged(rules', printable).population == Population(rules'[i].kind.chars, 2);
        var j := InReordered(rules', rules, i);
        assert SetsCharacters(rules[j]);
      }
    }
  }

  lemma MovedKeepsOne(rules: seq<Rule>, i: nat)
    requires OneNegated(rules) && i < |rules|
    ensures OneNegated(MovedLast(rules, i))
  {
    var moved := MovedLast(rules, i);
    forall a, b | 0 <= a < b < |moved|
      ensures !(IsNegated(moved[a]) && IsNegated(moved[b]))
    {
      var x := if a < i then a else a + 1;
      var y := if b == |rules| - 1 then i else if b < i then b else b + 1;
      assert moved[a] == rules[x] && moved[b] == rules[y] && x != y;
    }
  }

  lemma PopulationOrderFreeIff(rules: seq<Rule>, printable: seq<char>)
    requires OneNegated(rules)
    ensures PopulationOrderFree(rules, printable) <==> AgreeOnCharacters(rules)
  {
    if AgreeOnCharacters(rules) {
      forall rules' | Reordered(rules, rules') && OneNegated(rules')
        ensures Merged(rules', printable).population == Merged(rules, printable).population
      {
        PopulationAlike(rules, rules', printable);
      }
    } else if PopulationOrderFree(rules, printable) {
      forall i | 0 <= i < |rules| && SetsCharacters(rules[i])
        ensures Merged(rules, printable).population.chars == rules[i].kind.chars
      {
        MovedIsReordered(rules, i);
        MovedIsLast(rules, printable, i);
        MovedKeepsOne(rules, i);
        RestLevel(rules, printable, i);
      }
    }
  }

  lemma RestLevel(rules: seq<Rule>, printable: seq<char>, i: nat)
    requires i < |rules| && !Any(rules, NegatesCharacters)
    ensures Merged(rules[..i] + rules[i + 1..], printable).population.level <= 2
  {
    var rest := rules[..i] + rules[i + 1..];
    forall j | 0 <= j < |rest|
      ensures !NegatesCharacters(rest[j])
    {
      assert rest[j] == rules[if j < i then j else j + 1];
    }
    PopulationIsSet(rest, printable);
  }

  // ----- the whole -----

  /** The configuration is the same for every order, up to the order of its lists. */
  ghost predicate OrderFree(rules: seq<Rule>, printable: seq<char>) {
    forall rules' :: Reordered(rules, rules') && OneNegated(rules') ==>
                       Equivalent(Merged(rules, printable), Merged(rules', printable))
  }

  /** Exactly when the applicable rules agree on a prescribed value and on a character set. */
  lemma OrderFreeIff(rules: seq<Rule>, printable: seq<char>)
    requires OneNegated(rules)
    ensures OrderFree(rules, printable) <==> AgreeOnValue(rules) && AgreeOnCharacters(rules)
  {
    PopulationOrderFreeIff(rules, printable);
    if AgreeOnValue(rules) && AgreeOnCharacters(rules) {
      forall rules' | Reordered(rules, rules') && OneNegated(rules')
        ensures Equivalent(Merged(rules, printable), Merged(rules', printable))
      {
        ValueAlike(rules, rules', printable);
        AlikeIff(rules, rules', printable);
      }
    } else if OrderFree(rules, printable) {
      OrderFreeAgrees(rules, printable);
    }
  }

  lemma OrderFreeAgrees(rules: seq<Rule>, printable: seq<char>)
    requires OneNegated(rules) && OrderFree(rules, printable)
    ensures AgreeOnValue(rules) && AgreeOnCharacters(rules)
  {
    forall i | 0 <= i < |rules| && SetsValue(rules[i])
      ensures Merged(rules, printable).equalValue == Some(rules[i].kind.value)
    {
      MovedIsReordered(rules, i);
      MovedIsLast(rules, printable, i);
      MovedKeepsOne(rules, i);
      assert Equivalent(Merged(rules, printable), Merged(MovedLast(rules, i), printable));
    }
    PopulationOrderFreeIff(rules, printable);
    forall rules' | Reordered(rules, rules') && OneNegated(rules')
      ensures Merged(rules', printable).population == Merged(rules, printable).population
    {
      assert Equivalent(Merged(rules, printable), Merged(rules', printable));
    }
  }

  ghost predicate CanBeReturned(rules: seq<Rule>, printable: seq<char>, x: string) {
    exists fix, tries :: Returns(rules, printable, fix, tries) && Generated(rules, printable, fix, tries).s == x
  }

  /** Then the same strings can be returned in every order, where no rule ends the loop and nothing is inserted. */
  lemma ReturnedInEveryOrder(rules: seq<Rule>, rules': seq<Rule>, printable: seq<char>, x: string)
    requires Reordered(rules, rules') && OneNegated(rules) && OneNegated(rules')
    requires AgreeOnValue(rules) && AgreeOnCharacters(rules)
    requires FirstExit(rules).None? && FirstExit(rules').None? && !Any(rules, NegatesCamel)
    ensures CanBeReturned(rules, printable, x) <==> CanBeReturned(rules', printable, x)
  {
    var s, s' := Merged(rules, printable), Merged(rules', printable);
    AnyReordered(rules, rules', NegatesCamel);
    InsertedOnce(rules, printable);
    InsertedOnce(rules', printable);
    ReturnedIff(rules, printable, x);
    ReturnedIff(rules', printable, x);
    OrderFreeIff(rules, printable);
    forall fix
      ensures ReturnsWith(s, fix, x) <==> ReturnsWith(s', fix, x)
    {
      NarrowedAlike(s, s', fix);
      ReturnsAlike(Narrowed(s, fix), Narrowed(s', fix), x);
    }
  }

  // ----- early exits -----

  /** All rules that end the loop end it alike. */
  ghost predicate AgreeOnExit(rules: seq<Rule>) {
    forall i, j :: 0 <= i < |rules| && 0 <= j < |rules| && Exit(rules[i]).Some? && Exit(rules[j]).Some? ==>
                     Exit(rules[i]) == Exit(rules[j])
  }

  ghost predicate ExitOrderFree(rules: seq<Rule>) {
    forall rules' :: Reordered(rules, rules') ==> FirstExit(rules') == FirstExit(rules)
  }

  /** The early exit is the same for every order exactly when all exits agree. */
  lemma ExitOrderFreeIff(rules: seq<Rule>)
    ensures ExitOrderFree(rules) <==> AgreeOnExit(rules)
  {
    if AgreeOnExit(rules) {
      forall rules' | Reordered(rules, rules')
        ensures FirstExit(rules') == FirstExit(rules)
      {
        ExitAlike(rules, rules');
      }
    } else if ExitOrderFree(rules) {
      forall i | 0 <= i < |rules| && Exit(rules[i]).Some?
        ensures FirstExit(rules) == Exit(rules[i])
      {
        MovedIsReordered(rules, i);
        assert MovedFirst(rules, i)[0] == rules[i];
      }
    }
  }

  lemma ExitAlike(rules: seq<Rule>, rules': seq<Rule>)
    requires Reordered(rules, rules') && AgreeOnExit(rules)
    ensures FirstExit(rules') == FirstExit(rules)
  {
    FirstExitIs(rules);
    FirstExitIs(rules');
    AnyReordered(rules, rules', HasExit);
    if Any(rules, HasExit) {
      var i :| 0 <= i < |rules'| && Exit(rules'[i]) == FirstExit(rules');
      var j := InReordered(rules', rules, i);
      assert Exit(rules[j]) == FirstExit(rules');
    }
  }

  predicate HasExit(r: Rule) {
    Exit(r).Some?
  }
}
