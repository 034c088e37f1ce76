/** Conditions, to be checked on the merged configuration, under which every returned string has a property. */
module StringGuards {
  import opened StringRules
  import opened StringLaws
  import opened StringReach

  // ----- the general guard -----

  /** All strings of a length over a population. */
  function Strings(population: seq<char>, n: nat): set<string> {
    if n == 0 then {""} else set x, c | x in Strings(population, n - 1) && c in population :: x + [c]
  }

  lemma {:induction false} StringsIff(population: seq<char>, n: nat, x: string)
    ensures x in Strings(population, n) <==> |x| == n && InSet(x, population)
  {
    if n > 0 {
      if x in Strings(population, n) {
        var y, c :| y in Strings(population, n - 1) && c in population && x == y + [c];
        StringsIff(population, n - 1, y);
      }
      if |x| == n && InSet(x, population) {
        var y := x[..n - 1];
        assert InSet(y, population);
        StringsIff(population, n - 1, y);
        assert x == y + [x[n - 1]];
      }
    }
  }

  /** Whether every string that can be drawn and is accepted has a property. */
  predicate AllDrawn(s: Setup, population: seq<char>, q: string -> bool) {
    forall n: nat | n <= Longest(s) :: AllOfLength(s, n, Strings(population, n), q)
  }

  function Longest(s: Setup): nat {
    if Top(s) < 0 then 0 else Top(s)
  }

  predicate AllOfLength(s: Setup, n: nat, strings: set<string>, q: string -> bool) {
    LengthFits(s, n) ==> forall x | x in strings :: Accepts(s.exceptList, Given(x)) ==> q(x)
  }

  lemma AllDrawnIff(s: Setup, population: seq<char>, q: string -> bool)
    ensures AllDrawn(s, population, q) <==>
            forall x :: Drawable(s, population, x) && Accepts(s.exceptList, Given(x)) ==> q(x)
  {
    if AllDrawn(s, population, q) {
      forall x | Drawable(s, population, x) && Accepts(s.exceptList, Given(x))
        ensures q(x)
      {
        StringsIff(population, |x|, x);
        assert AllOfLength(s, |x|, Strings(population, |x|), q);
      }
    } else {
      var n: nat :| n <= Longest(s) && !AllOfLength(s, n, Strings(population, n), q);
      var x :| x in Strings(population, n) && Accepts(s.exceptList, Given(x)) && !q(x);
      StringsIff(population, n, x);
      assert Drawable(s, population, x);
    }
  }

  /** Whether every value of the filtered enum, other than the empty one, has a property. */
  predicate AllFiltered(s: Setup, q: string -> bool) {
    forall x | x in Filtered(s) :: x != "" ==> q(x)
  }

  /** Whether every string that can be returned from a configuration has a property. */
  predicate Guard(s: Setup, q: string -> bool) {
    if !Free(s) then s.emptyString && s.exceptList == [] ==> q("")
    else if EqualValue(s).Some? then q(EqualValue(s).value)
    else if s.enumList == [] || !s.activeEnum then AllDrawn(s, Limited(s).population.chars, q)
    else if Filtered(s) == [] then AllDrawn(s, s.population.chars, q)
    else AllFiltered(s, q) && ("" in Filtered(s) ==> AllDrawn(s, Limited(s).population.chars, q))
  }

  lemma GuardIff(s: Setup, q: string -> bool)
    ensures Guard(s, q) <==> forall x :: CanReturn(s, x) ==> q(x)
  {
    AllDrawnIff(s, s.population.chars, q);
    AllDrawnIff(s, Limited(s).population.chars, q);
    if Free(s) && EqualValue(s).Some? {
      ValueIsReached(s);
    } else if Free(s) && s.enumList != [] && s.activeEnum {
      if Filtered(s) == [] {
        EmptiedReaches(s);
      } else {
        FilteredReaches(s);
      }
    } else if !Free(s) {
      assert s.emptyString && s.exceptList == [] ==> CanReturn(s, "");
    }
  }

  lemma ValueIsReached(s: Setup)
    requires EqualValue(s).Some?
    ensures forall x :: Reaches(s, x) <==> x == EqualValue(s).value
  {
  }

  lemma EmptiedReaches(s: Setup)
    requires EqualValue(s).None? && s.enumList != [] && s.activeEnum && Filtered(s) == []
    ensures forall x :: Reaches(s, x) <==> Drawable(s, s.population.chars, x) && Accepts(s.exceptList, Given(x))
  {
    forall x | Accepts(s.exceptList, Given(x)) && Drawable(s, Limited(s).population.chars, x)
      ensures Drawable(s, s.population.chars, x)
    {
      PlainUnlessEmpty(s, x);
    }
    forall x | Drawable(s, s.population.chars, x) && x == ""
      ensures Drawable(s, Limited(s).population.chars, x)
    {
    }
  }

  lemma FilteredReaches(s: Setup)
    requires EqualValue(s).None? && s.enumList != [] && s.activeEnum && Filtered(s) != []
    ensures forall x :: Reaches(s, x) <==>
                        || (x != "" && x in Filtered(s))
                        || ("" in Filtered(s) && Drawable(s, Limited(s).population.chars, x) && Accepts(s.exceptList, Given(x)))
  {
    forall x | x in Filtered(s) && x != ""
      ensures Accepts(s.exceptList, Given(x))
    {
      FilteredIsAccepted(s, x);
    }
  }

  lemma FilteredIsAccepted(s: Setup, x: string)
    requires x in Filtered(s)
    ensures x !in s.exceptList && (s.notAllowed != [] ==> !Uses(x, s.notAllowed))
  {
  }

  /** Whatever length is chosen for a negated byte count. */
  predicate GuardAll(s: Setup, q: string -> bool) {
    if Choices(s) == {} then Guard(s, q) else forall fix | fix in Choices(s) :: Guard(Narrowed(s, fix), q)
  }

  /** Whatever the random numbers, a returned string has a property. */
  ghost predicate Always(rules: seq<Rule>, printable: seq<char>, q: string -> bool) {
    forall fix, tries :: Returns(rules, printable, fix, tries) ==> q(Generated(rules, printable, fix, tries).s)
  }

  /** Every returned string has a property exactly when the guard holds, for every rule set and every property. */
  lemma AlwaysIff(rules: seq<Rule>, printable: seq<char>, q: string -> bool)
    requires FirstExit(rules).None? && Merged(rules, printable).inserted == []
    ensures Always(rules, printable, q) <==> GuardAll(Merged(rules, printable), q)
  {
    var s := Merged(rules, printable);
    GuardAllIff(s, q);
    if !Always(rules, printable, q) {
      var fix, tries :| Returns(rules, printable, fix, tries) && !q(Generated(rules, printable, fix, tries).s);
      var x := Generated(rules, printable, fix, tries).s;
      ReturnedIff(rules, printable, x);
      var f :| ReturnsWith(s, f, x);
    } else {
      forall fix, x | ReturnsWith(s, fix, x)
        ensures q(x)
      {
        ReturnedIff(rules, printable, x);
        var f, tries :| Returns(rules, printable, f, tries) && Generated(rules, printable, f, tries).s == x;
      }
    }
  }

  lemma GuardAllIff(s: Setup, q: string -> bool)
    ensures GuardAll(s, q) <==> forall fix, x :: ReturnsWith(s, fix, x) ==> q(x)
  {
    forall fix: int
      ensures Guard(Narrowed(s, fix), q) <==> forall x :: CanReturn(Narrowed(s, fix), x) ==> q(x)
    {
      GuardIff(Narrowed(s, fix), q);
    }
    if Choices(s) == {} {
      assert forall fix: int :: Narrowed(s, fix) == s;
      assert Narrowed(s, 0) == s;
      if forall fix, x :: ReturnsWith(s, fix, x) ==> q(x) {
        forall x | CanReturn(s, x)
          ensures q(x)
        {
          assert ReturnsWith(s, 0, x);
        }
      }
    } else if forall fix, x :: ReturnsWith(s, fix, x) ==> q(x) {
      forall fix | fix in Choices(s)
        ensures Guard(Narrowed(s, fix), q)
      {
        forall x | CanReturn(Narrowed(s, fix), x)
          ensures q(x)
        {
          assert ReturnsWith(s, fix, x);
        }
      }
    }
  }

  function Obeying(k: Kind): string -> bool {
    x => Obeys(x, k)
  }

  function Breaking(k: Kind): string -> bool {
    x => Breaks(x, k)
  }
}
