/** Which strings generate_string_value can return, exactly. */
module StringReach {
  import opened StringRules
  import opened StringLaws

  // ----- which strings one attempt can yield -----

  /** No rule asks for an empty string or no string, or a negated rule overrides it. */
  predicate Free(s: Setup) {
    s.determined || (!s.emptyString && !s.remove)
  }

  /** The coin leaves the field out. */
  predicate Skips(s: Setup, t: Try) {
    !s.required && t.skip && !s.determined
  }

  /** A string of a possible length over a population. */
  ghost predicate Drawable(s: Setup, population: seq<char>, x: string) {
    LengthFits(s, |x|) && forall i :: 0 <= i < |x| ==> x[i] in population
  }

  /** An attempt can yield the string without reaching the draw at its end. */
  ghost predicate Plainly(s: Setup, x: string) {
    && Accepts(s.exceptList, Given(x))
    && if EqualValue(s).Some? then x == EqualValue(s).value
       else
         && s.enumList != [] && s.activeEnum && x != ""
         && if Filtered(s) != [] then x in Filtered(s) else Drawable(s, s.population.chars, x)
  }

  /** An attempt can reach the draw at its end. */
  predicate ReachesDraw(s: Setup) {
    EqualValue(s).None? && (s.enumList != [] && s.activeEnum ==> Filtered(s) == [] || "" in Filtered(s))
  }

  /** The string can be returned when nothing is inserted. */
  ghost predicate Reaches(s: Setup, x: string) {
    || Plainly(s, x)
    || (Accepts(s.exceptList, Given(x)) && ReachesDraw(s) && Drawable(s, Limited(s).population.chars, x))
  }

  lemma DrawIsDrawable(s: Setup, population: seq<char>, seed: int, chars: nat -> nat)
    ensures var o := Draw(population, LengthFor(s, seed), chars); o.Drawn? ==> Drawable(s, population, o.s)
  {
    DrawFits(s, population, seed, chars);
  }

  /** What is drawn with insertions contains what is inserted. */
  ghost predicate Ends(s: Setup, x: string) {
    (s.inserted == [] ==> Reaches(s, x)) && (forall c :: c in s.inserted ==> c in x)
  }

  /** An attempt that has an enum to choose from, and chooses or draws a string from it, yields that string. */
  lemma EnumIsTried(s: Setup, t: Try)
    requires Free(s) && !Skips(s, t) && EqualValue(s).None? && s.enumList != [] && s.activeEnum
    ensures IsText(EnumStep(s, t).outcome) && EnumStep(s, t).outcome.s != "" ==> Tried(s, t) == EnumStep(s, t)
    ensures IsText(EnumStep(s, t).outcome) && EnumStep(s, t).outcome.s == "" ==>
              Tried(s, t) == DrawStep(EnumStep(s, t).next, t)
  {
  }

  /** A string that one attempt yields is reached plainly or by the draw at the end. */
  lemma TriedReaches(s: Setup, t: Try)
    requires Free(s) && IsText(Tried(s, t).outcome) && Accepts(s.exceptList, Tried(s, t).outcome)
    ensures var x := Tried(s, t).outcome.s; Plainly(s, x) || Ends(s, x)
  {
    if EqualValue(s).None? {
      if s.enumList != [] && s.activeEnum {
        EnumReaches(s, t);
      } else {
        DrawEnds(s, t);
      }
    }
  }

  lemma EnumReaches(s: Setup, t: Try)
    requires Free(s) && EqualValue(s).None? && s.enumList != [] && s.activeEnum
    requires IsText(Tried(s, t).outcome) && Accepts(s.exceptList, Tried(s, t).outcome)
    ensures var x := Tried(s, t).outcome.s; Plainly(s, x) || Ends(s, x)
  {
    EnumIsTried(s, t);
    if EnumStep(s, t).outcome.s == "" {
      EnumEnds(s, t);
    } else {
      EnumPlain(s, t);
    }
  }

  lemma EnumPlain(s: Setup, t: Try)
    requires EqualValue(s).None? && s.enumList != [] && s.activeEnum
    requires IsText(EnumStep(s, t).outcome) && EnumStep(s, t).outcome.s != ""
    requires Accepts(s.exceptList, EnumStep(s, t).outcome)
    ensures Plainly(s, EnumStep(s, t).outcome.s)
  {
    DrawIsDrawable(s, s.population.chars, t.enumLength, t.enumChars);
  }

  lemma EnumEnds(s: Setup, t: Try)
    requires EqualValue(s).None? && IsText(EnumStep(s, t).outcome) && EnumStep(s, t).outcome.s == ""
    requires DrawStep(EnumStep(s, t).next, t).outcome.Drawn?
    requires Accepts(s.exceptList, DrawStep(EnumStep(s, t).next, t).outcome)
    ensures Ends(s, DrawStep(EnumStep(s, t).next, t).outcome.s)
  {
    SameDrawStep(s, Filtered(s), t);
    assert ReachesDraw(s);
    DrawEnds(s, t);
  }

  /** Filtering the enum does not change what is drawn. */
  lemma SameDrawStep(s: Setup, list: seq<string>, t: Try)
    ensures DrawStep(s.(enumList := list), t).outcome == DrawStep(s, t).outcome
  {
    EnumKeepsUsable(s, list);
    assert LengthFor(s.(enumList := list), t.length) == LengthFor(s, t.length);
  }

  lemma DrawEnds(s: Setup, t: Try)
    requires ReachesDraw(s) && DrawStep(s, t).outcome.Drawn? && Accepts(s.exceptList, DrawStep(s, t).outcome)
    ensures Ends(s, DrawStep(s, t).outcome.s)
  {
    DrawIsDrawable(s, Limited(s).population.chars, t.length, t.chars);
  }

  lemma {:induction false} KeptAll(list: seq<string>, except: seq<string>, least: int)
    requires forall x :: x in list ==> x !in except && |x| >= least
    ensures Kept(list, except, least) == list
  {
    if list != [] {
      KeptAll(list[1..], except, least);
    }
  }

  lemma {:induction false} AllowedAll(list: seq<string>, chars: seq<char>)
    requires forall x :: x in list ==> !Uses(x, chars)
    ensures Allowed(list, chars) == list
  {
    if list != [] {
      AllowedAll(list[1..], chars);
    }
  }

  /** Filtering the enum a second time changes nothing. */
  lemma FilteredTwice(s: Setup)
    ensures Filtered(s.(enumList := Filtered(s))) == Filtered(s)
  {
    var list := Filtered(s);
    if s.exceptList != [] {
      KeptAll(list, s.exceptList, if s.min.Some? then s.min.value.size else 0);
    }
    if s.notAllowed != [] {
      AllowedAll(list, s.notAllowed);
    }
  }

  /** A configuration after some attempts: the enum as it was or filtered, the population as it was or limited. */
  ghost predicate Later(s: Setup, after: Setup) {
    && (after.enumList == s.enumList || (s.enumList != [] && s.activeEnum && after.enumList == Filtered(s)))
    && (after.population == s.population || after.population == Limited(s).population)
    && after == s.(enumList := after.enumList, population := after.population)
  }

  lemma LaterFilters(s: Setup, after: Setup)
    requires Later(s, after)
    ensures Filtered(after) == Filtered(s) && EqualValue(after) == EqualValue(s)
  {
    FilteredTwice(s);
    assert Filtered(after) == Filtered(s.(enumList := after.enumList));
  }

  lemma LaterLimits(s: Setup, after: Setup)
    requires Later(s, after)
    ensures Limited(after).population.chars == Limited(s).population.chars
    ensures Limited(after).population == s.population || Limited(after).population == Limited(s).population
  {
    LimitedTwice(s);
    if after.population == s.population {
      assert Limited(after).population == Limited(s).population;
    } else {
      assert Limited(after).population == Limited(Limited(s)).population;
      if s.notAllowed != [] && s.population.level <= 9999 {
        WithoutAll(Limited(s).population.chars, s.notAllowed);
      }
    }
  }

  lemma LaterStep(s: Setup, after: Setup, t: Try)
    requires Later(s, after)
    ensures Later(s, Tried(after, t).next)
  {
    LaterFilters(s, after);
    LaterLimits(s, after);
    EnumKeepsUsable(after, Filtered(after));
    TriedNext(after, t);
  }

  /** What one attempt can make of the enum and the population. */
  ghost predicate Moves(s: Setup, next: Setup) {
    && (next.enumList == s.enumList || (s.enumList != [] && s.activeEnum && next.enumList == Filtered(s)))
    && (next.population == s.population || next.population == Limited(s).population)
    && next == s.(enumList := next.enumList, population := next.population)
  }

  lemma EnumMoves(s: Setup, t: Try)
    requires s.enumList != [] && s.activeEnum
    ensures Moves(s, EnumStep(s, t).next)
  {
  }

  lemma DrawMoves(s: Setup, t: Try)
    ensures Moves(s, DrawStep(s, t).next)
  {
  }

  lemma EnumDrawMoves(s: Setup, t: Try)
    requires s.enumList != [] && s.activeEnum
    ensures Moves(s, DrawStep(EnumStep(s, t).next, t).next)
  {
    var f := EnumStep(s, t).next;
    EnumKeepsUsable(s, f.enumList);
    assert DrawStep(f, t).next == Limited(f);
    LimitedIsPart(f);
  }

  lemma TriedNext(s: Setup, t: Try)
    ensures Moves(s, Tried(s, t).next)
  {
    if s.enumList != [] && s.activeEnum {
      EnumMoves(s, t);
      EnumDrawMoves(s, t);
    }
    DrawMoves(s, t);
  }

  /** What is reached later could have been reached at first. */
  lemma LaterReaches(s: Setup, after: Setup, x: string)
    requires Later(s, after)
    ensures Plainly(after, x) ==> Plainly(s, x)
    ensures Reaches(after, x) ==> Reaches(s, x)
  {
    if Plainly(after, x) {
      LaterPlainly(s, after, x);
    } else if Reaches(after, x) {
      LaterReachesDraw(s, after);
      LaterDrawable(s, after, x);
    }
  }

  lemma LaterReachesDraw(s: Setup, after: Setup)
    requires Later(s, after) && ReachesDraw(after)
    ensures ReachesDraw(s)
  {
    LaterFilters(s, after);
  }

  lemma LaterDrawable(s: Setup, after: Setup, x: string)
    requires Later(s, after) && Drawable(after, Limited(after).population.chars, x)
    ensures Drawable(s, Limited(s).population.chars, x)
  {
    LaterLimits(s, after);
  }

  lemma LaterPlainly(s: Setup, after: Setup, x: string)
    requires Later(s, after) && Plainly(after, x)
    ensures Plainly(s, x)
  {
    LaterFilters(s, after);
    LimitedIsPart(s);
  }

  /** Every string that the attempts return is reached from the configuration they start with. */
  lemma {:induction false} TrialsReach(s: Setup, after: Setup, tries: seq<Try>)
    requires Later(s, after) && Free(s) && IsText(Trials(after, tries))
    ensures var x := Trials(after, tries).s; Plainly(s, x) || Ends(s, x)
    decreases |tries|
  {
    if tries != [] {
      var step := Tried(after, tries[0]);
      if Accepts(s.exceptList, step.outcome) {
        TriedReaches(after, tries[0]);
        LaterReaches(s, after, step.outcome.s);
      } else {
        LaterStep(s, after, tries[0]);
        TrialsReach(s, step.next, tries[1..]);
      }
    }
  }

  ghost function IndexIn(population: seq<char>, c: char): (i: nat)
    ensures c in population ==> i < |population| && population[i] == c
  {
    if c in population then var i: nat :| i < |population| && population[i] == c; i else 0
  }

  /** The random numbers that draw a given string. */
  ghost function Spelling(population: seq<char>, x: string): nat -> nat {
    (i: nat) => if i < |x| then IndexIn(population, x[i]) else 0
  }

  lemma SpellingSpells(population: seq<char>, x: string)
    requires x != "" && forall i :: 0 <= i < |x| ==> x[i] in population
    ensures population != []
    ensures seq(|x|, (i: nat) => Chosen(population, Spelling(population, x)(i))) == x
  {
    assert x[0] in population;
    forall i: nat | i < |x|
      ensures Chosen(population, Spelling(population, x)(i)) == x[i]
    {
      SpelledAt(population, x, i);
    }
  }

  lemma SpelledAt(population: seq<char>, x: string, i: nat)
    requires i < |x| && x[i] in population
    ensures population != [] && Chosen(population, Spelling(population, x)(i)) == x[i]
  {
    assert Spelling(population, x)(i) == IndexIn(population, x[i]);
  }

  lemma SeedGives(s: Setup, n: nat)
    requires LengthFits(s, n)
    ensures n > 0 ==> LengthFor(s, n) == n
    ensures n == 0 ==> LengthFor(s, n) <= 0
  {
  }

  lemma DrawableIsDrawn(s: Setup, population: seq<char>, x: string)
    requires Drawable(s, population, x)
    ensures Draw(population, LengthFor(s, |x|), Spelling(population, x)) == Drawn(x)
  {
    SeedGives(s, |x|);
    if x != "" {
      SpellingSpells(population, x);
      DrawOf(population, |x|, Spelling(population, x));
    }
  }

  lemma DrawOf(population: seq<char>, n: nat, chars: nat -> nat)
    requires population != [] && n > 0
    ensures Draw(population, n, chars) == Drawn(seq(n, (i: nat) => Chosen(population, chars(i))))
  {
  }

  lemma IndexOf(list: seq<string>, x: string) returns (i: nat)
    requires x in list
    ensures i < |list| && list[i] == x
  {
    i :| i < |list| && list[i] == x;
  }

  /** The random numbers of an attempt that spells out one string wherever it draws. */
  ghost function Speller(s: Setup, pick: nat, x: string): Try {
    Try(false, pick, |x|, Spelling(s.population.chars, x),
        |x|, Spelling(Limited(s).population.chars, x), (i: nat) => 0)
  }

  /** Whatever is reached plainly is yielded by some attempt. */
  lemma PlainlyIsTried(s: Setup, x: string) returns (t: Try)
    requires Free(s) && Plainly(s, x)
    ensures IsText(Tried(s, t).outcome) && Tried(s, t).outcome.s == x
  {
    if EqualValue(s).Some? {
      t := Speller(s, 0, x);
    } else if Filtered(s) != [] {
      var pick := IndexOf(Filtered(s), x);
      t := Speller(s, pick, x);
      PickedFrom(s, pick, t);
      EnumIsTried(s, t);
    } else {
      t := Speller(s, 0, x);
      SpelledFrom(s, x, t);
      EnumIsTried(s, t);
    }
  }

  lemma PickedFrom(s: Setup, pick: nat, t: Try)
    requires pick < |Filtered(s)| && t.pick == pick
    ensures EnumStep(s, t).outcome == Given(Filtered(s)[pick])
  {
  }

  lemma SpelledFrom(s: Setup, x: string, t: Try)
    requires Filtered(s) == [] && Drawable(s, s.population.chars, x)
    requires t.enumLength == |x| && t.enumChars == Spelling(s.population.chars, x)
    ensures EnumStep(s, t).outcome == Drawn(x)
  {
    DrawableIsDrawn(s, s.population.chars, x);
  }

  /** Whatever is reached when nothing is inserted is yielded by some attempt. */
  lemma ReachesIsTried(s: Setup, x: string) returns (t: Try)
    requires Free(s) && s.inserted == [] && Reaches(s, x)
    ensures IsText(Tried(s, t).outcome) && Tried(s, t).outcome.s == x
  {
    if Plainly(s, x) {
      t := PlainlyIsTried(s, x);
    } else {
      t := DrawIsTried(s, x);
    }
  }

  lemma DrawIsTried(s: Setup, x: string) returns (t: Try)
    requires Free(s) && s.inserted == [] && ReachesDraw(s) && !Plainly(s, x)
    requires Accepts(s.exceptList, Given(x)) && Drawable(s, Limited(s).population.chars, x)
    ensures IsText(Tried(s, t).outcome) && Tried(s, t).outcome.s == x
  {
    if s.enumList == [] || !s.activeEnum {
      t := Speller(s, 0, x);
      SpellerDraws(s, s, 0, x);
    } else if Filtered(s) != [] {
      var pick := IndexOf(Filtered(s), "");
      t := Speller(s, pick, x);
      PickedFrom(s, pick, t);
      EnumIsTried(s, t);
      SpellerDraws(s, EnumStep(s, t).next, pick, x);
    } else {
      t := Speller(s, 0, x);
      PlainUnlessEmpty(s, x);
      SpelledFrom(s, x, t);
      EnumIsTried(s, t);
      SpellerDraws(s, EnumStep(s, t).next, 0, x);
    }
  }

  /** From an emptied enum, a string that can be drawn in the end can be drawn at once, unless it is empty. */
  lemma PlainUnlessEmpty(s: Setup, x: string)
    requires EqualValue(s).None? && s.enumList != [] && s.activeEnum && Filtered(s) == []
    requires Accepts(s.exceptList, Given(x)) && Drawable(s, Limited(s).population.chars, x)
    ensures Drawable(s, s.population.chars, x) && (x == "" || Plainly(s, x))
  {
    LimitedIsPart(s);
  }

  lemma SpellerDraws(s: Setup, f: Setup, pick: nat, x: string)
    requires Drawable(s, Limited(s).population.chars, x) && s.inserted == [] && f == s.(enumList := f.enumList)
    ensures DrawStep(f, Speller(s, pick, x)).outcome == Drawn(x)
  {
    EnumKeepsUsable(s, f.enumList);
    DrawableIsDrawn(s, Limited(s).population.chars, x);
    assert LengthFor(f, |x|) == LengthFor(s, |x|);
  }

  // ----- which strings the generator can return -----

  /** The generator returns a string for these random numbers. */
  ghost predicate Returns(rules: seq<Rule>, printable: seq<char>, fix: int, tries: seq<Try>) {
    && IsChoice(Choices(Merged(rules, printable)), fix) && |tries| == MAX_TRY_COUNT
    && IsText(Generated(rules, printable, fix, tries))
  }

  /** If one attempt yields an acceptable string, some run returns it. */
  lemma TriedIsReturned(s: Setup, t: Try, x: string) returns (tries: seq<Try>)
    requires IsText(Tried(s, t).outcome) && Tried(s, t).outcome.s == x && Accepts(s.exceptList, Given(x))
    ensures |tries| == MAX_TRY_COUNT && IsText(Trials(s, tries)) && Trials(s, tries).s == x
  {
    tries := seq(MAX_TRY_COUNT, (i: nat) => t);
    assert tries[0] == t;
  }

  /** The strings that the attempts can return when nothing is inserted. */
  ghost predicate CanReturn(s: Setup, x: string) {
    if Free(s) then Reaches(s, x) else s.emptyString && x == "" && s.exceptList == []
  }

  /** A rule that asks for the empty string or for no string leaves no other. */
  lemma {:induction false} OnlyEmpty(s: Setup, tries: seq<Try>)
    requires !Free(s) && IsText(Trials(s, tries))
    ensures s.emptyString && Trials(s, tries).s == "" && s.exceptList == []
    decreases |tries|
  {
    if tries != [] && !Accepts(s.exceptList, Tried(s, tries[0]).outcome) {
      OnlyEmpty(s, tries[1..]);
    }
  }

  lemma TrialsCanReturn(s: Setup, tries: seq<Try>)
    requires s.inserted == [] && IsText(Trials(s, tries))
    ensures CanReturn(s, Trials(s, tries).s)
  {
    if Free(s) {
      TrialsReach(s, s, tries);
    } else {
      OnlyEmpty(s, tries);
    }
  }

  lemma CanReturnIsTried(s: Setup, x: string) returns (tries: seq<Try>)
    requires s.inserted == [] && CanReturn(s, x)
    ensures |tries| == MAX_TRY_COUNT && IsText(Trials(s, tries)) && Trials(s, tries).s == x
  {
    var t;
    if Free(s) {
      t := ReachesIsTried(s, x);
    } else {
      t := Speller(s, 0, x);
    }
    tries := TriedIsReturned(s, t, x);
  }

  /** The strings that the generator returns, for some random numbers, are exactly those that can be returned. */
  lemma ReturnedIff(rules: seq<Rule>, printable: seq<char>, x: string)
    requires FirstExit(rules).None? && Merged(rules, printable).inserted == []
    ensures (exists fix, tries :: Returns(rules, printable, fix, tries) && Generated(rules, printable, fix, tries).s == x) <==>
            (exists fix :: ReturnsWith(Merged(rules, printable), fix, x))
  {
    var s := Merged(rules, printable);
    forall fix, tries | Returns(rules, printable, fix, tries) && Generated(rules, printable, fix, tries).s == x
      ensures ReturnsWith(s, fix, x)
    {
      TrialsCanReturn(Narrowed(s, fix), tries);
    }
    forall fix | ReturnsWith(s, fix, x)
      ensures exists tries :: Returns(rules, printable, fix, tries) && Generated(rules, printable, fix, tries).s == x
    {
      var tries := CanReturnIsTried(Narrowed(s, fix), x);
      assert Returns(rules, printable, fix, tries);
    }
  }

  /** The string can be returned when this length is chosen for a negated byte count. */
  ghost predicate ReturnsWith(s: Setup, fix: int, x: string) {
    IsChoice(Choices(s), fix) && CanReturn(Narrowed(s, fix), x)
  }

  /** A usable prescribed value decides: the first attempt returns it, unless the coin leaves the field out. */
  lemma ValueDecides(rules: seq<Rule>, printable: seq<char>, fix: int, tries: seq<Try>)
    requires FirstExit(rules).None? && tries != []
    requires Free(Merged(rules, printable)) && EqualValue(Merged(rules, printable)).Some?
    ensures Generated(rules, printable, fix, tries) ==
            if Skips(Merged(rules, printable), tries[0]) then EmptyValue else Given(EqualValue(Merged(rules, printable)).value)
  {
    var s := Narrowed(Merged(rules, printable), fix);
    assert EqualValue(s) == EqualValue(Merged(rules, printable));
    assert Trials(s, tries) == Tried(s, tries[0]).outcome;
  }
}
