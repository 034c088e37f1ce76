/** What the rules of a string mean for the field: when it is left out, of another type, and what each rule contributes. */
module StringMeaning {
  import opened Wrappers
  import opened Bounds
  import opened StringRules
  import opened StringLaws

  // ----- rules that decide alone -----

  /** The outcome that an applicable rule forces at once; `Aborted` is an exception. */
  predicate Decides(r: Rule, o: Outcome) {
    match r
    case Rule(RequiredTrue, true, true, _) => o == EmptyValue
    case Rule(TypeString, true, true, _) => o == OtherType
    case Rule(ValueNotEqual(value), true, true, _) => o == Given(value)
    case Rule(Unsupported, true, true, _) => o == Aborted
    case Rule(MaxLength(None, true), true, true, _) => o == Aborted
    case Rule(BytesFix(lengths), false, true, _) => lengths == [] && o == Aborted
    case _ => false
  }

  lemma DecidesIff(r: Rule, o: Outcome)
    ensures Exit(r) == Some(o) <==> Decides(r, o)
  {
  }

  /** The rule decides, and no rule before it does. */
  ghost predicate DecidesFirst(rules: seq<Rule>, i: int, o: Outcome) {
    0 <= i < |rules| && Decides(rules[i], o) && forall j, p :: 0 <= j < i ==> !Decides(rules[j], p)
  }

  ghost predicate NoneDecides(rules: seq<Rule>) {
    forall i, o :: 0 <= i < |rules| ==> !Decides(rules[i], o)
  }

  /** The loop over the rules is left early exactly by the first rule that decides alone, with what it decides. */
  lemma EarlyIff(rules: seq<Rule>, o: Outcome)
    ensures FirstExit(rules) == Some(o) <==> exists i :: DecidesFirst(rules, i, o)
    ensures FirstExit(rules).None? <==> NoneDecides(rules)
  {
    var i := DecisionAt(rules);
    if k :| DecidesFirst(rules, k, o) {
      assert k == i;
      DecidesIff(rules[k], o);
    }
    if i < |rules| {
      assert DecidesFirst(rules, i, FirstExit(rules).value);
    }
  }

  /** The position of the first rule that decides, or the end. */
  lemma {:induction false} DecisionAt(rules: seq<Rule>) returns (i: nat)
    ensures i <= |rules|
    ensures forall j, o :: 0 <= j < i ==> !Decides(rules[j], o)
    ensures if i == |rules| then FirstExit(rules).None? else FirstExit(rules).Some? && FirstExit(rules) == Exit(rules[i])
    ensures i < |rules| ==> Decides(rules[i], FirstExit(rules).value)
  {
    i := 0;
    if rules != [] {
      forall o
        ensures Exit(rules[0]) == Some(o) <==> Decides(rules[0], o)
      {
        DecidesIff(rules[0], o);
      }
      if Exit(rules[0]).None? {
        i := DecisionAt(rules[1..]);
        assert forall j :: 0 < j < |rules| ==> rules[j] == rules[1..][j - 1];
        i := i + 1;
      }
    }
  }

  // ----- what each rule contributes -----

  /** The field must be there: a requirement that holds, or a removal that does not. */
  predicate Demands(r: Rule) {
    match r
    case Rule(RequiredTrue, _, true, _) => true
    case Rule(RemoveField, true, true, _) => true
    case _ => false
  }

  predicate WantsEmpty(r: Rule) {
    match r
    case Rule(EmptyString, false, true, _) => true
    case _ => false
  }

  predicate WantsRemoval(r: Rule) {
    match r
    case Rule(RemoveField, false, true, _) => true
    case _ => false
  }

  lemma {:induction false} RequiredMeans(rules: seq<Rule>, printable: seq<char>)
    ensures Merged(rules, printable).required <==> Any(rules, Demands)
  {
    if rules != [] {
      RequiredMeans(rules[..|rules| - 1], printable);
      AnyLast(rules, Demands);
    }
  }

  lemma {:induction false} EmptyStringMeans(rules: seq<Rule>, printable: seq<char>)
    ensures Merged(rules, printable).emptyString <==> Any(rules, WantsEmpty)
  {
    if rules != [] {
      EmptyStringMeans(rules[..|rules| - 1], printable);
      AnyLast(rules, WantsEmpty);
    }
  }

  lemma {:induction false} RemoveMeans(rules: seq<Rule>, printable: seq<char>)
    ensures Merged(rules, printable).remove <==> Any(rules, WantsRemoval)
  {
    if rules != [] {
      RemoveMeans(rules[..|rules| - 1], printable);
      AnyLast(rules, WantsRemoval);
    }
  }

  lemma FlagsMean(rules: seq<Rule>, printable: seq<char>)
    ensures var s := Merged(rules, printable);
            && (s.required <==> Any(rules, Demands)) && (s.emptyString <==> Any(rules, WantsEmpty))
            && (s.remove <==> Any(rules, WantsRemoval))
            && (s.determined <==> !NoneNegated(rules))
  {
    RequiredMeans(rules, printable);
    EmptyStringMeans(rules, printable);
    RemoveMeans(rules, printable);
    MergedFlags(rules, printable);
    assert Any(rules, IsNegated) <==> !NoneNegated(rules);
  }

  // ----- when the field is left out -----

  /** One attempt leaves the field out: the coin does, with nothing demanded, or a removal does. */
  predicate LeavesOut(s: Setup, t: Try) {
    !s.determined && ((!s.required && t.skip) || (s.remove && !s.emptyString))
  }

  /** Choosing and drawing yield a string or an exception. */
  lemma DrawnOrAborted(s: Setup, t: Try)
    ensures IsText(DrawStep(s, t).outcome) || DrawStep(s, t).outcome == Aborted
  {
  }

  lemma ChosenOrAborted(s: Setup, t: Try)
    ensures IsText(ThroughEnum(s, t).outcome) || ThroughEnum(s, t).outcome == Aborted
  {
    DrawnOrAborted(EnumStep(s, t).next, t);
  }

  /** An attempt that leaves nothing out is one of these. */
  lemma TriedOtherwise(s: Setup, t: Try)
    requires !LeavesOut(s, t)
    ensures Tried(s, t).outcome.Given? || Tried(s, t) == ThroughEnum(s, t) || Tried(s, t) == DrawStep(s, t)
  {
  }

  lemma TriedEmptyIff(s: Setup, t: Try)
    ensures Tried(s, t).outcome == EmptyValue <==> LeavesOut(s, t)
    ensures Tried(s, t).outcome != OtherType
  {
    if !LeavesOut(s, t) {
      TriedOtherwise(s, t);
      DrawnOrAborted(s, t);
      ChosenOrAborted(s, t);
    } else {
      assert Tried(s, t) == Step(EmptyValue, s);
    }
  }

  lemma TriedKeepsFlags(s: Setup, t: Try)
    ensures var n := Tried(s, t).next;
            && n.required == s.required && n.determined == s.determined && n.emptyString == s.emptyString
            && n.remove == s.remove && n.exceptList == s.exceptList
  {
    TriedContinues(s, t);
  }

  /** The first attempt that is not rejected leaves the field out. */
  ghost predicate LeftOutAt(s: Setup, tries: seq<Try>, j: int) {
    0 <= j < |tries| && AllRejected(s, tries[..j]) && LeavesOut(s, tries[j])
  }

  lemma {:induction false} TrialsEmptyIff(s: Setup, tries: seq<Try>)
    ensures Trials(s, tries) == EmptyValue <==> exists j :: LeftOutAt(s, tries, j)
    ensures Trials(s, tries) != OtherType
    decreases |tries|
  {
    if tries != [] {
      var step := Tried(s, tries[0]);
      TriedEmptyIff(s, tries[0]);
      TriedKeepsFlags(s, tries[0]);
      TrialsEmptyIff(step.next, tries[1..]);
      LeftOutLater(s, tries);
      assert LeavesOut(s, tries[0]) <==> LeftOutAt(s, tries, 0);
    }
  }

  lemma LeftOutLater(s: Setup, tries: seq<Try>)
    requires tries != []
    ensures var step := Tried(s, tries[0]);
            (exists j :: j > 0 && LeftOutAt(s, tries, j)) <==>
            !Accepts(s.exceptList, step.outcome) && exists j :: LeftOutAt(step.next, tries[1..], j)
  {
    var step, rest := Tried(s, tries[0]), tries[1..];
    TriedKeepsFlags(s, tries[0]);
    forall j | 0 < j < |tries|
      ensures LeftOutAt(s, tries, j) <==> !Accepts(s.exceptList, step.outcome) && LeftOutAt(step.next, rest, j - 1)
    {
      assert tries[..j][0] == tries[0] && tries[..j][1..] == rest[..j - 1] && tries[j] == rest[j - 1];
    }
    if j :| LeftOutAt(step.next, rest, j) && !Accepts(s.exceptList, step.outcome) {
      assert LeftOutAt(s, tries, j + 1);
    }
  }

  lemma NarrowedKeepsFlags(s: Setup, fix: int, tries: seq<Try>, j: int)
    requires !s.determined && s.excludedLengths == {}
    ensures LeftOutAt(Narrowed(s, fix), tries, j) <==> LeftOutAt(s, tries, j)
  {
  }

  /**
   The field is left out exactly by a negated requirement that decides first, or, when no rule is negated and none
   decides alone, in the first attempt that is not rejected: by the coin if nothing demands the field, or by an
   active removal unless the empty string is asked for.
   */
  lemma EmptyIff(rules: seq<Rule>, printable: seq<char>, fix: int, tries: seq<Try>)
    ensures Generated(rules, printable, fix, tries) == EmptyValue <==>
            || (exists i :: DecidesFirst(rules, i, EmptyValue))
            || (&& NoneDecides(rules) && NoneNegated(rules)
                && exists j :: && 0 <= j < |tries| && AllRejected(Merged(rules, printable), tries[..j])
                               && (|| (tries[j].skip && !Any(rules, Demands))
                                   || (Any(rules, WantsRemoval) && !Any(rules, WantsEmpty))))
  {
    var s := Merged(rules, printable);
    EarlyIff(rules, EmptyValue);
    FlagsMean(rules, printable);
    if FirstExit(rules).None? {
      TrialsEmptyIff(Narrowed(s, fix), tries);
      if NoneNegated(rules) {
        NarrowedOnlyForBytes(rules, printable, fix);
        assert forall j :: LeftOutAt(s, tries, j) <==>
                           && 0 <= j < |tries| && AllRejected(s, tries[..j])
                           && (|| (tries[j].skip && !Any(rules, Demands))
                               || (Any(rules, WantsRemoval) && !Any(rules, WantsEmpty)));
      } else {
        assert Narrowed(s, fix).determined;
      }
    }
  }

  /** A field that is required and not removed, with no rule negated, is never left out. */
  lemma RequiredIsThere(rules: seq<Rule>, printable: seq<char>, fix: int, tries: seq<Try>, i: nat)
    requires NoneNegated(rules) && i < |rules| && rules[i].hit && rules[i].kind == RequiredTrue
    requires forall j :: 0 <= j < |rules| && rules[j].hit ==> rules[j].kind != RemoveField
    ensures Generated(rules, printable, fix, tries) != EmptyValue
  {
    EmptyIff(rules, printable, fix, tries);
    assert Demands(rules[i]);
    assert forall k :: !DecidesFirst(rules, k, EmptyValue);
  }

  /** The field can be left out in some run exactly under these conditions on the rules. */
  lemma CanBeEmptyIff(rules: seq<Rule>, printable: seq<char>)
    ensures (exists fix, tries :: EndsEmpty(rules, printable, fix, tries)) <==>
            || (exists i :: DecidesFirst(rules, i, EmptyValue))
            || (&& NoneDecides(rules) && NoneNegated(rules)
                && (!Any(rules, Demands) || (Any(rules, WantsRemoval) && !Any(rules, WantsEmpty))))
  {
    if fix, tries :| EndsEmpty(rules, printable, fix, tries) {
      EmptyIff(rules, printable, fix, tries);
    }
    var t := Try(true, 0, 0, (i: nat) => 0, 0, (i: nat) => 0, (i: nat) => 0);
    var tries := seq(MAX_TRY_COUNT, (i: nat) => t);
    var fix := AnyChoice(rules, printable);
    EmptyIff(rules, printable, fix, tries);
    assert tries[0].skip && tries[..0] == [] && AllRejected(Merged(rules, printable), tries[..0]);
    assert EndsEmpty(rules, printable, fix, tries) <==> Generated(rules, printable, fix, tries) == EmptyValue;
  }

  ghost predicate EndsEmpty(rules: seq<Rule>, printable: seq<char>, fix: int, tries: seq<Try>) {
    && IsChoice(Choices(Merged(rules, printable)), fix) && |tries| == MAX_TRY_COUNT
    && Generated(rules, printable, fix, tries) == EmptyValue
  }

  lemma AnyChoice(rules: seq<Rule>, printable: seq<char>) returns (fix: int)
    ensures IsChoice(Choices(Merged(rules, printable)), fix)
  {
    var choices := Choices(Merged(rules, printable));
    if choices == {} {
      fix := 0;
    } else {
      fix :| fix in choices;
    }
  }

  /** A value of another type comes exactly from a negated type rule that decides first. */
  lemma OtherTypeIff(rules: seq<Rule>, printable: seq<char>, fix: int, tries: seq<Try>)
    ensures Generated(rules, printable, fix, tries) == OtherType <==> exists i :: DecidesFirst(rules, i, OtherType)
  {
    EarlyIff(rules, OtherType);
    TrialsEmptyIff(Narrowed(Merged(rules, printable), fix), tries);
  }

  // ----- which strings the rules speak of -----

  /** An active enum offers its values. */
  predicate Offers(r: Rule, x: string) {
    match r
    case Rule(Enum(values), false, true, _) => x in values
    case _ => false
  }

  /** A string that a rule rules out, active or negated. */
  predicate RulesOut(r: Rule, x: string) {
    match r
    case Rule(Enum(values), true, true, _) => x in values
    case Rule(ValueEqual(value), true, true, _) => x == value
    case Rule(ValueNotEqual(value), false, true, _) => x == value
    case Rule(EmptyString, true, true, _) => x == ""
    case _ => false
  }

  /** A character that must not be used: one of a negated set, or a separator under active camel case. */
  predicate BansCharacter(r: Rule, c: char) {
    match r
    case Rule(CharacterSet(chars), true, true, _) => c in chars
    case Rule(CamelCase, false, true, _) => c == '-' || c == '_'
    case _ => false
  }

  /** Negated camel case has both separators inserted. */
  predicate InsertsCharacter(r: Rule, c: char) {
    match r
    case Rule(CamelCase, true, true, _) => c == '-' || c == '_'
    case _ => false
  }

  ghost predicate SomeRule<X>(rules: seq<Rule>, p: (Rule, X) -> bool, x: X) {
    exists i :: 0 <= i < |rules| && p(rules[i], x)
  }

  lemma SomeRuleLast<X>(rules: seq<Rule>, p: (Rule, X) -> bool, x: X)
    requires rules != []
    ensures SomeRule(rules, p, x) <==> SomeRule(rules[..|rules| - 1], p, x) || p(rules[|rules| - 1], x)
  {
    var n := |rules| - 1;
    assert forall i :: 0 <= i < n ==> rules[..n][i] == rules[i];
  }

  lemma {:induction false} EnumMeans(rules: seq<Rule>, printable: seq<char>, x: string)
    ensures x in Merged(rules, printable).enumList <==> SomeRule(rules, Offers, x)
  {
    if rules != [] {
      EnumMeans(rules[..|rules| - 1], printable, x);
      SomeRuleLast(rules, Offers, x);
      assert x in Offered(rules[|rules| - 1]) <==> Offers(rules[|rules| - 1], x);
    }
  }

  lemma ExceptedMeans(r: Rule, x: string)
    ensures x in Excepted(r) <==> RulesOut(r, x)
  {
  }

  lemma {:induction false} ExceptMeans(rules: seq<Rule>, printable: seq<char>, x: string)
    ensures x in Merged(rules, printable).exceptList <==> SomeRule(rules, RulesOut, x)
  {
    if rules != [] {
      ExceptMeans(rules[..|rules| - 1], printable, x);
      SomeRuleLast(rules, RulesOut, x);
      ExceptedMeans(rules[|rules| - 1], x);
    }
  }

  lemma {:induction false} BannedMeans(rules: seq<Rule>, printable: seq<char>, c: char)
    ensures c in Merged(rules, printable).notAllowed <==> SomeRule(rules, BansCharacter, c)
  {
    if rules != [] {
      BannedMeans(rules[..|rules| - 1], printable, c);
      SomeRuleLast(rules, BansCharacter, c);
      DisallowedMeans(rules[|rules| - 1], c);
      LastBanned(rules, printable);
    }
  }

  lemma DisallowedMeans(r: Rule, c: char)
    ensures c in Disallowed(r) <==> BansCharacter(r, c)
  {
  }

  lemma LastBanned(rules: seq<Rule>, printable: seq<char>)
    requires rules != []
    ensures Merged(rules, printable).notAllowed ==
            Merged(rules[..|rules| - 1], printable).notAllowed + Disallowed(rules[|rules| - 1])
  {
  }

  lemma {:induction false} InsertedMeans(rules: seq<Rule>, printable: seq<char>, c: char)
    ensures c in Merged(rules, printable).inserted <==> SomeRule(rules, InsertsCharacter, c)
  {
    if rules != [] {
      InsertedMeans(rules[..|rules| - 1], printable, c);
      SomeRuleLast(rules, InsertsCharacter, c);
    }
  }

  predicate FixesValue(r: Rule, x: string) {
    match r
    case Rule(ValueEqual(value), false, true, _) => x == value
    case _ => false
  }

  /** The last active value of the rules. */
  ghost predicate LastFixes(rules: seq<Rule>, i: int, x: string) {
    0 <= i < |rules| && FixesValue(rules[i], x) && forall j, y :: i < j < |rules| ==> !FixesValue(rules[j], y)
  }

  ghost predicate Fixed(rules: seq<Rule>, x: string) {
    exists i :: LastFixes(rules, i, x)
  }

  /** One more rule takes the place of the last one if it fixes a value, and leaves it otherwise. */
  lemma LastFixesOneMore(rules: seq<Rule>, r: Rule, x: string)
    ensures Fixed(rules + [r], x) <==> FixesValue(r, x) || (!SetsValue(r) && Fixed(rules, x))
  {
    var all, n := rules + [r], |rules|;
    assert all[n] == r && forall i :: 0 <= i < n ==> all[i] == rules[i];
    if SetsValue(r) {
      assert FixesValue(all[n], r.kind.value);
      assert FixesValue(r, x) ==> LastFixes(all, n, x);
    } else {
      assert forall y :: !FixesValue(r, y);
      assert forall i :: LastFixes(all, i, x) <==> LastFixes(rules, i, x);
    }
  }

  lemma {:induction false} ValueMeans(rules: seq<Rule>, printable: seq<char>, x: string)
    ensures Merged(rules, printable).equalValue == Some(x) <==> Fixed(rules, x)
  {
    if rules != [] {
      var n := |rules| - 1;
      ValueMeans(rules[..n], printable, x);
      LastFixesOneMore(rules[..n], rules[n], x);
      assert rules == rules[..n] + [rules[n]];
      LastValue(rules, printable);
    }
  }

  lemma LastValue(rules: seq<Rule>, printable: seq<char>)
    requires rules != []
    ensures var last := rules[|rules| - 1];
            Merged(rules, printable).equalValue ==
            if SetsValue(last) then Some(last.kind.value) else Merged(rules[..|rules| - 1], printable).equalValue
  {
  }

  // ----- which lengths the rules speak of -----

  /** The length rules as they are written: at most the limit, exactly the chosen number of bytes. */
  predicate Fits(r: Rule, n: int) {
    match r
    case Rule(MaxLength(Some(limit), _), false, true, _) => n <= limit
    case Rule(BytesFix(lengths), false, true, choice) => lengths == [] || n == lengths[choice % |lengths|]
    case _ => true
  }

  lemma MeetsIff(rules: seq<Rule>, n: int)
    requires NoneNegated(rules)
    ensures Meets(rules, n) <==> forall i :: 0 <= i < |rules| ==> Fits(rules[i], n)
  {
    forall i | 0 <= i < |rules|
      ensures Fits(rules[i], n) <==>
              && (MinRequest(rules[i]).Some? ==> MinRequest(rules[i]).value.size <= n)
              && (MaxRequest(rules[i]).Some? ==> n <= MaxRequest(rules[i]).value.size)
    {
    }
  }

  /** With no rule negated, a drawn string fits every length rule if any length does, and no rule rules it out. */
  lemma DrawnFits(rules: seq<Rule>, printable: seq<char>, fix: int, tries: seq<Try>, m: nat)
    requires NoneNegated(rules) && Generated(rules, printable, fix, tries).Drawn?
    requires forall i :: 0 <= i < |rules| ==> Fits(rules[i], m)
    ensures var x := Generated(rules, printable, fix, tries).s;
            forall i :: 0 <= i < |rules| ==> Fits(rules[i], |x|) && !RulesOut(rules[i], x)
  {
    var x := Generated(rules, printable, fix, tries).s;
    MeetsIff(rules, m);
    MeetsIff(rules, |x|);
    NoneNegatedLaws(rules, printable, fix, tries);
    NotRuledOut(rules, x);
  }

  lemma NotRuledOut(rules: seq<Rule>, x: string)
    ensures x in Forbidden(rules) <==> SomeRule(rules, RulesOut, x)
  {
    forall i | 0 <= i < |rules|
      ensures x in Excepted(rules[i]) <==> RulesOut(rules[i], x)
    {
      ExceptedMeans(rules[i], x);
    }
  }

  /** No string that a rule rules out is ever returned, negated or not, except the one a negated notEqual prescribes. */
  lemma TextIsAllowed(rules: seq<Rule>, printable: seq<char>, fix: int, tries: seq<Try>)
    requires FirstExit(rules).None? && IsText(Generated(rules, printable, fix, tries))
    ensures !SomeRule(rules, RulesOut, Generated(rules, printable, fix, tries).s)
  {
    var s, x := Merged(rules, printable), Generated(rules, printable, fix, tries).s;
    TrialsYield(Narrowed(s, fix), tries);
    ExceptMeans(rules, printable, x);
  }

  /** As soon as some rule rules a string out, the empty string is not returned either. */
  lemma ExclusionsForbidEmpty(rules: seq<Rule>, printable: seq<char>, fix: int, tries: seq<Try>, y: string)
    requires FirstExit(rules).None? && IsText(Generated(rules, printable, fix, tries)) && SomeRule(rules, RulesOut, y)
    ensures Generated(rules, printable, fix, tries).s != ""
  {
    ExceptMeans(rules, printable, y);
    TrialsAccept(Narrowed(Merged(rules, printable), fix), tries);
  }

  lemma {:induction false} TrialsAccept(s: Setup, tries: seq<Try>)
    requires IsText(Trials(s, tries)) && s.exceptList != []
    ensures Trials(s, tries).s != ""
    decreases |tries|
  {
    if tries != [] && !Accepts(s.exceptList, Tried(s, tries[0]).outcome) {
      TriedKeepsFlags(s, tries[0]);
      TrialsAccept(Tried(s, tries[0]).next, tries[1..]);
    }
  }

  /** The enum values that remain to be chosen from. */
  lemma FilteredIff(s: Setup, x: string)
    ensures x in Filtered(s) <==>
            && x in s.enumList && x !in s.exceptList
            && (s.exceptList != [] && s.min.Some? ==> |x| >= s.min.value.size)
            && forall c :: c in x ==> c !in s.notAllowed
  {
    assert Uses(x, s.notAllowed) <==> exists c :: c in x && c in s.notAllowed;
  }
}
