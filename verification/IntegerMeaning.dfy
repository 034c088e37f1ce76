/** When an integer field is left out, given another type or refused, in terms of its rules as they are written. */
module IntegerMeaning {
  import opened Wrappers
  import opened Bounds
  import opened IntegerRules

  // ----- rules that decide alone -----

  /** The outcome that a negated rule forces at once; `Aborted` is an exception. */
  predicate Decides(r: Rule, o: Outcome) {
    match r
    case Rule(TypeInteger, true, true, _, _) => o == OtherType
    case Rule(RequiredTrue, true, true, _, _) => o == EmptyValue
    case Rule(NotLeadingZeros, true, true, _, _) => o == Aborted
    case Rule(PrefixNotPlus, true, true, _, _) => o == Aborted
    case Rule(Unsupported, true, true, _, _) => o == Aborted
    case Rule(OncePerTransaction(true), true, true, _, _) => o == Aborted
    case Rule(ValueNotEqual(items), true, true, _, choice) =>
      if items == [] || items[choice % |items|].Word? then o == Aborted
      else o == Chosen(items[choice % |items|].n)
    case _ => false
  }

  lemma DecidesIff(r: Rule, o: Outcome)
    ensures Exit(r) == Some(o) <==> Decides(r, o)
  {
  }

  /** The rule decides, and no rule before it does. */
  ghost predicate DecidesFirst(rules: seq<Rule>, i: int, o: Outcome) {
    0 <= i < |rules| && Decides(rules[i], o) && forall j, p :: 0 <= j < i ==> !Decides(rules[j], p)
  }

  ghost predicate NoneDecides(rules: seq<Rule>) {
    forall i, o :: 0 <= i < |rules| ==> !Decides(rules[i], o)
  }

  /** The loop over the rules is left early exactly by the first rule that decides alone, with what it decides. */
  lemma EarlyIff(rules: seq<Rule>, o: Outcome)
    ensures FirstExit(rules) == Some(o) <==> exists i :: DecidesFirst(rules, i, o)
    ensures FirstExit(rules).None? <==> NoneDecides(rules)
  {
    var i := DecisionAt(rules);
    if k :| DecidesFirst(rules, k, o) {
      assert k == i;
      DecidesIff(rules[k], o);
    }
    if i < |rules| {
      assert DecidesFirst(rules, i, FirstExit(rules).value);
    }
  }

  /** The position of the first rule that decides, or the end. */
  lemma {:induction false} DecisionAt(rules: seq<Rule>) returns (i: nat)
    ensures i <= |rules|
    ensures forall j, o :: 0 <= j < i ==> !Decides(rules[j], o)
    ensures if i == |rules| then FirstExit(rules).None? else FirstExit(rules).Some? && FirstExit(rules) == Exit(rules[i])
    ensures i < |rules| ==> Decides(rules[i], FirstExit(rules).value)
  {
    i := 0;
    if rules != [] {
      forall o
        ensures Exit(rules[0]) == Some(o) <==> Decides(rules[0], o)
      {
        DecidesIff(rules[0], o);
      }
      if Exit(rules[0]).None? {
        i := DecisionAt(rules[1..]);
        assert forall j :: 0 < j < |rules| ==> rules[j] == rules[1..][j - 1];
        i := i + 1;
      }
    }
  }

  // ----- what each rule asks of the field -----

  /** The field must be there. */
  predicate Demands(r: Rule) {
    match r
    case Rule(RequiredTrue, false, true, _, _) => true
    case Rule(RemoveField, true, true, _, _) => true
    case Rule(OncePerTransaction(false), true, true, _, _) => true
    case _ => false
  }

  /** The field must not be there: it is removed, was sent before, or no remote start provided the id. */
  predicate WantsRemoval(r: Rule) {
    match r
    case Rule(RemoveField, false, true, _, _) => true
    case Rule(OncePerTransaction(false), false, true, _, _) => true
    case Rule(WasProvidedIn(true, None, _), false, true, _, _) => true
    case _ => false
  }

  /** An id that should have been provided and was not, other than by a remote start. */
  predicate LacksId(r: Rule) {
    match r
    case Rule(WasProvidedIn(false, None, _), false, true, _, _) => true
    case _ => false
  }

  /** The integers that a rule rules out: those of an active notEqual, and those between the bounds of a negated between. */
  predicate RulesOut(r: Rule, n: int) {
    match r
    case Rule(ValueNotEqual(items), false, true, _, _) => exists i :: 0 <= i < |items| && items[i] == Number(n)
    case Rule(ValueBetween(start, end), true, true, _, _) => start <= n && n <= end
    case _ => false
  }

  lemma AsksIff(rules: seq<Rule>, p: Rule -> bool, q: Rule -> bool)
    requires forall i :: 0 <= i < |rules| ==> (rules[i].hit && p(rules[i]) <==> q(rules[i]))
    ensures AnyHit(rules, p) <==> Any(rules, q)
  {
  }

  lemma FlagsMean(rules: seq<Rule>)
    ensures AnyHit(rules, Requires) <==> Any(rules, Demands)
    ensures AnyHit(rules, Removes) <==> Any(rules, WantsRemoval)
    ensures AnyHit(rules, StandsBy) <==> Any(rules, LacksId)
  {
    AsksIff(rules, Requires, Demands);
    AsksIff(rules, Removes, WantsRemoval);
    AsksIff(rules, StandsBy, LacksId);
  }

  lemma ExcludesMeans(rules: seq<Rule>, n: int)
    ensures Excludes(rules, n) <==> exists i :: 0 <= i < |rules| && RulesOut(rules[i], n)
  {
    forall i | 0 <= i < |rules|
      ensures rules[i].hit && ExcludedBy(rules[i], n) <==> RulesOut(rules[i], n)
    {
    }
  }

  // ----- how a call ends -----

  /** What generate_integer_value is proved to return. */
  ghost predicate IsResult(rules: seq<Rule>, force: bool, skip: bool, pick: nat, draws: seq<nat>, r: Outcome) {
    if FirstExit(rules).Some? then r == FirstExit(rules).value else Ends(rules, force, skip, pick, draws, r)
  }

  /**
   The field is left out exactly by a negated requirement that decides first, or, when no rule is negated and no id is
   lacking, by the coin if nothing demands the field or by a rule that wants it removed.
   */
  lemma EmptyIff(rules: seq<Rule>, force: bool, skip: bool, pick: nat, draws: seq<nat>, r: Outcome)
    requires IsResult(rules, force, skip, pick, draws, r)
    ensures r == EmptyValue <==>
            || (exists i :: DecidesFirst(rules, i, EmptyValue))
            || (&& NoneDecides(rules) && NoneNegated(rules) && !Any(rules, LacksId)
                && ((skip && !force && !Any(rules, Demands)) || Any(rules, WantsRemoval)))
  {
    EarlyIff(rules, EmptyValue);
    FlagsMean(rules);
  }

  /** A field that is required and not to be removed, with no rule negated, is never left out. */
  lemma RequiredIsThere(rules: seq<Rule>, force: bool, skip: bool, pick: nat, draws: seq<nat>, r: Outcome, i: nat)
    requires IsResult(rules, force, skip, pick, draws, r) && NoneNegated(rules) && !Any(rules, WantsRemoval)
    requires force || (i < |rules| && rules[i].hit && rules[i].kind == RequiredTrue)
    ensures r != EmptyValue
  {
    EmptyIff(rules, force, skip, pick, draws, r);
    assert !force ==> Demands(rules[i]);
    assert forall k :: !DecidesFirst(rules, k, EmptyValue);
  }

  /** A value of another type comes exactly from a negated type rule that decides first. */
  lemma OtherTypeIff(rules: seq<Rule>, force: bool, skip: bool, pick: nat, draws: seq<nat>, r: Outcome)
    requires IsResult(rules, force, skip, pick, draws, r)
    ensures r == OtherType <==> exists i :: DecidesFirst(rules, i, OtherType)
  {
    EarlyIff(rules, OtherType);
  }

  /** An exception is raised exactly by a rule that decides so first, for a lacking id, or by an empty interval. */
  lemma AbortedIff(rules: seq<Rule>, force: bool, skip: bool, pick: nat, draws: seq<nat>, r: Outcome)
    requires IsResult(rules, force, skip, pick, draws, r)
    ensures r == Aborted <==>
            || (exists i :: DecidesFirst(rules, i, Aborted))
            || (&& NoneDecides(rules)
                && (|| Any(rules, LacksId)
                    || (r != EmptyValue && Offers(rules) == [] && MergedMax(rules).size < MergedMin(rules).size)))
  {
    EarlyIff(rules, Aborted);
    FlagsMean(rules);
  }

  /** A drawn integer is ruled out by no rule. */
  lemma DrawnIsAllowed(rules: seq<Rule>, force: bool, skip: bool, pick: nat, draws: seq<nat>, n: int)
    requires IsResult(rules, force, skip, pick, draws, Drawn(n))
    ensures forall i :: 0 <= i < |rules| ==> !RulesOut(rules[i], n)
  {
    ExcludesMeans(rules, n);
  }

  /** An id that must not have been provided is taken far above the last one that was. */
  lemma UnprovidedIsFar(rules: seq<Rule>, k: nat, n: int)
    requires OneNegated(rules) && k < |rules| && rules[k].negated && rules[k].hit && rules[k].kind.WasProvidedIn?
    requires MergedMin(rules).size <= n <= MergedMax(rules).size
    ensures 1000000 <= n - rules[k].kind.lastRequestId <= 1000200
  {
    ForcedMinDecides(rules, k);
    ForcedMaxDecides(rules, k);
  }

  /** Where a value that breaks a negated size rule is drawn from; an open end is left to the other rules. */
  lemma NegatedInterval(rules: seq<Rule>, k: nat)
    requires OneNegated(rules) && k < |rules| && rules[k].negated && rules[k].hit
    ensures var lo, hi := MergedMin(rules).size, MergedMax(rules).size;
            match rules[k].kind
            case ValueGe(v) => hi == v - 1
            case ValueGt(v) => lo == v - 100 && hi == v
            case MaximumEqual(v) => lo == v + 1 && hi == v + 500
            case BitEqual(b) =>
              if rules[k].coin then lo == Pow2(b) && hi == 10 * Pow2(b) else lo == -10 * Pow2(b) && hi == -Pow2(b) - 1
            case _ => true
  {
    if MinRequest(rules[k]).Some? {
      ForcedMinDecides(rules, k);
    }
    if MaxRequest(rules[k]).Some? {
      ForcedMaxDecides(rules, k);
    }
  }
}
