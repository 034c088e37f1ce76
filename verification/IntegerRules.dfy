/** generate_integer_value: merging an integer field's rules and drawing a value. */
module IntegerRules {
  import opened Wrappers
  import opened Bounds

  /** A value of a notEqual rule: a number, a string that int() parses, or one that it rejects. */
  datatype Item = Number(n: int) | Digits(n: int) | Word(text: string)

  /** The kinds of constraint that the generator distinguishes, with the values it parses from them. */
  datatype Kind =
    | TypeInteger
    | WasProvidedIn(byRemoteStart: bool, provided: Option<int>, lastRequestId: int)
    | RequiredTrue
    | ValueGe(v: int)
    | ValueGt(v: int)
    | MaximumEqual(v: int)
    | BitEqual(bits: nat)  // of one bit more than written here, so that the shift is never negative
    | ValueBetween(start: int, end: int)
    | ValueNotEqual(items: seq<Item>)
    | NotLeadingZeros
    | PrefixNotPlus
    | RemoveField
    | OncePerTransaction(firstEvent: bool)
    | NoEffect       // handled, but without consequence for the value
    | Unsupported    // no case of its own: ignored when active, refused when negated

  /**
   A rule as one call of the generator meets it: whether it is the negated rule, whether its conditions
   are hit, and the coin and the choice that are drawn for it.
   */
  datatype Rule = Rule(kind: Kind, negated: bool, hit: bool, coin: bool, choice: nat)

  const INTEGER_MIN := -0x8000_0000_0000_0000
  const INTEGER_MAX := 0x7FFF_FFFF_FFFF_FFFF

  function Pow2(n: nat): (p: int)
    ensures p >= 1
  {
    if n == 0 then 1 else 2 * Pow2(n - 1)
  }

  // ----- what each rule asks of the bounds -----

  function MinRequest(r: Rule): Option<Request> {
    if !r.hit then None
    else
      match r.kind
      case ValueGe(v) => if r.negated then None else Some(Bound(v, false))
      case ValueGt(v) => Some(if r.negated then Bound(v - 100, true) else Bound(v + 1, false))
      case MaximumEqual(v) => if r.negated then Some(Bound(v + 1, true)) else None
      case BitEqual(b) =>
        Some(if !r.negated then Bound(-Pow2(b), false)
             else if r.coin then Bound(Pow2(b), true) else Bound(-Pow2(b) * 10, true))
      case ValueBetween(start, end) => if r.negated then None else Some(Bound(start, false))
      case WasProvidedIn(_, _, id) => if r.negated then Some(Bound(id + 1000000, true)) else None
      case _ => None
  }

  function MaxRequest(r: Rule): Option<Request> {
    if !r.hit then None
    else
      match r.kind
      case ValueGe(v) => if r.negated then Some(Bound(v - 1, true)) else None
      case ValueGt(v) => if r.negated then Some(Bound(v, true)) else None
      case MaximumEqual(v) => Some(if r.negated then Bound(v + 500, true) else Bound(v, false))
      case BitEqual(b) =>
        Some(if !r.negated then Bound(Pow2(b) - 1, false)
             else if r.coin then Bound(Pow2(b) * 10, true) else Bound(-Pow2(b) - 1, true))
      case ValueBetween(start, end) => if r.negated then None else Some(Bound(end, false))
      case WasProvidedIn(_, _, id) => if r.negated then Some(Bound(id + 1000200, true)) else None
      case _ => None
  }

  function MergedMin(rules: seq<Rule>): Bound {
    MergeMin(Bound(INTEGER_MIN, false), Requests(rules, MinRequest))
  }

  function MergedMax(rules: seq<Rule>): Bound {
    MergeMax(Bound(INTEGER_MAX, false), Requests(rules, MaxRequest))
  }

  // ----- what a rule means for an integer -----

  /** Whether an integer obeys a bound; other kinds of rule say nothing about its size. */
  predicate Obeys(n: int, k: Kind) {
    match k
    case ValueGe(v) => n >= v
    case ValueGt(v) => n > v
    case MaximumEqual(v) => n <= v
    case BitEqual(b) => -Pow2(b) <= n < Pow2(b)
    case ValueBetween(start, end) => start <= n <= end
    case _ => true
  }

  predicate IsSize(k: Kind) {
    k.ValueGe? || k.ValueGt? || k.MaximumEqual? || k.BitEqual?
  }

  ghost predicate NoneNegated(rules: seq<Rule>) {
    forall i :: 0 <= i < |rules| ==> !rules[i].negated
  }

  predicate IsNegated(r: Rule) {
    r.negated
  }

  ghost predicate OneNegated(rules: seq<Rule>) {
    AtMostOne(rules, IsNegated)
  }

  lemma AskersForceOnlyWhenNegated()
    ensures ForcesOnly(MinRequest, IsNegated) && ForcesOnly(MaxRequest, IsNegated)
  {
  }

  /** The merged interval is the same for every order of the rules. */
  lemma IntervalIsOrderFree(rules: seq<Rule>, rules': seq<Rule>)
    requires multiset(rules) == multiset(rules') && OneNegated(rules) && OneNegated(rules')
    ensures MergedMin(rules) == MergedMin(rules') && MergedMax(rules) == MergedMax(rules')
  {
    AskersForceOnlyWhenNegated();
    SameRules(rules, rules', MinRequest, IsNegated);
    SameRules(rules, rules', MaxRequest, IsNegated);
    MinIsOrderFree(Bound(INTEGER_MIN, false), Requests(rules, MinRequest), Requests(rules', MinRequest));
    MaxIsOrderFree(Bound(INTEGER_MAX, false), Requests(rules, MaxRequest), Requests(rules', MaxRequest));
  }

  // ----- soundness and completeness of the interval -----

  /** Without a negated rule, the interval holds exactly the 64-bit integers that obey every applicable rule. */
  lemma IntervalIffObeys(rules: seq<Rule>, n: int)
    requires NoneNegated(rules)
    ensures MergedMin(rules).size <= n <= MergedMax(rules).size <==>
            && INTEGER_MIN <= n <= INTEGER_MAX
            && forall i :: 0 <= i < |rules| && rules[i].hit ==> Obeys(n, rules[i].kind)
  {
    LowerIff(rules, n);
    UpperIff(rules, n);
    assert forall i :: 0 <= i < |rules| && rules[i].hit ==>
      (Obeys(n, rules[i].kind) <==>
       (MinRequest(rules[i]).Some? ==> MinRequest(rules[i]).value.size <= n)
       && (MaxRequest(rules[i]).Some? ==> n <= MaxRequest(rules[i]).value.size));
  }

  lemma LowerIff(rules: seq<Rule>, n: int)
    requires NoneNegated(rules)
    ensures MergedMin(rules).size <= n <==>
            INTEGER_MIN <= n
            && forall i :: 0 <= i < |rules| && MinRequest(rules[i]).Some? ==> MinRequest(rules[i]).value.size <= n
  {
    var rs := Requests(rules, MinRequest);
    AskersForceOnlyWhenNegated();
    RequestsForceOnce(rules, MinRequest, IsNegated);
    MergeMinSpec(Bound(INTEGER_MIN, false), rs);
    var m := MergedMin(rules);
    RequestsSpec(rules, MinRequest, m);
    forall i | 0 <= i < |rules| && MinRequest(rules[i]).Some?
      ensures MinRequest(rules[i]).value in rs
    {
      RequestsSpec(rules, MinRequest, MinRequest(rules[i]).value);
    }
  }

  lemma UpperIff(rules: seq<Rule>, n: int)
    requires NoneNegated(rules)
    ensures n <= MergedMax(rules).size <==>
            n <= INTEGER_MAX
            && forall i :: 0 <= i < |rules| && MaxRequest(rules[i]).Some? ==> n <= MaxRequest(rules[i]).value.size
  {
    var rs := Requests(rules, MaxRequest);
    AskersForceOnlyWhenNegated();
    RequestsForceOnce(rules, MaxRequest, IsNegated);
    MergeMaxSpec(Bound(INTEGER_MAX, false), rs);
    var m := MergedMax(rules);
    RequestsSpec(rules, MaxRequest, m);
    forall i | 0 <= i < |rules| && MaxRequest(rules[i]).Some?
      ensures MaxRequest(rules[i]).value in rs
    {
      RequestsSpec(rules, MaxRequest, MaxRequest(rules[i]).value);
    }
  }

  /** With one negated size rule, every integer in the interval breaks that rule, whatever the others ask. */
  lemma IntervalBreaksNegated(rules: seq<Rule>, k: nat, n: int)
    requires OneNegated(rules) && k < |rules| && rules[k].negated && rules[k].hit && IsSize(rules[k].kind)
    requires MergedMin(rules).size <= n <= MergedMax(rules).size
    ensures !Obeys(n, rules[k].kind)
  {
    if MinRequest(rules[k]).Some? {
      ForcedMinDecides(rules, k);
    }
    ForcedMaxDecides(rules, k);
  }

  lemma ForcedMinDecides(rules: seq<Rule>, k: nat)
    requires OneNegated(rules) && k < |rules| && rules[k].negated && MinRequest(rules[k]).Some?
    ensures MergedMin(rules) == MinRequest(rules[k]).value
  {
    var rs, q := Requests(rules, MinRequest), MinRequest(rules[k]).value;
    AskersForceOnlyWhenNegated();
    RequestsForceOnce(rules, MinRequest, IsNegated);
    RequestsSpec(rules, MinRequest, q);
    MergeMinSpec(Bound(INTEGER_MIN, false), rs);
    assert HasForced(rs);
    SameForced(rs, rs, q, MergedMin(rules));
  }

  lemma ForcedMaxDecides(rules: seq<Rule>, k: nat)
    requires OneNegated(rules) && k < |rules| && rules[k].negated && MaxRequest(rules[k]).Some?
    ensures MergedMax(rules) == MaxRequest(rules[k]).value
  {
    var rs, q := Requests(rules, MaxRequest), MaxRequest(rules[k]).value;
    AskersForceOnlyWhenNegated();
    RequestsForceOnce(rules, MaxRequest, IsNegated);
    RequestsSpec(rules, MaxRequest, q);
    MergeMaxSpec(Bound(INTEGER_MAX, false), rs);
    assert HasForced(rs);
    SameForced(rs, rs, q, MergedMax(rules));
  }

  // ----- the program -----

  /** A drawn integer, one chosen from the enum list or by a negated notEqual rule, or no integer. */
  datatype Outcome =
    | Drawn(n: int)
    | Chosen(n: int)
    | EmptyValue
    | OtherType
    | Aborted    // an exception
    | Undecided  // the supplied draws are used up and all were excluded

  predicate IsInteger(o: Outcome) {
    o.Drawn? || o.Chosen?
  }

  /** The negated rules that end the loop at once, and how. */
  function Exit(r: Rule): Option<Outcome> {
    if !r.hit || !r.negated then None
    else
      match r.kind
      case TypeInteger => Some(OtherType)
      case RequiredTrue => Some(EmptyValue)
      case NotLeadingZeros => Some(Aborted)
      case PrefixNotPlus => Some(Aborted)
      case Unsupported => Some(Aborted)
      case OncePerTransaction(first) => if first then Some(Aborted) else None
      case ValueNotEqual(items) =>
        Some(if items == [] || items[r.choice % |items|].Word? then Aborted
             else Chosen(items[r.choice % |items|].n))
      case _ => None
  }

  /** GenerateIntegerValueConfig */
  class Config {
    const min: MinConstraint
    const max: MaxConstraint
    var required: bool
    var isDetermineProperty: bool
    var enumList: seq<Option<int>>  // None is the marker for an empty value
    var exceptList: seq<Item>
    var standBy: bool               // an exception waits until the loop has ended

    constructor ()
      ensures fresh(min) && fresh(max)
      ensures min.size == INTEGER_MIN && max.size == INTEGER_MAX && !min.force && !max.force
      ensures !required && !isDetermineProperty && enumList == [] && exceptList == [] && !standBy
      ensures ReflectsBounds([]) && ReflectsLists([]) && ReflectsEntries([])
    {
      min := new MinConstraint(INTEGER_MIN, false);
      max := new MaxConstraint(INTEGER_MAX, false);
      required, isDetermineProperty, enumList, exceptList, standBy := false, false, [], [], false;
    }

    /** The two bounds are the merged requests of the rules. */
    ghost predicate ReflectsBounds(rules: seq<Rule>)
      reads min, max
    {
      && Bound(min.size, min.force) == MergedMin(rules)
      && Bound(max.size, max.force) == MergedMax(rules)
    }

    /** The lists and flags are what the rules with hit conditions put there. */
    ghost predicate ReflectsLists(rules: seq<Rule>)
      reads this
    {
      && (forall n :: Number(n) in exceptList <==> Excludes(rules, n))
      && (required <==> AnyHit(rules, Requires))
      && (standBy <==> AnyHit(rules, StandsBy))
    }

    /** The enum list holds what the rules put there, and the flag tells whether one is negated. */
    ghost predicate ReflectsEntries(rules: seq<Rule>)
      reads this
    {
      enumList == Entries(rules) && isDetermineProperty == Any(rules, IsNegated)
    }

    /** One pass of the loop: what a rule does once its conditions have been looked at. */
    method Apply(r: Rule, ghost before: seq<Rule>)
      requires ReflectsBounds(before) && ReflectsLists(before) && ReflectsEntries(before)
      modifies this, min, max
      ensures ReflectsBounds(before + [r]) && ReflectsLists(before + [r]) && ReflectsEntries(before + [r])
    {
      EntriesOneMore(before, r);
      AnyOneMore(before, r, IsNegated);
      MergeBounds(r, before);
      MergeLists(r, before);
      if r.negated {
        isDetermineProperty := true;
      }
    }

    method MergeBounds(r: Rule, ghost before: seq<Rule>)
      requires ReflectsBounds(before)
      modifies min, max
      ensures ReflectsBounds(before + [r])
    {
      BoundsOneMore(before, r);
      if r.hit {
        ApplyBounds(r);
      }
    }

    method MergeLists(r: Rule, ghost before: seq<Rule>)
      requires ReflectsLists(before)
      modifies this
      ensures ReflectsLists(before + [r])
      ensures enumList == if r.hit then old(enumList) + Enumerated(r) else old(enumList)
      ensures isDetermineProperty == old(isDetermineProperty)
    {
      ListsOneMore(before, r);
      if r.hit {
        ApplyLists(r);
      }
    }

    /** The effect of one rule whose conditions are hit, as far as the two bounds are concerned. */
    method ApplyBounds(r: Rule)
      requires r.hit
      modifies min, max
      ensures Bound(min.size, min.force) == if MinRequest(r).Some? then
                SetMin(old(Bound(min.size, min.force)), MinRequest(r).value) else old(Bound(min.size, min.force))
      ensures Bound(max.size, max.force) == if MaxRequest(r).Some? then
                SetMax(old(Bound(max.size, max.force)), MaxRequest(r).value) else old(Bound(max.size, max.force))
    {
      match r.kind {
        case ValueGe(v) =>
          if !r.negated { min.Set(v, false); } else { max.Set(v - 1, true); }
        case ValueGt(v) =>
          if !r.negated {
            min.Set(v + 1, false);
          } else {
            max.Set(v, true);
            min.Set(v - 100, true);
          }
        case MaximumEqual(v) =>
          if !r.negated {
            max.Set(v, false);
          } else {
            min.Set(v + 1, true);
            max.Set(v + 500, true);
          }
        case BitEqual(b) =>
          if !r.negated {
            min.Set(-Pow2(b), false);
            max.Set(Pow2(b) - 1, false);
          } else if r.coin {
            min.Set(Pow2(b), true);
            max.Set(Pow2(b) * 10, true);
          } else {
            min.Set(-Pow2(b) * 10, true);
            max.Set(-Pow2(b) - 1, true);
          }
        case ValueBetween(start, end) =>
          if !r.negated {
            min.Set(start, false);
            max.Set(end, false);
          }
        case WasProvidedIn(_, _, id) =>
          if r.negated {
            min.Set(id + 1000000, true);
            max.Set(id + 1000200, true);
          }
        case _ =>
      }
    }

    /** The effect of the same rule on the lists and flags. */
    method ApplyLists(r: Rule)
      requires r.hit
      modifies this
      ensures forall n :: Number(n) in exceptList <==> Number(n) in old(exceptList) || ExcludedBy(r, n)
      ensures enumList == old(enumList) + Enumerated(r)
      ensures required == (old(required) || Requires(r))
      ensures standBy == (old(standBy) || StandsBy(r))
      ensures isDetermineProperty == old(isDetermineProperty)
    {
      match r.kind {
        case WasProvidedIn(byRemoteStart, provided, _) =>
          if !r.negated {
            if provided.None? {
              if byRemoteStart {
                enumList := enumList + [None];
              } else {
                standBy := true;
              }
            } else {
              enumList := enumList + [provided];
            }
          }
        case RequiredTrue =>
          if !r.negated { required := true; }
        case ValueBetween(start, end) =>
          if r.negated { exceptList := exceptList + Range(start, end); }
        case RemoveField =>
          if !r.negated { enumList := enumList + [None]; } else { required := true; }
        case ValueNotEqual(items) =>
          if !r.negated { exceptList := exceptList + items; }
        case OncePerTransaction(first) =>
          if r.negated { required := !first || required; } else if !first { enumList := enumList + [None]; }
        case _ =>
      }
    }
  }

  function Range(start: int, end: int): (r: seq<Item>)
    ensures forall n :: Number(n) in r <==> start <= n <= end
    decreases end - start
  {
    if end < start then [] else Range(start, end - 1) + [Number(end)]
  }

  /** Whether a rule excludes an integer from being drawn; a number written as a string excludes nothing. */
  predicate ExcludedBy(r: Rule, n: int) {
    match r.kind
    case ValueBetween(start, end) => r.negated && start <= n <= end
    case ValueNotEqual(items) => !r.negated && Number(n) in items
    case _ => false
  }

  /** The entries that a rule adds to the enum list. */
  function Enumerated(r: Rule): seq<Option<int>> {
    if Removes(r) then [None]
    else if r.kind.WasProvidedIn? && !r.negated && r.kind.provided.Some? then [r.kind.provided]
    else []
  }

  /** All entries of the enum list, in the order of the rules. */
  function Entries(rules: seq<Rule>): seq<Option<int>> {
    if rules == [] then []
    else
      var last := rules[|rules| - 1];
      if last.hit then Entries(rules[..|rules| - 1]) + Enumerated(last) else Entries(rules[..|rules| - 1])
  }

  lemma EntriesOneMore(rules: seq<Rule>, r: Rule)
    ensures Entries(rules + [r]) == if r.hit then Entries(rules) + Enumerated(r) else Entries(rules)
  {
    assert (rules + [r])[..|rules|] == rules;
  }

  /** An entry was put there by a rule; the marker for an empty value by one that removes the field. */
  lemma {:induction false} EntriesSpec(rules: seq<Rule>, e: Option<int>)
    ensures e in Entries(rules) <==> exists i :: 0 <= i < |rules| && rules[i].hit && e in Enumerated(rules[i])
  {
    if rules != [] {
      var n := |rules| - 1;
      EntriesSpec(rules[..n], e);
      assert forall i :: 0 <= i < n ==> rules[..n][i] == rules[i];
      assert rules[n].hit && e in Enumerated(rules[n]) ==> e in Entries(rules);
    }
  }

  lemma MarkerIff(rules: seq<Rule>)
    ensures None in Entries(rules) <==> AnyHit(rules, Removes)
  {
    EntriesSpec(rules, None);
    assert forall r: Rule :: None in Enumerated(r) <==> Removes(r);
  }

  predicate Removes(r: Rule) {
    match r.kind
    case WasProvidedIn(byRemoteStart, provided, _) => !r.negated && provided.None? && byRemoteStart
    case RemoveField => !r.negated
    case OncePerTransaction(first) => !r.negated && !first
    case _ => false
  }

  predicate Requires(r: Rule) {
    match r.kind
    case RequiredTrue => !r.negated
    case RemoveField => r.negated
    case OncePerTransaction(first) => r.negated && !first
    case _ => false
  }

  predicate StandsBy(r: Rule) {
    r.kind.WasProvidedIn? && !r.negated && r.kind.provided.None? && !r.kind.byRemoteStart
  }

  predicate AnyHit(rules: seq<Rule>, p: Rule -> bool) {
    exists i :: 0 <= i < |rules| && rules[i].hit && p(rules[i])
  }

  predicate Excludes(rules: seq<Rule>, n: int) {
    exists i :: 0 <= i < |rules| && rules[i].hit && ExcludedBy(rules[i], n)
  }

  /** How the loop ends early, if it does. */
  function FirstExit(rules: seq<Rule>): (o: Option<Outcome>)
    ensures o.Some? ==> !o.value.Drawn?
  {
    if rules == [] then None
    else if Exit(rules[0]).Some? then Exit(rules[0])
    else FirstExit(rules[1..])
  }

  /** With at most one negated rule, that rule alone decides whether and how the loop ends early. */
  lemma {:induction false} FirstExitIff(rules: seq<Rule>, o: Outcome)
    requires OneNegated(rules)
    ensures FirstExit(rules) == Some(o) <==> exists i :: 0 <= i < |rules| && Exit(rules[i]) == Some(o)
  {
    if rules != [] {
      FirstExitIff(rules[1..], o);
      assert forall i :: 0 < i < |rules| ==> rules[i] == rules[1..][i - 1];
      if Exit(rules[0]).Some? {
        assert forall i :: 0 < i < |rules| ==> !IsNegated(rules[i]);
      }
    }
  }

  /** The loop over the rules. */
  method MergeRules(rules: seq<Rule>) returns (exit: Option<Outcome>, config: Config)
    ensures fresh(config) && fresh(config.min) && fresh(config.max)
    ensures exit == FirstExit(rules)
    ensures exit.None? ==> config.ReflectsBounds(rules) && config.ReflectsLists(rules) && config.ReflectsEntries(rules)
  {
    config := new Config();
    ghost var done := [];
    for i := 0 to |rules|
      invariant fresh(config) && fresh(config.min) && fresh(config.max)
      invariant FirstExit(rules) == FirstExit(rules[i..])
      invariant done == rules[..i]
      invariant config.ReflectsBounds(done) && config.ReflectsLists(done) && config.ReflectsEntries(done)
    {
      exit := Exit(rules[i]);
      if exit.Some? {
        return;
      }
      assert rules[i..][1..] == rules[i + 1..];
      config.Apply(rules[i], done);
      done := done + [rules[i]];
    }
    assert done == rules;
    exit := None;
  }

  lemma BoundsOneMore(rules: seq<Rule>, r: Rule)
    ensures MergedMin(rules + [r]) == if MinRequest(r).None? then MergedMin(rules)
                                      else SetMin(MergedMin(rules), MinRequest(r).value)
    ensures MergedMax(rules + [r]) == if MaxRequest(r).None? then MergedMax(rules)
                                      else SetMax(MergedMax(rules), MaxRequest(r).value)
  {
    SnocRequest(rules, r, MinRequest);
    SnocRequest(rules, r, MaxRequest);
  }

  lemma ListsOneMore(rules: seq<Rule>, r: Rule)
    ensures forall n :: Excludes(rules + [r], n) <==> Excludes(rules, n) || (r.hit && ExcludedBy(r, n))
    ensures AnyHit(rules + [r], Requires) <==> AnyHit(rules, Requires) || (r.hit && Requires(r))
    ensures AnyHit(rules + [r], StandsBy) <==> AnyHit(rules, StandsBy) || (r.hit && StandsBy(r))
  {
    var now := rules + [r];
    forall n
      ensures Excludes(now, n) <==> Excludes(rules, n) || (r.hit && ExcludedBy(r, n))
    {
      assert forall j :: 0 <= j < |rules| ==> now[j] == rules[j];
      assert now[|rules|] == r;
    }
    OneMoreHit(rules, r, Requires);
    OneMoreHit(rules, r, StandsBy);
  }

  lemma OneMoreHit(rules: seq<Rule>, r: Rule, p: Rule -> bool)
    ensures AnyHit(rules + [r], p) <==> AnyHit(rules, p) || (r.hit && p(r))
  {
    assert forall j :: 0 <= j < |rules| ==> (rules + [r])[j] == rules[j];
    assert (rules + [r])[|rules|] == r;
  }

  /** An optional field is left out when no rule is negated and the coin or a rule says so. */
  ghost predicate LeftOut(rules: seq<Rule>, forceRequired: bool, skip: bool) {
    NoneNegated(rules) && ((!forceRequired && !AnyHit(rules, Requires) && skip) || AnyHit(rules, Removes))
  }

  /** The ids provided earlier that the interval admits, in the order of the rules. */
  function Offers(rules: seq<Rule>): seq<int> {
    Filtered(Entries(rules), MergedMin(rules).size, MergedMax(rules).size)
  }

  predicate EmptyInterval(rules: seq<Rule>) {
    MergedMax(rules).size < MergedMin(rules).size
  }

  /** The integer that one call of randint yields from the interval. */
  function DrawnFrom(lo: int, hi: int, seed: nat): (n: int)
    requires lo <= hi
    ensures lo <= n <= hi
  {
    lo + seed % (hi - lo + 1)
  }

  /** The rules exclude every one of some draws. */
  ghost predicate DrawsExcluded(rules: seq<Rule>, lo: int, hi: int, draws: seq<nat>)
    requires lo <= hi
  {
    forall j :: 0 <= j < |draws| ==> Excludes(rules, DrawnFrom(lo, hi, draws[j]))
  }

  /** How a call ends once the loop over the rules has, and with which integer. */
  ghost predicate Ends(rules: seq<Rule>, forceRequired: bool, skip: bool, pick: nat, draws: seq<nat>, r: Outcome) {
    var stands, left := AnyHit(rules, StandsBy), LeftOut(rules, forceRequired, skip);
    var offers, lo, hi := Offers(rules), MergedMin(rules).size, MergedMax(rules).size;
    && !r.OtherType?
    && (r.EmptyValue? <==> !stands && left)
    && (r.Aborted? <==> stands || (!left && offers == [] && hi < lo))
    && (r.Chosen? <==> !stands && !left && offers != [])
    && (r.Chosen? ==> r.n == offers[pick % |offers|])
    && (r.Drawn? ==> lo <= r.n <= hi && !Excludes(rules, r.n)
                     && exists i :: 0 <= i < |draws| && r.n == DrawnFrom(lo, hi, draws[i])
                                    && DrawsExcluded(rules, lo, hi, draws[..i]))
    && (r.Undecided? ==> lo <= hi && DrawsExcluded(rules, lo, hi, draws))
  }

  /**
   generate_integer_value. `skip` is the coin that may leave an optional field out, `pick` the choice from the
   enum list, and `draws` the results of randint, each taken modulo the width of the interval.
   */
  method GenerateInteger(rules: seq<Rule>, forceRequired: bool, skip: bool, pick: nat, draws: seq<nat>)
    returns (r: Outcome)
    ensures FirstExit(rules).Some? ==> r == FirstExit(rules).value
    ensures FirstExit(rules).None? ==> Ends(rules, forceRequired, skip, pick, draws, r)
    ensures IsInteger(r) && NoneNegated(rules) ==> ObeysAll(r.n, rules)
    ensures IsInteger(r) && OneNegated(rules) ==> BreaksNegated(r.n, rules)
    ensures IsInteger(r) && OneNegated(rules) && FirstExit(rules).Some? ==> ForbiddenByNegated(rules, r.n)
  {
    var exit, config := MergeRules(rules);
    if exit.Some? {
      if OneNegated(rules) && IsInteger(exit.value) {
        ExitLaws(rules);
      }
      return exit.value;
    }
    r := Finish(rules, config, forceRequired, skip, pick, draws);
    if IsInteger(r) && OneNegated(rules) {
      IntegerSpeaks(rules, forceRequired, skip, pick, draws, r);
    }
  }

  /** What an integer that ends the loop does to the rules. */
  lemma ExitLaws(rules: seq<Rule>)
    requires OneNegated(rules) && FirstExit(rules).Some? && IsInteger(FirstExit(rules).value)
    ensures !NoneNegated(rules) && BreaksNegated(FirstExit(rules).value.n, rules)
    ensures ForbiddenByNegated(rules, FirstExit(rules).value.n)
  {
    ExitSpeaks(rules);
    ExitIsForbidden(rules);
  }

  /** The part after the loop over the rules. */
  method Finish(ghost rules: seq<Rule>, config: Config, forceRequired: bool, skip: bool, pick: nat, draws: seq<nat>)
    returns (r: Outcome)
    requires config.ReflectsBounds(rules) && config.ReflectsLists(rules) && config.ReflectsEntries(rules)
    modifies config
    ensures Ends(rules, forceRequired, skip, pick, draws, r)
  {
    if forceRequired {
      config.required := true;
    }
    MarkerIff(rules);
    r := Choose(config, skip, pick, draws);
    if r.Drawn? {
      ghost var i :| 0 <= i < |draws| && r.n == DrawnFrom(config.min.size, config.max.size, draws[i])
        && AllExcluded(config.exceptList, config.min.size, config.max.size, draws[..i]);
      ListedIsExcluded(rules, config.exceptList, config.min.size, config.max.size, draws[..i]);
    } else if r.Undecided? {
      ListedIsExcluded(rules, config.exceptList, config.min.size, config.max.size, draws);
    }
  }

  lemma ListedIsExcluded(rules: seq<Rule>, exceptList: seq<Item>, lo: int, hi: int, draws: seq<nat>)
    requires lo <= hi && AllExcluded(exceptList, lo, hi, draws) && forall n :: Number(n) in exceptList <==> Excludes(rules, n)
    ensures DrawsExcluded(rules, lo, hi, draws)
  {
  }

  /** The choice of a value once the rules have been merged. */
  method Choose(config: Config, skip: bool, pick: nat, draws: seq<nat>) returns (r: Outcome)
    ensures var left := !config.isDetermineProperty && ((!config.required && skip) || None in config.enumList);
            var offers := Filtered(config.enumList, config.min.size, config.max.size);
            && !r.OtherType?
            && (r.EmptyValue? <==> !config.standBy && left)
            && (r.Aborted? <==> config.standBy || (!left && offers == [] && config.max.size < config.min.size))
            && (r.Chosen? <==> !config.standBy && !left && offers != [])
            && (r.Chosen? ==> r.n == offers[pick % |offers|])
    ensures r.Drawn? ==> config.min.size <= r.n <= config.max.size && Number(r.n) !in config.exceptList
                         && exists i :: 0 <= i < |draws| && r.n == DrawnFrom(config.min.size, config.max.size, draws[i])
                                        && AllExcluded(config.exceptList, config.min.size, config.max.size, draws[..i])
    ensures r.Undecided? ==> config.min.size <= config.max.size
                             && AllExcluded(config.exceptList, config.min.size, config.max.size, draws)
  {
    if config.standBy {
      return Aborted;
    }
    if !config.required && skip && !config.isDetermineProperty {
      return EmptyValue;
    }
    var min, max := config.min.size, config.max.size;
    if |config.enumList| > 0 {
      if !config.isDetermineProperty && None in config.enumList {
        return EmptyValue;
      }
      var filtered := Filtered(config.enumList, min, max);
      if filtered != [] {
        return Chosen(filtered[pick % |filtered|]);
      }
    }
    if max < min {
      return Aborted;
    }
    for i := 0 to |draws|
      invariant AllExcluded(config.exceptList, min, max, draws[..i])
    {
      var result := DrawnFrom(min, max, draws[i]);
      if Number(result) !in config.exceptList {
        return Drawn(result);
      }
    }
    assert draws[..|draws|] == draws;
    return Undecided;
  }

  /** Every one of some draws is excluded. */
  ghost predicate AllExcluded(exceptList: seq<Item>, lo: int, hi: int, draws: seq<nat>)
    requires lo <= hi
  {
    forall j :: 0 <= j < |draws| ==> Number(DrawnFrom(lo, hi, draws[j])) in exceptList
  }

  function Filtered(list: seq<Option<int>>, min: int, max: int): (r: seq<int>)
    ensures forall n :: n in r <==> Some(n) in list && min <= n <= max
  {
    if list == [] then []
    else (if list[0].Some? && min <= list[0].value <= max then [list[0].value] else []) + Filtered(list[1..], min, max)
  }

  // ----- what a returned integer does to the rules -----

  /** A returned integer obeys every applicable bound when none is negated, and breaks the negated size rule. */
  lemma IntegerSpeaks(rules: seq<Rule>, forceRequired: bool, skip: bool, pick: nat, draws: seq<nat>, r: Outcome)
    requires OneNegated(rules) && FirstExit(rules).None? && Ends(rules, forceRequired, skip, pick, draws, r) && IsInteger(r)
    ensures NoneNegated(rules) ==> ObeysAll(r.n, rules)
    ensures BreaksNegated(r.n, rules)
    ensures r.Drawn? ==> forall i :: 0 <= i < |rules| && rules[i].hit ==> !ExcludedBy(rules[i], r.n)
  {
    if r.Chosen? {
      assert r.n in Offers(rules);
    }
    IntervalSpeaks(rules, r.n);
  }

  /** The integer is a value of the negated notEqual rule, written as a number or as a string. */
  ghost predicate ForbiddenByNegated(rules: seq<Rule>, n: int) {
    exists i :: 0 <= i < |rules| && rules[i].hit && rules[i].negated && rules[i].kind.ValueNotEqual?
                && (Number(n) in rules[i].kind.items || Digits(n) in rules[i].kind.items)
  }

  /** An integer that ends the loop is one that the negated notEqual rule forbids. */
  lemma ExitIsForbidden(rules: seq<Rule>)
    requires OneNegated(rules) && FirstExit(rules).Some? && IsInteger(FirstExit(rules).value)
    ensures ForbiddenByNegated(rules, FirstExit(rules).value.n)
  {
    FirstExitIff(rules, FirstExit(rules).value);
    var i :| 0 <= i < |rules| && Exit(rules[i]) == FirstExit(rules);
    var items := rules[i].kind.items;
    var item := items[rules[i].choice % |items|];
    assert item in items && (item == Number(FirstExit(rules).value.n) || item == Digits(FirstExit(rules).value.n));
  }

  /** Without a negated rule the interval is empty exactly when no integer obeys all rules. */
  lemma EmptyIntervalIff(rules: seq<Rule>)
    requires NoneNegated(rules)
    ensures EmptyInterval(rules) <==> forall n :: INTEGER_MIN <= n <= INTEGER_MAX ==> !ObeysAll(n, rules)
  {
    IntervalIffObeys(rules, MergedMin(rules).size);
    if !EmptyInterval(rules) {
      assert ObeysAll(MergedMin(rules).size, rules);
    }
    forall n | INTEGER_MIN <= n <= INTEGER_MAX && ObeysAll(n, rules)
      ensures !EmptyInterval(rules)
    {
      IntervalIffObeys(rules, n);
    }
  }

  /** The negated size rule, if there is one, is broken. */
  ghost predicate BreaksNegated(n: int, rules: seq<Rule>) {
    forall i :: 0 <= i < |rules| && rules[i].hit && rules[i].negated && IsSize(rules[i].kind) ==> !Obeys(n, rules[i].kind)
  }

  ghost predicate ObeysAll(n: int, rules: seq<Rule>) {
    forall i :: 0 <= i < |rules| && rules[i].hit ==> Obeys(n, rules[i].kind)
  }

  /** The seed can lead to an integer that is not excluded. */
  ghost predicate Succeeds(rules: seq<Rule>, seed: nat) {
    !EmptyInterval(rules) && !Excludes(rules, DrawnFrom(MergedMin(rules).size, MergedMax(rules).size, seed))
  }

  /** An integer of the interval that is not excluded. */
  ghost predicate Free(rules: seq<Rule>, n: int) {
    MergedMin(rules).size <= n <= MergedMax(rules).size && !Excludes(rules, n)
  }

  /** The loop that redraws can end exactly when some integer of the interval is not excluded. */
  lemma RedrawEndsIff(rules: seq<Rule>)
    ensures (exists seed: nat :: Succeeds(rules, seed)) <==> (exists n :: Free(rules, n))
  {
    forall seed: nat | Succeeds(rules, seed)
      ensures Free(rules, DrawnFrom(MergedMin(rules).size, MergedMax(rules).size, seed))
    {
    }
    forall n | Free(rules, n)
      ensures Succeeds(rules, n - MergedMin(rules).size)
    {
      SmallRemainder(n - MergedMin(rules).size, MergedMax(rules).size - MergedMin(rules).size + 1);
    }
  }

  lemma SmallRemainder(a: nat, b: nat)
    requires a < b
    ensures a % b == a
  {
  }

  // ----- provided ids are not checked against exclusions -----

  /** What is chosen for a random number. */
  function ChosenFor(rules: seq<Rule>, pick: nat): int
    requires Offers(rules) != []
  {
    Offers(rules)[pick % |Offers(rules)|]
  }

  /** Whatever is picked respects every active notEqual and negated between, exactly when no offered id is excluded. */
  lemma ChosenRespectsIff(rules: seq<Rule>)
    requires Offers(rules) != []
    ensures (forall pick: nat :: !Excludes(rules, ChosenFor(rules, pick))) <==>
            forall n :: n in Offers(rules) ==> !Excludes(rules, n)
  {
    forall n | n in Offers(rules)
      ensures exists pick: nat :: ChosenFor(rules, pick) == n
    {
      var i: nat :| i < |Offers(rules)| && Offers(rules)[i] == n;
      SmallRemainder(i, |Offers(rules)|);
      assert ChosenFor(rules, i) == n;
    }
    forall pick: nat
      ensures ChosenFor(rules, pick) in Offers(rules)
    {
    }
  }

  /** Offered are exactly the ids that an applicable rule provides and the interval admits. */
  lemma OfferedIff(rules: seq<Rule>, n: int)
    ensures n in Offers(rules) <==>
            && MergedMin(rules).size <= n <= MergedMax(rules).size
            && exists i :: 0 <= i < |rules| && rules[i].hit && !rules[i].negated && rules[i].kind.WasProvidedIn?
                           && rules[i].kind.provided == Some(n)
  {
    EntriesSpec(rules, Some(n));
    assert forall r: Rule :: Some(n) in Enumerated(r) <==> !r.negated && r.kind.WasProvidedIn? && r.kind.provided == Some(n);
  }

  /** An active notEqual rule forbids the only provided id, and the id is offered all the same. */
  lemma ProvidedDefeatsNotEqual(n: int, last: int)
    requires INTEGER_MIN <= n <= INTEGER_MAX
    ensures var rules := [Rule(WasProvidedIn(false, Some(n), last), false, true, false, 0),
                          Rule(ValueNotEqual([Number(n)]), false, true, false, 0)];
            NoneNegated(rules) && FirstExit(rules).None? && n in Offers(rules) && Excludes(rules, n)
  {
    var rules := [Rule(WasProvidedIn(false, Some(n), last), false, true, false, 0),
                  Rule(ValueNotEqual([Number(n)]), false, true, false, 0)];
    assert rules[0].kind.provided == Some(n);
    assert [Number(n)][0] == Number(n) && ExcludedBy(rules[1], n);
    IntervalIffObeys(rules, n);
    OfferedIff(rules, n);
    NoExitOfPair(rules[0], rules[1]);
  }

  /** The same of a negated between rule: the id lies in the range that it should avoid. */
  lemma ProvidedDefeatsBetween(n: int, start: int, end: int, last: int)
    requires INTEGER_MIN <= n <= INTEGER_MAX && start <= n <= end
    ensures var rules := [Rule(WasProvidedIn(false, Some(n), last), false, true, false, 0),
                          Rule(ValueBetween(start, end), true, true, false, 0)];
            OneNegated(rules) && FirstExit(rules).None? && n in Offers(rules) && Obeys(n, rules[1].kind)
  {
    var rules := [Rule(WasProvidedIn(false, Some(n), last), false, true, false, 0),
                  Rule(ValueBetween(start, end), true, true, false, 0)];
    assert rules[0].kind.provided == Some(n);
    NoRequests(rules);
    OfferedIff(rules, n);
    NoExitOfPair(rules[0], rules[1]);
  }

  lemma NoExitOfPair(a: Rule, b: Rule)
    requires Exit(a).None? && Exit(b).None?
    ensures FirstExit([a, b]).None?
  {
    assert [a, b][1..] == [b] && [b][1..] == [];
    assert FirstExit([b]) == FirstExit([]);
  }

  lemma {:induction false} NoRequests(rules: seq<Rule>)
    requires forall i :: 0 <= i < |rules| ==> MinRequest(rules[i]).None? && MaxRequest(rules[i]).None?
    ensures MergedMin(rules).size == INTEGER_MIN && MergedMax(rules).size == INTEGER_MAX
    ensures Requests(rules, MinRequest) == [] && Requests(rules, MaxRequest) == []
  {
    if rules != [] {
      NoRequests(rules[..|rules| - 1]);
    }
  }

  /** What the interval's two theorems say of one integer in it. */
  lemma IntervalSpeaks(rules: seq<Rule>, n: int)
    requires MergedMin(rules).size <= n <= MergedMax(rules).size
    ensures NoneNegated(rules) ==> forall i :: 0 <= i < |rules| && rules[i].hit ==> Obeys(n, rules[i].kind)
    ensures OneNegated(rules) ==>
              forall i :: 0 <= i < |rules| && rules[i].hit && rules[i].negated && IsSize(rules[i].kind) ==>
                            !Obeys(n, rules[i].kind)
  {
    if NoneNegated(rules) {
      IntervalIffObeys(rules, n);
    }
    if OneNegated(rules) {
      forall i | 0 <= i < |rules| && rules[i].hit && rules[i].negated && IsSize(rules[i].kind)
        ensures !Obeys(n, rules[i].kind)
      {
        IntervalBreaksNegated(rules, i, n);
      }
    }
  }

  /** A rule that ends the loop is the negated one and is not about size. */
  lemma ExitSpeaks(rules: seq<Rule>)
    requires OneNegated(rules)
    ensures FirstExit(rules).Some? ==> !NoneNegated(rules)
    ensures FirstExit(rules).Some? ==>
              forall i :: 0 <= i < |rules| && rules[i].negated ==> !IsSize(rules[i].kind)
    ensures forall i :: 0 <= i < |rules| && Exit(rules[i]).Some? ==> FirstExit(rules) == Exit(rules[i])
  {
    forall i | 0 <= i < |rules| && Exit(rules[i]).Some?
      ensures FirstExit(rules) == Exit(rules[i])
    {
      FirstExitIff(rules, Exit(rules[i]).value);
    }
    if FirstExit(rules).Some? {
      FirstExitIff(rules, FirstExit(rules).value);
      var i :| 0 <= i < |rules| && Exit(rules[i]) == FirstExit(rules);
      assert IsNegated(rules[i]) && !IsSize(rules[i].kind);
      assert forall j :: 0 <= j < |rules| && j != i ==> !IsNegated(rules[j]);
    }
  }
}
