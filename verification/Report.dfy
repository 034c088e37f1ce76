/** What the validator's report is worth: how its counters, sets and lists add up. */
module Report {

  import opened Validator

  ghost predicate Known(r: Run) {
    KnownCategories(r.message.values)
  }

  ghost predicate AllKnown(runs: seq<Run>) {
    forall i :: 0 <= i < |runs| ==> Known(runs[i])
  }

  function Indicator(b: bool): nat {
    if b then 1 else 0
  }

  /** How many runs of a project have a property. */
  function Number(runs: seq<Run>, p: Project, q: Run -> bool): nat {
    if runs == [] then 0
    else Number(runs[..|runs| - 1], p, q) + Indicator(Of(runs[|runs| - 1], p) && q(runs[|runs| - 1]))
  }

  lemma {:induction false} NumberZeroIff(runs: seq<Run>, p: Project, q: Run -> bool)
    ensures Number(runs, p, q) == 0 <==> forall i :: 0 <= i < |runs| && Of(runs[i], p) ==> !q(runs[i])
  {
    if runs != [] {
      var n := |runs| - 1;
      NumberZeroIff(runs[..n], p, q);
      assert forall i :: 0 <= i < n ==> runs[..n][i] == runs[i];
    }
  }

  /** A run that negates a rule without a cause. */
  predicate Uncaused(r: Run) {
    NegationOf(r).Some? && Causeless(r)
  }

  predicate UncausedWrong(r: Run) {
    Uncaused(r) && !Correct(r)
  }

  predicate BothCauses(r: Run) {
    HasCause(r, Description) && HasCause(r, Structural) && !Correct(r)
  }

  predicate Any(r: Run) {
    true
  }

  lemma {:induction false} NegationIsKnown(values: seq<Value>)
    requires KnownCategories(values)
    ensures Negation(values).Some? ==> Negation(values).value.category.Some?
  {
    if values != [] && values[|values| - 1].isActive {
      NegationIsKnown(values[..|values| - 1]);
    }
  }

  /** A run has one category when it negates a rule, and otherwise none. */
  lemma OneCategory(r: Run)
    requires Known(r)
    ensures Indicator(HasCategory(r, DataTypeRule)) + Indicator(HasCategory(r, PresenceRule))
            + Indicator(HasCategory(r, ContentRule)) + Indicator(HasCategory(r, SizeRule))
            == Indicator(NegationOf(r).Some?)
  {
    NegationIsKnown(r.message.values);
    if NegationOf(r).Some? {
      match NegationOf(r).value.category.value
      case DataTypeRule =>
      case PresenceRule =>
      case ContentRule =>
      case SizeRule =>
    }
  }

  function Mismatches(runs: seq<Run>, p: Project): nat {
    Count(runs, p, WrongIn(DataTypeRule)) + Count(runs, p, WrongIn(PresenceRule))
    + Count(runs, p, WrongIn(ContentRule)) + Count(runs, p, WrongIn(SizeRule))
  }

  function Totals(runs: seq<Run>, p: Project): nat {
    Count(runs, p, Total(DataTypeRule)) + Count(runs, p, Total(PresenceRule))
    + Count(runs, p, Total(ContentRule)) + Count(runs, p, Total(SizeRule))
  }

  lemma CountLast(runs: seq<Run>, p: Project, c: Counter)
    requires runs != []
    ensures Count(runs, p, c) ==
            Count(runs[..|runs| - 1], p, c) + Indicator(Of(runs[|runs| - 1], p) && Counts(c, runs[|runs| - 1]))
  {
  }

  lemma MismatchesLast(runs: seq<Run>, p: Project)
    requires runs != [] && Known(runs[|runs| - 1])
    ensures var r := runs[|runs| - 1];
            Mismatches(runs, p) ==
            Mismatches(runs[..|runs| - 1], p) + Indicator(Of(r, p) && NegationOf(r).Some? && !Correct(r))
  {
    CountLast(runs, p, WrongIn(DataTypeRule));
    CountLast(runs, p, WrongIn(PresenceRule));
    CountLast(runs, p, WrongIn(ContentRule));
    CountLast(runs, p, WrongIn(SizeRule));
    OneCategory(runs[|runs| - 1]);
  }

  lemma TotalsLast(runs: seq<Run>, p: Project)
    requires runs != [] && Known(runs[|runs| - 1])
    ensures var r := runs[|runs| - 1];
            Totals(runs, p) == Totals(runs[..|runs| - 1], p) + Indicator(Of(r, p) && NegationOf(r).Some?)
  {
    CountLast(runs, p, Total(DataTypeRule));
    CountLast(runs, p, Total(PresenceRule));
    CountLast(runs, p, Total(ContentRule));
    CountLast(runs, p, Total(SizeRule));
    OneCategory(runs[|runs| - 1]);
  }

  lemma NumberLast(runs: seq<Run>, p: Project, q: Run -> bool)
    requires runs != []
    ensures Number(runs, p, q) ==
            Number(runs[..|runs| - 1], p, q) + Indicator(Of(runs[|runs| - 1], p) && q(runs[|runs| - 1]))
  {
  }

  lemma OneMismatch(r: Run)
    ensures Indicator(Counts(WrongValidate, r)) + Indicator(UncausedWrong(r)) ==
            Indicator(Counts(TrueMismatch, r)) + Indicator(NegationOf(r).Some? && !Correct(r))
  {
  }

  /** Every mismatch is a true mismatch or falls in one category; the ones without a cause are in both. */
  lemma {:induction false} WrongSplits(runs: seq<Run>, p: Project)
    requires AllKnown(runs)
    ensures Count(runs, p, WrongValidate) + Number(runs, p, UncausedWrong) ==
            Count(runs, p, TrueMismatch) + Mismatches(runs, p)
  {
    if runs != [] {
      WrongSplits(runs[..|runs| - 1], p);
      MismatchesLast(runs, p);
      CountLast(runs, p, WrongValidate);
      CountLast(runs, p, TrueMismatch);
      NumberLast(runs, p, UncausedWrong);
      OneMismatch(runs[|runs| - 1]);
    }
  }

  /** Valid seeds and runs without a cause are the same runs but for the negated rules that have none. */
  lemma {:induction false} SeedSplits(runs: seq<Run>, p: Project)
    ensures Count(runs, p, ValidSeed) + Number(runs, p, Uncaused) ==
            Count(runs, p, TrueValidate) + Count(runs, p, TrueMismatch)
  {
    if runs != [] {
      SeedSplits(runs[..|runs| - 1], p);
      CountLast(runs, p, ValidSeed);
      CountLast(runs, p, TrueValidate);
      CountLast(runs, p, TrueMismatch);
    }
  }

  /** Mismatches by kind of cause: those with both kinds are counted twice. */
  lemma {:induction false} CausesSplit(runs: seq<Run>, p: Project)
    ensures Count(runs, p, WrongValidate) + Number(runs, p, BothCauses) ==
            Count(runs, p, TrueMismatch) + Count(runs, p, WrongDescription) + Count(runs, p, WrongStructural)
  {
    if runs != [] {
      CausesSplit(runs[..|runs| - 1], p);
      CountLast(runs, p, WrongValidate);
      CountLast(runs, p, TrueMismatch);
      CountLast(runs, p, WrongDescription);
      CountLast(runs, p, WrongStructural);
    }
  }

  /** Every run is a valid seed or has one category. */
  lemma {:induction false} TotalsSplit(runs: seq<Run>, p: Project)
    requires AllKnown(runs)
    ensures Number(runs, p, Any) == Count(runs, p, ValidSeed) + Totals(runs, p)
  {
    if runs != [] {
      TotalsSplit(runs[..|runs| - 1], p);
      TotalsLast(runs, p);
      CountLast(runs, p, ValidSeed);
    }
  }

  /** Every timeout is one of the two kinds. */
  lemma {:induction false} TimeoutsSplit(runs: seq<Run>, p: Project)
    ensures Count(runs, p, TimeoutTrigger) == Count(runs, p, ValidTimeout) + Count(runs, p, InvalidTimeout)
  {
    if runs != [] {
      TimeoutsSplit(runs[..|runs| - 1], p);
      CountLast(runs, p, TimeoutTrigger);
      CountLast(runs, p, ValidTimeout);
      CountLast(runs, p, InvalidTimeout);
    }
  }

  ghost predicate NoneOf(runs: seq<Run>, p: Project, q: Run -> bool) {
    forall i :: 0 <= i < |runs| && Of(runs[i], p) ==> !q(runs[i])
  }

  /** The two sums of the report agree exactly when no negated rule lacks a cause (a mismatching one, for the first). */
  lemma ReportAddsUpIff(runs: seq<Run>, p: Project)
    requires AllKnown(runs)
    ensures Count(runs, p, WrongValidate) == Count(runs, p, TrueMismatch) + Mismatches(runs, p) <==>
            NoneOf(runs, p, UncausedWrong)
    ensures Count(runs, p, ValidSeed) == Count(runs, p, TrueValidate) + Count(runs, p, TrueMismatch) <==>
            NoneOf(runs, p, Uncaused)
  {
    WrongSplits(runs, p);
    SeedSplits(runs, p);
    NumberZeroIff(runs, p, UncausedWrong);
    NumberZeroIff(runs, p, Uncaused);
  }

  lemma {:induction false} WithRunsKnown(runs: seq<Run>, m: Message, n: nat)
    requires n <= |m.executions| && AllKnown(runs) && KnownCategories(m.values)
    ensures AllKnown(WithRuns(runs, m, n))
  {
    if n > 0 {
      WithRunsKnown(runs, m, n - 1);
    }
  }

  lemma {:induction false} RunsAreKnown(messages: seq<Message>)
    requires forall i :: 0 <= i < |messages| ==> KnownCategories(messages[i].values)
    ensures AllKnown(RunsOf(messages))
  {
    if messages != [] {
      var n := |messages| - 1;
      RunsAreKnown(messages[..n]);
      WithRunsKnown(RunsOf(messages[..n]), messages[n], |messages[n].executions|);
    }
  }

  /** What the analysis leaves in the book of a project. */
  function At(b: Book, p: Project, c: Counter): nat {
    if (p, c) in b then b[(p, c)].count else 0
  }

  lemma AtIsCount(b: Book, runs: seq<Run>, projects: set<Project>, p: Project, c: Counter)
    requires Covers(b, projects) && p in projects && Keeps(b, runs, PhaseOf(c))
    ensures At(b, p, c) == Count(runs, p, c)
  {
    assert (p, c) in b;
    assert CellIs(b[(p, c)], runs, p, c);
  }

  /** The same equations between the counters themselves, as the analysis leaves them. */
  lemma CountersAddUpIff(b: Book, messages: seq<Message>, projects: set<Project>, p: Project)
    requires AllFit(messages, projects) && Covers(b, projects) && p in projects
    requires Keeps(b, RunsOf(messages), Triggering) && Keeps(b, RunsOf(messages), Checking)
    ensures At(b, p, WrongValidate) == At(b, p, TrueMismatch) + At(b, p, WrongIn(DataTypeRule)) + At(b, p, WrongIn(PresenceRule))
                                       + At(b, p, WrongIn(ContentRule)) + At(b, p, WrongIn(SizeRule)) <==>
            NoneOf(RunsOf(messages), p, UncausedWrong)
    ensures At(b, p, ValidSeed) == At(b, p, TrueValidate) + At(b, p, TrueMismatch) <==>
            NoneOf(RunsOf(messages), p, Uncaused)
  {
    var runs := RunsOf(messages);
    RunsAreKnown(messages);
    ReportAddsUpIff(runs, p);
    AtIsCount(b, runs, projects, p, WrongValidate);
    AtIsCount(b, runs, projects, p, TrueMismatch);
    AtIsCount(b, runs, projects, p, TrueValidate);
    AtIsCount(b, runs, projects, p, ValidSeed);
    AtIsCount(b, runs, projects, p, WrongIn(DataTypeRule));
    AtIsCount(b, runs, projects, p, WrongIn(PresenceRule));
    AtIsCount(b, runs, projects, p, WrongIn(ContentRule));
    AtIsCount(b, runs, projects, p, WrongIn(SizeRule));
  }

  /** A set of negated rules is never larger than its counter, and empty exactly when the counter is zero. */
  lemma {:induction false} UniqueAtMost(runs: seq<Run>, p: Project, c: Counter)
    ensures |Keys(runs, p, c)| <= Count(runs, p, c)
    ensures Keys(runs, p, c) == {} <==> Count(runs, p, c) == 0
  {
    if runs != [] {
      var n := |runs| - 1;
      UniqueAtMost(runs[..n], p, c);
      AddedKey(Keys(runs[..n], p, c), SetKeyOf(NegationOf(runs[n])));
    }
  }

  lemma AddedKey(keys: set<SetKey>, key: SetKey)
    ensures |keys + {key}| <= |keys| + 1 && keys + {key} != {} && keys + {} == keys
  {
    if key in keys {
      assert keys + {key} == keys;
    }
    assert key in keys + {key};
  }

  // ----- rows -----

  /** Every run is listed once. */
  lemma {:induction false} RowsConserve(runs: seq<Run>)
    ensures |Selected(runs, true)| + |Selected(runs, false)| == |runs|
  {
    if runs != [] {
      RowsConserve(runs[..|runs| - 1]);
    }
  }

  lemma {:induction false} RowPerRun(runs: seq<Run>, i: nat)
    requires i < |runs|
    ensures |Rows(runs)| == |runs| && Rows(runs)[i] == RowOf(runs[i])
  {
    var n := |runs| - 1;
    if n > 0 {
      RowPerRun(runs[..n], if i < n then i else 0);
    }
  }

  /** The mismatch counter of a project is the number of its mismatches in the list, and its matches are the rest. */
  lemma {:induction false} RowsAreCounted(runs: seq<Run>, p: Project)
    ensures Number(Selected(runs, false), p, Any) == Count(runs, p, WrongValidate)
    ensures Number(Selected(runs, true), p, Any) + Count(runs, p, WrongValidate) == Number(runs, p, Any)
  {
    if runs != [] {
      var n := |runs| - 1;
      RowsAreCounted(runs[..n], p);
      CountLast(runs, p, WrongValidate);
      NumberSnoc(Selected(runs[..n], Correct(runs[n])), runs[n], p);
      KeptEmpty(Selected(runs[..n], !Correct(runs[n])));
    }
  }

  lemma NumberSnoc(runs: seq<Run>, r: Run, p: Project)
    ensures Number(runs + [r], p, Any) == Number(runs, p, Any) + Indicator(Of(r, p))
  {
    assert (runs + [r])[..|runs|] == runs;
  }

  lemma KeptEmpty(runs: seq<Run>)
    ensures runs + [] == runs
  {
  }

  /** A list of runs determines its summary map. */
  lemma FirstIsUnique(a: map<Key, Entry>, b: map<Key, Entry>, runs: seq<Run>)
    requires HoldsFirst(a, runs) && HoldsFirst(b, runs)
    ensures a == b
  {
    FirstIsPart(a, b, RunKeys(runs), RunEntries(runs));
    FirstIsPart(b, a, RunKeys(runs), RunEntries(runs));
  }

  lemma FirstIsPart<K, E>(a: map<K, E>, b: map<K, E>, keys: seq<K>, entries: seq<E>)
    requires |keys| == |entries| && IsFirstMap(a, keys, entries) && IsFirstMap(b, keys, entries)
    ensures forall k :: k in a ==> k in b && a[k] == b[k]
  {
    forall k | k in a
      ensures k in b && a[k] == b[k]
    {
      var i :| 0 <= i < |keys| && FirstAt(keys, i, k) && entries[i] == a[k];
      assert keys[i] in b;
      var j :| 0 <= j < |keys| && FirstAt(keys, j, k) && entries[j] == b[k];
      assert i == j;
    }
  }
}
