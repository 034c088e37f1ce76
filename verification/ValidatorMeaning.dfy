/** What the validator's counters, sets and rows say about the messages' rules and the responses themselves. */
module ValidatorMeaning {
  import opened Wrappers
  import opened Validator

  // ----- one run -----

  /** The position of the last rule that was negated. */
  ghost predicate LastInactive(values: seq<Value>, i: int) {
    0 <= i < |values| && !values[i].isActive && forall j :: i < j < |values| ==> values[j].isActive
  }

  ghost predicate AllActive(values: seq<Value>) {
    forall i :: 0 <= i < |values| ==> values[i].isActive
  }

  lemma {:induction false} NegationIff(values: seq<Value>)
    ensures Negation(values).None? <==> AllActive(values)
    ensures forall i :: LastInactive(values, i) ==> Negation(values) == Some(values[i])
    ensures Negation(values).Some? ==> exists i :: LastInactive(values, i)
  {
    var i := NegationAt(values);
    if i < |values| {
      assert forall k :: LastInactive(values, k) ==> k == i;
    }
  }

  /** The position of the negated rule, or the end when there is none. */
  lemma {:induction false} NegationAt(values: seq<Value>) returns (i: nat)
    ensures i == |values| ==> Negation(values).None? && AllActive(values)
    ensures i < |values| ==> LastInactive(values, i) && Negation(values) == Some(values[i])
    ensures i <= |values|
  {
    if values == [] {
      i := 0;
    } else {
      var n := |values| - 1;
      if values[n].isActive {
        i := NegationAt(values[..n]);
        i := if i == n then |values| else i;
      } else {
        i := n;
      }
    }
  }

  /** The response that the rules of a message call for. */
  ghost predicate AsExpected(values: seq<Value>, response: Option<Response>) {
    match response
    case None => false
    case Some(Response(typeId, code)) =>
      || (typeId == 3 && AllActive(values))
      || (typeId == 4 && exists i :: 0 <= i < |values| && !values[i].isActive)
      || (typeId == 4 && (code == Some(NotSupported) || code == Some(NotImplemented)))
  }

  lemma CorrectIff(r: Run)
    ensures Correct(r) <==> AsExpected(r.message.values, r.execution.response)
  {
    NegationIff(r.message.values);
  }

  /** The last negated rule has such a cause. */
  ghost predicate Blames(values: seq<Value>, cause: Cause) {
    exists i :: LastInactive(values, i) && cause in values[i].causes
  }

  ghost predicate Concerns(values: seq<Value>, category: Category) {
    exists i :: LastInactive(values, i) && values[i].category == Some(category)
  }

  lemma BlamesIff(r: Run, cause: Cause)
    ensures HasCause(r, cause) <==> Blames(r.message.values, cause)
  {
    NegationIff(r.message.values);
  }

  lemma ConcernsIff(r: Run, category: Category)
    ensures HasCategory(r, category) <==> Concerns(r.message.values, category)
  {
    NegationIff(r.message.values);
  }

  /** An error that is no timeout, whether the harness or the system itself reports it. */
  ghost predicate Erred(e: Execution) {
    || e.errorName == OtherError
    || (e.errorName == NoError && e.response.Some? && e.response.value == Response(4, Some(InternalError)))
  }

  /** What each counter says about a message with these rules and one of its executions. */
  ghost predicate Means(c: Counter, values: seq<Value>, e: Execution) {
    match c
    case NoResponse => e.response == None
    case ValidSeed => AllActive(values)
    case ValidTimeout => AllActive(values) && e.errorName == Timeout
    case InvalidTimeout => !AllActive(values) && e.errorName == Timeout
    case TimeoutTrigger => e.errorName == Timeout
    case TimeoutDescription => e.errorName == Timeout && Blames(values, Description)
    case TimeoutStructural => e.errorName == Timeout && Blames(values, Structural)
    case ErrorTrigger => Erred(e)
    case ErrorDescription => Erred(e) && Blames(values, Description)
    case ErrorStructural => Erred(e) && Blames(values, Structural)
    case TrueValidate => AsExpected(values, e.response) && !Blames(values, Description) && !Blames(values, Structural)
    case TrueMismatch => !AsExpected(values, e.response) && !Blames(values, Description) && !Blames(values, Structural)
    case WrongValidate => !AsExpected(values, e.response)
    case WrongDescription => !AsExpected(values, e.response) && Blames(values, Description)
    case WrongStructural => !AsExpected(values, e.response) && Blames(values, Structural)
    case Total(category) => Concerns(values, category)
    case WrongIn(category) => !AsExpected(values, e.response) && Concerns(values, category)
  }

  lemma CountsIff(c: Counter, r: Run)
    ensures Counts(c, r) <==> Means(c, r.message.values, r.execution)
  {
    NegationIff(r.message.values);
    CorrectIff(r);
    BlamesIff(r, Description);
    BlamesIff(r, Structural);
    if c.Total? || c.WrongIn? {
      ConcernsIff(r, c.category);
    }
  }

  /** A message without a negated rule that is answered as a call should be is no mismatch. */
  lemma ValidAnswerIsCounted(r: Run, code: Option<Code>)
    requires AllActive(r.message.values) && r.execution.response == Some(Response(3, code))
    ensures Counts(TrueValidate, r) && !Counts(WrongValidate, r) && !Counts(TrueMismatch, r)
  {
    CountsIff(TrueValidate, r);
    CountsIff(WrongValidate, r);
    CountsIff(TrueMismatch, r);
    NegationIff(r.message.values);
  }

  // ----- all runs -----

  /** The number of executions of the first `n` messages. */
  ghost function Offset(messages: seq<Message>, n: nat): nat
    requires n <= |messages|
  {
    if n == 0 then 0 else Offset(messages, n - 1) + |messages[n - 1].executions|
  }

  /** The runs are the executions of every message, message by message. */
  lemma {:induction false} RunsAre(messages: seq<Message>, n: nat, i: nat, j: nat)
    requires i < n <= |messages| && j < |messages[i].executions|
    ensures |RunsOf(messages[..n])| == Offset(messages, n)
    ensures Offset(messages, i) + j < Offset(messages, n)
    ensures RunsOf(messages[..n])[Offset(messages, i) + j] == Run(messages[i], messages[i].executions[j])
  {
    assert messages[..n] == messages[..n - 1] + [messages[n - 1]];
    RunsSnoc(messages[..n - 1], messages[n - 1]);
    WithRunsIs(RunsOf(messages[..n - 1]), messages[n - 1], |messages[n - 1].executions|);
    RunsMany(messages, n - 1);
    if i < n - 1 {
      RunsAre(messages, n - 1, i, j);
    }
  }

  lemma {:induction false} RunsMany(messages: seq<Message>, n: nat)
    requires n <= |messages|
    ensures |RunsOf(messages[..n])| == Offset(messages, n)
  {
    if n > 0 {
      RunsMany(messages, n - 1);
      assert messages[..n] == messages[..n - 1] + [messages[n - 1]];
      RunsSnoc(messages[..n - 1], messages[n - 1]);
      WithRunsIs(RunsOf(messages[..n - 1]), messages[n - 1], |messages[n - 1].executions|);
    }
  }

  lemma {:induction false} WithRunsIs(runs: seq<Run>, m: Message, n: nat)
    requires n <= |m.executions|
    ensures var all := WithRuns(runs, m, n);
            && |all| == |runs| + n && all[..|runs|] == runs
            && forall j :: 0 <= j < n ==> all[|runs| + j] == Run(m, m.executions[j])
  {
    if n > 0 {
      WithRunsIs(runs, m, n - 1);
    }
  }

  ghost predicate SpeaksOf(c: Counter, p: Project, r: Run) {
    r.execution.project == Some(p) && Means(c, r.message.values, r.execution)
  }

  /** The runs of a project that a counter speaks of. */
  ghost function Positions(runs: seq<Run>, p: Project, c: Counter): set<int> {
    set i | 0 <= i < |runs| && SpeaksOf(c, p, runs[i])
  }

  lemma PositionsSnoc(runs: seq<Run>, r: Run, p: Project, c: Counter)
    ensures Positions(runs + [r], p, c) == Positions(runs, p, c) + if SpeaksOf(c, p, r) then {|runs|} else {}
  {
    var all := runs + [r];
    assert all[|runs|] == r && forall i :: 0 <= i < |runs| ==> all[i] == runs[i];
  }

  lemma {:induction false} CountIsNumber(runs: seq<Run>, p: Project, c: Counter)
    ensures Count(runs, p, c) == |Positions(runs, p, c)|
  {
    if runs != [] {
      var n := |runs| - 1;
      var init, last := runs[..n], runs[n];
      CountIsNumber(init, p, c);
      assert runs == init + [last];
      PositionsGrow(init, last, p, c);
      CountSnoc(init, last, p, c);
    }
  }

  lemma PositionsGrow(runs: seq<Run>, r: Run, p: Project, c: Counter)
    ensures |Positions(runs + [r], p, c)| == |Positions(runs, p, c)| + if Of(r, p) && Counts(c, r) then 1 else 0
  {
    CountsIff(c, r);
    PositionsSnoc(runs, r, p, c);
    assert |runs| !in Positions(runs, p, c);
  }

  /** The name and the constraint of the last negated rule, run together. */
  ghost predicate Names(key: SetKey, values: seq<Value>) {
    match key
    case None => AllActive(values)
    case Some(text) => exists i :: LastInactive(values, i) && text == values[i].name + values[i].constraint
  }

  lemma NamesIff(r: Run, key: SetKey)
    ensures SetKeyOf(NegationOf(r)) == key <==> Names(key, r.message.values)
  {
    NegationIff(r.message.values);
  }

  /** Some run that the counter speaks of has such a negated rule. */
  ghost predicate NamedIn(key: SetKey, runs: seq<Run>, p: Project, c: Counter) {
    exists i :: 0 <= i < |runs| && SpeaksOf(c, p, runs[i]) && Names(key, runs[i].message.values)
  }

  lemma NamedInSnoc(key: SetKey, runs: seq<Run>, r: Run, p: Project, c: Counter)
    ensures NamedIn(key, runs + [r], p, c) <==>
            NamedIn(key, runs, p, c) || (SpeaksOf(c, p, r) && Names(key, r.message.values))
  {
    var all := runs + [r];
    assert all[|runs|] == r && forall i :: 0 <= i < |runs| ==> all[i] == runs[i];
  }

  lemma {:induction false} KeysAre(runs: seq<Run>, p: Project, c: Counter, key: SetKey)
    ensures key in Keys(runs, p, c) <==> NamedIn(key, runs, p, c)
  {
    if runs != [] {
      var n := |runs| - 1;
      var init, last := runs[..n], runs[n];
      KeysAre(init, p, c, key);
      CountsIff(c, last);
      NamesIff(last, key);
      NamedInSnoc(key, init, last, p, c);
      assert runs == init + [last];
    }
  }

  /** Every counter is the number of runs that it speaks of, and every set names the rules negated in them. */
  ghost predicate BookSays(b: Book, runs: seq<Run>) {
    forall p, c :: (p, c) in b ==> CellSays(b[(p, c)], runs, p, c)
  }

  ghost predicate CellSays(cell: Cell, runs: seq<Run>, p: Project, c: Counter) {
    && cell.count == |Positions(runs, p, c)|
    && (HasSet(c) ==> forall key :: key in cell.keys <==> NamedIn(key, runs, p, c))
  }

  lemma CellMeans(cell: Cell, runs: seq<Run>, p: Project, c: Counter)
    requires CellIs(cell, runs, p, c)
    ensures CellSays(cell, runs, p, c)
  {
    CountIsNumber(runs, p, c);
    if HasSet(c) {
      forall key
        ensures key in cell.keys <==> NamedIn(key, runs, p, c)
      {
        KeysAre(runs, p, c, key);
      }
    }
  }

  lemma BookMeans(b: Book, runs: seq<Run>)
    requires Keeps(b, runs, Silence) && Keeps(b, runs, Triggering) && Keeps(b, runs, Checking)
    ensures BookSays(b, runs)
  {
    forall p, c | (p, c) in b
      ensures CellSays(b[(p, c)], runs, p, c)
    {
      assert CellIs(b[(p, c)], runs, p, c) by {
        assert PhaseOf(c) == Silence || PhaseOf(c) == Triggering || PhaseOf(c) == Checking;
      }
      CellMeans(b[(p, c)], runs, p, c);
    }
  }

  /** The analysis of all messages, on the book that it leaves. */
  method AnalyseAll(messages: seq<Message>) returns (book: Option<Book>)
    ensures book.Some? <==> AllFit(messages, ProjectNames(messages))
    ensures book.Some? ==> Covers(book.value, ProjectNames(messages)) && BookSays(book.value, RunsOf(messages))
  {
    var v := new Validator(messages);
    var ok := v.Analysis();
    if ok {
      BookMeans(v.book, RunsOf(messages));
      book := Some(v.book);
    } else {
      book := None;
    }
  }

  // ----- rows -----

  /** A row tells the rules and the execution of its run. */
  lemma RowTells(r: Run)
    ensures var row, values := RowOf(r), r.message.values;
            && row.id == r.message.id && row.payload == r.message.payload && row.response == r.execution.response
            && row.key.action == r.message.action && row.key.project == r.execution.project
            && (row.expectedType == 3 <==> AllActive(values)) && (row.expectedType == 4 <==> !AllActive(values))
            && (AllActive(values) ==> row.rule.None? && row.expectedCodes == []
                                      && row.key.name.None? && row.key.conditions.None? && row.key.constraint.None?)
            && forall i :: LastInactive(values, i) ==>
                 && row.rule == Some(values[i]) && row.key.name == Some(values[i].name)
                 && row.key.conditions == Some(values[i].conditions) && row.key.constraint == Some(values[i].constraint)
                 && row.expectedCodes == ExpectedCodes(values[i].category)
  {
    NegationIff(r.message.values);
  }

  /** An entry and a row of one run agree on what both hold; the entry has the category of the negated rule. */
  lemma EntryTells(r: Run)
    ensures var row, entry, values := RowOf(r), EntryOf(r), r.message.values;
            && entry.id == row.id && entry.action == row.key.action && entry.name == row.key.name
            && entry.rule == row.rule && entry.constraint == row.key.constraint && entry.payload == row.payload
            && entry.expectedType == row.expectedType && entry.expectedCodes == row.expectedCodes
            && entry.response == row.response && entry.project == row.key.project
            && (forall category :: entry.category == Some(category) <==> Concerns(values, category))
  {
    forall category
      ensures EntryOf(r).category == Some(category) <==> Concerns(r.message.values, category)
    {
      ConcernsIff(r, category);
    }
  }

  /** A line of a list of timeouts or errors tells the same, with the error instead of the expectation. */
  lemma TriggerRowTells(r: Run)
    ensures var row, trigger := RowOf(r), TriggerRowOf(r);
            && trigger.id == row.id && trigger.key == row.key && trigger.rule == row.rule
            && trigger.payload == row.payload && trigger.response == row.response
            && trigger.errorName == r.execution.errorName
  {
  }

  /** The codes tell the category: only a data type may be a type violation, and each category has its first code. */
  lemma CodesTellCategory(a: Category, b: Category)
    ensures ExpectedCodes(Some(a)) == ExpectedCodes(Some(b)) ==> a == b
    ensures TypeViolation in ExpectedCodes(Some(a)) <==> a == DataTypeRule
    ensures FormatViolation in ExpectedCodes(Some(a))
    ensures PropertyViolation in ExpectedCodes(Some(a)) <==> a != DataTypeRule
    ensures OccurrenceViolation in ExpectedCodes(Some(a)) <==> a != DataTypeRule
    ensures ExpectedCodes(Some(a))[0] ==
            match a
            case DataTypeRule => TypeViolation
            case PresenceRule => FormatViolation
            case ContentRule => PropertyViolation
            case SizeRule => OccurrenceViolation
  {
  }

  /** The row lists are made from the runs whose response is the expected one, and from the others. */
  lemma {:induction false} SelectedIff(runs: seq<Run>, correct: bool, r: Run)
    ensures r in Selected(runs, correct) <==> r in runs && (AsExpected(r.message.values, r.execution.response) <==> correct)
  {
    if runs != [] {
      var n := |runs| - 1;
      SelectedIff(runs[..n], correct, r);
      CorrectIff(runs[n]);
      assert runs == runs[..n] + [runs[n]];
    }
  }
}
