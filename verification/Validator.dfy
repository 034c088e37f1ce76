/** The validator's counters, sets, row lists and first-row maps over a set of executed test messages. */
module Validator {

  import opened Wrappers

  type Project = string

  datatype Category = DataTypeRule | PresenceRule | ContentRule | SizeRule

  /** A cause of a rule, by the ending of its name. */
  datatype Cause = Description | Structural

  /** One rule of a message's combination; an inactive one was negated. Its category is absent when it is unknown. */
  datatype Value = Value(isActive: bool, name: string, conditions: string, constraint: string,
                         category: Option<Category>, causes: seq<Cause>)

  datatype Code = InternalError | NotSupported | NotImplemented | OtherCode

  /** The first and the third element of a response; the third is absent when the response is shorter. */
  datatype Response = Response(typeId: int, code: Option<Code>)

  datatype ErrorName = NoError | Timeout | OtherError

  datatype Execution = Execution(project: Option<Project>, response: Option<Response>, errorName: ErrorName)

  datatype Message = Message(id: int, action: string, payload: string, values: seq<Value>, executions: seq<Execution>)

  /** One execution of one message. */
  datatype Run = Run(message: Message, execution: Execution)

  // ----- what is to be counted -----

  datatype Counter =
    | NoResponse
    | ValidSeed | ValidTimeout | InvalidTimeout
    | TimeoutTrigger | TimeoutDescription | TimeoutStructural
    | ErrorTrigger | ErrorDescription | ErrorStructural
    | TrueValidate | TrueMismatch | WrongValidate | WrongDescription | WrongStructural
    | Total(category: Category) | WrongIn(category: Category)

  /** The three passes over a message's executions. */
  datatype Phase = Silence | Triggering | Checking

  function PhaseOf(c: Counter): Phase {
    match c
    case NoResponse => Silence
    case ValidSeed => Triggering
    case ValidTimeout => Triggering
    case InvalidTimeout => Triggering
    case TimeoutTrigger => Triggering
    case TimeoutDescription => Triggering
    case TimeoutStructural => Triggering
    case ErrorTrigger => Triggering
    case ErrorDescription => Triggering
    case ErrorStructural => Triggering
    case _ => Checking
  }

  /** The counters that come with a set of the negated rules they were raised for. */
  predicate HasSet(c: Counter) {
    || c.TimeoutTrigger? || c.TimeoutDescription? || c.TimeoutStructural?
    || c.ErrorTrigger? || c.ErrorDescription? || c.ErrorStructural?
    || c.WrongValidate? || c.WrongDescription? || c.WrongStructural? || c.TrueMismatch?
  }

  /** The negated rule of a message: the last inactive one. */
  function Negation(values: seq<Value>): Option<Value> {
    if values == [] then None
    else if !values[|values| - 1].isActive then Some(values[|values| - 1])
    else Negation(values[..|values| - 1])
  }

  function NegationOf(r: Run): Option<Value> {
    Negation(r.message.values)
  }

  predicate IsError(response: Option<Response>) {
    response.Some? && response.value.typeId == 4 && response.value.code == Some(InternalError)
  }

  /** A response with an error code of "unsupported" always counts; otherwise its type must be the expected one. */
  predicate IsCorrect(response: Option<Response>, negated: bool) {
    && response.Some?
    && (|| (response.value.typeId == 4 && response.value.code in {Some(NotSupported), Some(NotImplemented)})
        || response.value.typeId == if negated then 4 else 3)
  }

  predicate Correct(r: Run) {
    IsCorrect(r.execution.response, NegationOf(r).Some?)
  }

  predicate CausedBy(negation: Option<Value>, cause: Cause) {
    negation.Some? && cause in negation.value.causes
  }

  predicate HasCause(r: Run, cause: Cause) {
    CausedBy(NegationOf(r), cause)
  }

  predicate Causeless(r: Run) {
    !HasCause(r, Description) && !HasCause(r, Structural)
  }

  predicate HasCategory(r: Run, category: Category) {
    NegationOf(r).Some? && NegationOf(r).value.category == Some(category)
  }

  predicate TimedOut(r: Run) {
    r.execution.errorName == Timeout
  }

  /** An error other than a timeout: one that the test harness reports, or an internal error that the system answers. */
  predicate Failed(r: Run) {
    r.execution.errorName != Timeout && (r.execution.errorName != NoError || IsError(r.execution.response))
  }

  /** What each counter is meant to count. */
  predicate Counts(c: Counter, r: Run) {
    match c
    case NoResponse => r.execution.response.None?
    case ValidSeed => NegationOf(r).None?
    case ValidTimeout => NegationOf(r).None? && TimedOut(r)
    case InvalidTimeout => NegationOf(r).Some? && TimedOut(r)
    case TimeoutTrigger => TimedOut(r)
    case TimeoutDescription => TimedOut(r) && HasCause(r, Description)
    case TimeoutStructural => TimedOut(r) && HasCause(r, Structural)
    case ErrorTrigger => Failed(r)
    case ErrorDescription => Failed(r) && HasCause(r, Description)
    case ErrorStructural => Failed(r) && HasCause(r, Structural)
    case TrueValidate => Causeless(r) && Correct(r)
    case TrueMismatch => Causeless(r) && !Correct(r)
    case WrongValidate => !Correct(r)
    case WrongDescription => HasCause(r, Description) && !Correct(r)
    case WrongStructural => HasCause(r, Structural) && !Correct(r)
    case Total(category) => HasCategory(r, category)
    case WrongIn(category) => HasCategory(r, category) && !Correct(r)
  }

  predicate Of(r: Run, p: Project) {
    r.execution.project == Some(p)
  }

  function Count(runs: seq<Run>, p: Project, c: Counter): nat {
    if runs == [] then 0
    else
      var last := runs[|runs| - 1];
      Count(runs[..|runs| - 1], p, c) + if Of(last, p) && Counts(c, last) then 1 else 0
  }

  /** What stands for a negated rule in the sets: its name and its constraint, run together. */
  type SetKey = Option<string>

  function SetKeyOf(negation: Option<Value>): SetKey {
    if negation.None? then None else Some(negation.value.name + negation.value.constraint)
  }

  /** The negated rules of the runs that a counter counts. */
  function Keys(runs: seq<Run>, p: Project, c: Counter): set<SetKey> {
    if runs == [] then {}
    else
      var last := runs[|runs| - 1];
      Keys(runs[..|runs| - 1], p, c) + if Of(last, p) && Counts(c, last) then {SetKeyOf(NegationOf(last))} else {}
  }

  // ----- rows -----

  datatype ErrorCode = TypeViolation | FormatViolation | PropertyViolation | OccurrenceViolation

  /** CATEGORY_EXPECT_MAP */
  function ExpectedCodes(category: Option<Category>): seq<ErrorCode> {
    match category
    case None => []
    case Some(DataTypeRule) => [TypeViolation, FormatViolation]
    case Some(PresenceRule) => [FormatViolation, PropertyViolation, OccurrenceViolation]
    case Some(ContentRule) => [PropertyViolation, OccurrenceViolation, FormatViolation]
    case Some(SizeRule) => [OccurrenceViolation, PropertyViolation, FormatViolation]
  }

  datatype Key = Key(action: string, name: Option<string>, conditions: Option<string>, constraint: Option<string>,
                     project: Option<Project>)

  /** A line of a row list. */
  datatype Row = Row(id: int, key: Key, rule: Option<Value>, payload: string, expectedType: int,
                     expectedCodes: seq<ErrorCode>, response: Option<Response>)

  /** An entry of a summary map: it has the category, but not the conditions. */
  datatype Entry = Entry(id: int, action: string, name: Option<string>, rule: Option<Value>, constraint: Option<string>,
                         payload: string, expectedType: int, expectedCodes: seq<ErrorCode>,
                         response: Option<Response>, category: Option<Category>, project: Option<Project>)

  /** A line of a list of timeouts or errors. */
  datatype TriggerRow = TriggerRow(id: int, key: Key, rule: Option<Value>, payload: string,
                                   response: Option<Response>, errorName: ErrorName)

  function CategoryOf(negation: Option<Value>): Option<Category> {
    if negation.None? then None else negation.value.category
  }

  function RunKey(r: Run): Key {
    match NegationOf(r)
    case None => Key(r.message.action, None, None, None, r.execution.project)
    case Some(v) => Key(r.message.action, Some(v.name), Some(v.conditions), Some(v.constraint), r.execution.project)
  }

  function RowOf(r: Run): Row {
    Row(r.message.id, RunKey(r), NegationOf(r), r.message.payload, if NegationOf(r).None? then 3 else 4,
        ExpectedCodes(CategoryOf(NegationOf(r))), r.execution.response)
  }

  function EntryOf(r: Run): Entry {
    var k := RunKey(r);
    Entry(r.message.id, k.action, k.name, NegationOf(r), k.constraint, r.message.payload,
          if NegationOf(r).None? then 3 else 4, ExpectedCodes(CategoryOf(NegationOf(r))), r.execution.response,
          CategoryOf(NegationOf(r)), k.project)
  }

  function TriggerRowOf(r: Run): TriggerRow {
    TriggerRow(r.message.id, RunKey(r), NegationOf(r), r.message.payload, r.execution.response, r.execution.errorName)
  }

  /** The runs that are correct, or those that are not, in order. */
  function Selected(runs: seq<Run>, correct: bool): seq<Run> {
    if runs == [] then []
    else
      var last := runs[|runs| - 1];
      Selected(runs[..|runs| - 1], correct) + if Correct(last) == correct then [last] else []
  }

  function Rows(runs: seq<Run>): seq<Row> {
    if runs == [] then [] else Rows(runs[..|runs| - 1]) + [RowOf(runs[|runs| - 1])]
  }

  /** The rows of the runs that timed out, or of those that failed otherwise, in order. */
  function TriggerRows(runs: seq<Run>, timeouts: bool): seq<TriggerRow> {
    if runs == [] then []
    else
      var last := runs[|runs| - 1];
      TriggerRows(runs[..|runs| - 1], timeouts)
      + if (if timeouts then TimedOut(last) else Failed(last)) then [TriggerRowOf(last)] else []
  }

  /** An entry is made only for a key that is not there yet. */
  function AddFirst(m: map<Key, Entry>, r: Run): map<Key, Entry> {
    if RunKey(r) in m then m else m[RunKey(r) := EntryOf(r)]
  }

  function FirstEntries(runs: seq<Run>): map<Key, Entry> {
    if runs == [] then map[] else AddFirst(FirstEntries(runs[..|runs| - 1]), runs[|runs| - 1])
  }

  function RunKeys(runs: seq<Run>): (keys: seq<Key>)
    ensures |keys| == |runs|
  {
    if runs == [] then [] else RunKeys(runs[..|runs| - 1]) + [RunKey(runs[|runs| - 1])]
  }

  function RunEntries(runs: seq<Run>): (entries: seq<Entry>)
    ensures |entries| == |runs|
  {
    if runs == [] then [] else RunEntries(runs[..|runs| - 1]) + [EntryOf(runs[|runs| - 1])]
  }

  /** The first position of a key in a list. */
  ghost predicate FirstAt<K>(keys: seq<K>, i: nat, k: K)
    requires i < |keys|
  {
    keys[i] == k && forall j :: 0 <= j < i ==> keys[j] != k
  }

  /** A map holds, for every key of a list, the entry at its first position, and nothing else. */
  ghost predicate IsFirstMap<K, E>(m: map<K, E>, keys: seq<K>, entries: seq<E>)
    requires |keys| == |entries|
  {
    && (forall i :: 0 <= i < |keys| ==> keys[i] in m)
    && (forall k :: k in m ==> exists i :: 0 <= i < |keys| && FirstAt(keys, i, k) && entries[i] == m[k])
  }

  ghost predicate HoldsFirst(m: map<Key, Entry>, runs: seq<Run>) {
    IsFirstMap(m, RunKeys(runs), RunEntries(runs))
  }

  /** Some runs followed by the first executions of a message. */
  function WithRuns(runs: seq<Run>, m: Message, n: nat): seq<Run>
    requires n <= |m.executions|
  {
    if n == 0 then runs else WithRuns(runs, m, n - 1) + [Run(m, m.executions[n - 1])]
  }

  function RunsOf(messages: seq<Message>): seq<Run> {
    if messages == [] then []
    else
      var last := messages[|messages| - 1];
      WithRuns(RunsOf(messages[..|messages| - 1]), last, |last.executions|)
  }

  // ----- when the analysis can be carried out -----

  ghost predicate KnownCategories(values: seq<Value>) {
    forall v :: v in values && !v.isActive ==> v.category.Some?
  }

  /** A response that says it is an error and has no third element cannot be read. */
  predicate Readable(response: Option<Response>) {
    response.Some? && response.value.typeId == 4 ==> response.value.code.Some?
  }

  predicate Countable(e: Execution, projects: set<Project>) {
    e.project.Some? && e.project.value in projects && Readable(e.response)
  }

  ghost predicate AllCountable(m: Message, projects: set<Project>) {
    forall i :: 0 <= i < |m.executions| ==> Countable(m.executions[i], projects)
  }

  ghost predicate Fits(m: Message, projects: set<Project>) {
    KnownCategories(m.values) && AllCountable(m, projects)
  }

  const UNNAMED: Project := "UNKNOWN"

  /** The projects that the counters are made for: those of the executions, with a stand-in for a missing name. */
  function ProjectNames(messages: seq<Message>): set<Project> {
    set m, e | m in messages && e in m.executions :: NameOf(e)
  }

  function NameOf(e: Execution): Project {
    if e.project.None? || |e.project.value| == 0 then UNNAMED else e.project.value
  }

  /** The stand-in is never looked up: an execution can be counted exactly when its project has a name. */
  lemma NamedIsCounted(messages: seq<Message>, m: Message, e: Execution)
    requires m in messages && e in m.executions
    ensures Countable(e, ProjectNames(messages)) <==> e.project.Some? && |e.project.value| > 0 && Readable(e.response)
  {
    assert NameOf(e) in ProjectNames(messages);
    assert forall x: Execution :: |NameOf(x)| > 0;
  }

  /** The search for the negated rule, given up as soon as an inactive rule has no known category. */
  method FindNegation(values: seq<Value>) returns (known: bool, negation: Option<Value>)
    ensures known <==> KnownCategories(values)
    ensures known ==> negation == Negation(values)
  {
    negation := None;
    assert values[..|values|] == values;
    for i := 0 to |values|
      invariant KnownCategories(values[..i])
      invariant negation == Negation(values[..i])
    {
      assert values[..i + 1] == values[..i] + [values[i]];
      if !values[i].isActive {
        negation := Some(values[i]);
        if values[i].category.None? {
          assert values[i] in values;
          return false, None;
        }
      }
    }
    return true, negation;
  }

  /** Which kinds of cause a negated rule has. */
  method BaseOf(causes: seq<Cause>) returns (description: bool, structural: bool)
    ensures description <==> Description in causes
    ensures structural <==> Structural in causes
  {
    description, structural := false, false;
    for i := 0 to |causes|
      invariant description <==> Description in causes[..i]
      invariant structural <==> Structural in causes[..i]
    {
      if causes[i] == Description {
        description := true;
      } else {
        structural := true;
      }
    }
  }

  // ----- the book of counters and sets -----

  datatype Cell = Cell(count: nat, keys: set<SetKey>)

  type Book = map<(Project, Counter), Cell>

  function AllCounters(): set<Counter> {
    {NoResponse, ValidSeed, ValidTimeout, InvalidTimeout, TimeoutTrigger, TimeoutDescription, TimeoutStructural,
     ErrorTrigger, ErrorDescription, ErrorStructural,
     TrueValidate, TrueMismatch, WrongValidate, WrongDescription, WrongStructural,
     Total(DataTypeRule), Total(PresenceRule), Total(ContentRule), Total(SizeRule),
     WrongIn(DataTypeRule), WrongIn(PresenceRule), WrongIn(ContentRule), WrongIn(SizeRule)}
  }

  lemma EveryCounter(c: Counter)
    ensures c in AllCounters()
  {
    match c
    case Total(category) => match category { case DataTypeRule => case PresenceRule => case ContentRule => case SizeRule => }
    case WrongIn(category) => match category { case DataTypeRule => case PresenceRule => case ContentRule => case SizeRule => }
    case _ =>
  }

  ghost predicate Covers(b: Book, projects: set<Project>) {
    forall p, c :: (p, c) in b <==> p in projects
  }

  function Raised(cell: Cell, c: Counter, key: SetKey): Cell {
    Cell(cell.count + 1, if HasSet(c) then cell.keys + {key} else cell.keys)
  }

  /** One counter of one project is raised, and its set, if it has one, gets the key. */
  function Note(b: Book, p: Project, c: Counter, key: SetKey): Book {
    if (p, c) in b then b[(p, c) := Raised(b[(p, c)], c, key)] else b
  }

  /** One book follows another by raising some counters of one project, each once. */
  ghost predicate Marks(before: Book, after: Book, p: Project, key: SetKey, hits: set<Counter>) {
    && before.Keys == after.Keys
    && forall q, c :: (q, c) in before ==>
                        after[(q, c)] == if q == p && c in hits then Raised(before[(q, c)], c, key) else before[(q, c)]
  }

  lemma MarkOne(before: Book, after: Book, p: Project, key: SetKey, hits: set<Counter>, c: Counter)
    requires Marks(before, after, p, key, hits) && c !in hits && (p, c) in before
    ensures Marks(before, Note(after, p, c, key), p, key, hits + {c})
  {
    var now := Note(after, p, c, key);
    assert now.Keys == after.Keys;
    forall q, d | (q, d) in before
      ensures now[(q, d)] == if q == p && d in hits + {c} then Raised(before[(q, d)], d, key) else before[(q, d)]
    {
      assert (q, d) in after;
    }
  }

  /** The counters of one pass that a run is to raise. */
  ghost predicate IsHits(hits: set<Counter>, r: Run, phase: Phase) {
    forall c :: c in hits <==> PhaseOf(c) == phase && Counts(c, r)
  }

  /** In one pass, every counter has counted, and every set holds, what it is meant to. */
  ghost predicate Keeps(b: Book, runs: seq<Run>, phase: Phase) {
    forall p, c :: (p, c) in b && PhaseOf(c) == phase ==> CellIs(b[(p, c)], runs, p, c)
  }

  ghost predicate CellIs(cell: Cell, runs: seq<Run>, p: Project, c: Counter) {
    cell.count == Count(runs, p, c) && cell.keys == if HasSet(c) then Keys(runs, p, c) else {}
  }

  lemma CellOneMore(cell: Cell, runs: seq<Run>, r: Run, p: Project, c: Counter)
    requires CellIs(cell, runs, p, c)
    ensures CellIs(if Of(r, p) && Counts(c, r) then Raised(cell, c, SetKeyOf(NegationOf(r))) else cell, runs + [r], p, c)
  {
    CountSnoc(runs, r, p, c);
    KeysSnoc(runs, r, p, c);
  }

  lemma CountSnoc(runs: seq<Run>, r: Run, p: Project, c: Counter)
    ensures Count(runs + [r], p, c) == Count(runs, p, c) + if Of(r, p) && Counts(c, r) then 1 else 0
  {
    assert (runs + [r])[..|runs|] == runs;
  }

  lemma KeysSnoc(runs: seq<Run>, r: Run, p: Project, c: Counter)
    ensures Keys(runs + [r], p, c) ==
            if Of(r, p) && Counts(c, r) then Keys(runs, p, c) + {SetKeyOf(NegationOf(r))} else Keys(runs, p, c)
  {
    assert (runs + [r])[..|runs|] == runs;
  }

  lemma MarksKeep(before: Book, after: Book, runs: seq<Run>, r: Run, phase: Phase, p: Project, hits: set<Counter>)
    requires Marks(before, after, p, SetKeyOf(NegationOf(r)), hits) && IsHits(hits, r, phase) && Of(r, p)
    requires Keeps(before, runs, phase)
    ensures Keeps(after, runs + [r], phase)
  {
    forall q, c | (q, c) in after && PhaseOf(c) == phase
      ensures CellIs(after[(q, c)], runs + [r], q, c)
    {
      assert (q, c) in before;
      CellOneMore(before[(q, c)], runs, r, q, c);
    }
  }

  lemma MarksKeepOthers(before: Book, after: Book, runs: seq<Run>, r: Run, phase: Phase, p: Project, hits: set<Counter>,
                        other: Phase)
    requires Marks(before, after, p, SetKeyOf(NegationOf(r)), hits) && IsHits(hits, r, phase)
    requires Keeps(before, runs, other) && other != phase
    ensures Keeps(after, runs, other)
  {
    forall q, c | (q, c) in after && PhaseOf(c) == other
      ensures CellIs(after[(q, c)], runs, q, c)
    {
      assert (q, c) in before;
    }
  }

  lemma MarksCover(before: Book, after: Book, p: Project, key: SetKey, hits: set<Counter>, projects: set<Project>)
    requires Marks(before, after, p, key, hits) && Covers(before, projects)
    ensures Covers(after, projects)
  {
    assert forall q, c :: (q, c) in after <==> (q, c) in before;
  }

  // ----- the program -----

  method Mark(book: Book, p: Project, c: Counter, key: SetKey, ghost before: Book, ghost hits: set<Counter>)
    returns (now: Book)
    requires Marks(before, book, p, key, hits) && c !in hits && (p, c) in before
    ensures Marks(before, now, p, key, hits + {c})
  {
    MarkOne(before, book, p, key, hits, c);
    now := Note(book, p, c, key);
  }

  /** The counters for a timeout or for another error, and for the kinds of cause of the negated rule. */
  method MarkTrigger(book: Book, p: Project, key: SetKey, timeout: bool, description: bool, structural: bool,
                     ghost before: Book, ghost hits: set<Counter>)
    returns (now: Book)
    requires Marks(before, book, p, key, hits) && hits <= {ValidSeed} && forall c :: (p, c) in before
    ensures Marks(before, now, p, key, hits + TriggerHits(timeout, description, structural))
  {
    var trigger := if timeout then TimeoutTrigger else ErrorTrigger;
    now := Mark(book, p, trigger, key, before, hits);
    ghost var all := hits + {trigger};
    if description {
      var c := if timeout then TimeoutDescription else ErrorDescription;
      now := Mark(now, p, c, key, before, all);
      all := all + {c};
    }
    if structural {
      var c := if timeout then TimeoutStructural else ErrorStructural;
      now := Mark(now, p, c, key, before, all);
      all := all + {c};
    }
    assert all == hits + TriggerHits(timeout, description, structural);
  }

  /** The counters that a timeout or another error raises. */
  function TriggerHits(timeout: bool, description: bool, structural: bool): set<Counter> {
    {if timeout then TimeoutTrigger else ErrorTrigger}
    + (if description then {if timeout then TimeoutDescription else ErrorDescription} else {})
    + (if structural then {if timeout then TimeoutStructural else ErrorStructural} else {})
  }

  /** The counters that the second pass raises. */
  function PassHits(valid: bool, timeout: bool, failed: bool, description: bool, structural: bool): set<Counter> {
    (if valid then {ValidSeed} else {})
    + (if timeout || failed then TriggerHits(timeout, description, structural) else {})
    + (if timeout then {if valid then ValidTimeout else InvalidTimeout} else {})
  }

  function TriggeringHits(r: Run): set<Counter> {
    PassHits(NegationOf(r).None?, TimedOut(r), Failed(r), HasCause(r, Description), HasCause(r, Structural))
  }

  /** They are exactly those of the second pass that are meant to count the run. */
  lemma TriggeringHitsAreHits(r: Run)
    ensures IsHits(TriggeringHits(r), r, Triggering)
  {
  }

  /** The second pass over an execution. */
  method CountTrigger(book: Book, e: Execution, p: Project, ghost m: Message, negation: Option<Value>,
                      description: bool, structural: bool)
    returns (after: Book)
    requires e.project == Some(p) && negation == Negation(m.values) && forall c :: (p, c) in book
    requires (description <==> CausedBy(negation, Description)) && (structural <==> CausedBy(negation, Structural))
    ensures Marks(book, after, p, SetKeyOf(negation), TriggeringHits(Run(m, e)))
  {
    var key := SetKeyOf(negation);
    after := book;
    ghost var hits := {};
    if negation.None? {
      after := Mark(after, p, ValidSeed, key, book, hits);
      hits := {ValidSeed};
    }
    if e.errorName != NoError || IsError(e.response) {
      var timeout := e.errorName == Timeout;
      after := MarkTrigger(after, p, key, timeout, description, structural, book, hits);
      hits := hits + TriggerHits(timeout, description, structural);
      if timeout {
        var c := if negation.None? then ValidTimeout else InvalidTimeout;
        after := Mark(after, p, c, key, book, hits);
        hits := hits + {c};
      }
    }
    assert hits == TriggeringHits(Run(m, e));
  }

  /** The counters of a mismatch. */
  method MarkWrong(book: Book, p: Project, key: SetKey, category: Option<Category>, description: bool, structural: bool,
                   ghost before: Book, ghost hits: set<Counter>)
    returns (now: Book)
    requires Marks(before, book, p, key, hits) && (forall c :: c in hits ==> c.Total?) && forall c :: (p, c) in before
    ensures Marks(before, now, p, key, hits + WrongHits(description, structural, category))
  {
    now := book;
    ghost var all := hits;
    if description {
      now := Mark(now, p, WrongDescription, key, before, all);
      all := all + {WrongDescription};
    }
    if structural {
      now := Mark(now, p, WrongStructural, key, before, all);
      all := all + {WrongStructural};
    }
    if !description && !structural {
      now := Mark(now, p, TrueMismatch, key, before, all);
      all := all + {TrueMismatch};
    }
    now := Mark(now, p, WrongValidate, key, before, all);
    all := all + {WrongValidate};
    if category.Some? {
      now := Mark(now, p, WrongIn(category.value), key, before, all);
      all := all + {WrongIn(category.value)};
    }
    assert all == hits + WrongHits(description, structural, category);
  }

  /** The counters that a check raises. */
  function CheckHits(correct: bool, description: bool, structural: bool, category: Option<Category>): set<Counter> {
    (if category.Some? then {Total(category.value)} else {})
    + if correct then (if !description && !structural then {TrueValidate} else {})
      else WrongHits(description, structural, category)
  }

  function WrongHits(description: bool, structural: bool, category: Option<Category>): set<Counter> {
    {WrongValidate} + (if description then {WrongDescription} else {})
    + (if structural then {WrongStructural} else {})
    + (if !description && !structural then {TrueMismatch} else {})
    + (if category.Some? then {WrongIn(category.value)} else {})
  }

  function CheckingHits(r: Run): set<Counter> {
    CheckHits(Correct(r), HasCause(r, Description), HasCause(r, Structural), CategoryOf(NegationOf(r)))
  }

  /** They are exactly those of the third pass that are meant to count the run. */
  lemma CheckingHitsAreHits(r: Run)
    ensures IsHits(CheckingHits(r), r, Checking)
  {
    var description, structural := HasCause(r, Description), HasCause(r, Structural);
    forall c
      ensures c in WrongHits(description, structural, CategoryOf(NegationOf(r))) && !Correct(r) <==>
              PhaseOf(c) == Checking && Counts(c, r) && !Correct(r) && !c.Total?
    {
      WrongHitsIff(c, description, structural, CategoryOf(NegationOf(r)));
    }
  }

  lemma WrongHitsIff(c: Counter, description: bool, structural: bool, category: Option<Category>)
    ensures c in WrongHits(description, structural, category) <==>
            match c
            case WrongValidate => true
            case WrongDescription => description
            case WrongStructural => structural
            case TrueMismatch => !description && !structural
            case WrongIn(k) => category == Some(k)
            case _ => false
  {
  }

  /** The counters of the third pass over an execution. */
  method CountCheck(book: Book, e: Execution, p: Project, ghost m: Message, negation: Option<Value>,
                    description: bool, structural: bool)
    returns (after: Book)
    requires e.project == Some(p) && negation == Negation(m.values) && forall c :: (p, c) in book
    requires (description <==> CausedBy(negation, Description)) && (structural <==> CausedBy(negation, Structural))
    ensures Marks(book, after, p, SetKeyOf(negation), CheckingHits(Run(m, e)))
  {
    var key, category := SetKeyOf(negation), CategoryOf(negation);
    after := book;
    ghost var hits := {};
    if category.Some? {
      after := Mark(after, p, Total(category.value), key, book, hits);
      hits := {Total(category.value)};
    }
    if IsCorrect(e.response, negation.Some?) {
      if !description && !structural {
        after := Mark(after, p, TrueValidate, key, book, hits);
        hits := hits + {TrueValidate};
      }
    } else {
      after := MarkWrong(after, p, key, category, description, structural, book, hits);
      hits := hits + WrongHits(description, structural, category);
    }
    assert hits == CheckingHits(Run(m, e));
  }

  lemma SelectedSnoc(runs: seq<Run>, r: Run, correct: bool)
    ensures Selected(runs + [r], correct) == if Correct(r) == correct then Selected(runs, correct) + [r] else Selected(runs, correct)
  {
    assert (runs + [r])[..|runs|] == runs;
  }

  lemma RowsSnoc(runs: seq<Run>, r: Run)
    ensures Rows(runs + [r]) == Rows(runs) + [RowOf(r)]
  {
    assert (runs + [r])[..|runs|] == runs;
  }

  lemma TriggerRowsSnoc(runs: seq<Run>, r: Run, timeouts: bool)
    ensures TriggerRows(runs + [r], timeouts) ==
            if (if timeouts then TimedOut(r) else Failed(r)) then TriggerRows(runs, timeouts) + [TriggerRowOf(r)]
            else TriggerRows(runs, timeouts)
  {
    assert (runs + [r])[..|runs|] == runs;
  }

  lemma ExtendFirst<K, E>(m: map<K, E>, keys: seq<K>, entries: seq<E>, k: K, e: E)
    requires |keys| == |entries| && IsFirstMap(m, keys, entries)
    ensures IsFirstMap(if k in m then m else m[k := e], keys + [k], entries + [e])
  {
    var after, longer, all := if k in m then m else m[k := e], keys + [k], entries + [e];
    forall x | x in after
      ensures exists i :: 0 <= i < |longer| && FirstAt(longer, i, x) && all[i] == after[x]
    {
      if x in m {
        var i :| 0 <= i < |keys| && FirstAt(keys, i, x) && entries[i] == m[x];
        assert FirstAt(longer, i, x) && all[i] == after[x];
      } else {
        assert FirstAt(longer, |keys|, x) && all[|keys|] == after[x];
      }
    }
  }

  /** The summary map holds exactly the entries of the first run per key. */
  lemma {:induction false} FirstEntriesHold(runs: seq<Run>)
    ensures HoldsFirst(FirstEntries(runs), runs)
  {
    if runs != [] {
      var init, last := runs[..|runs| - 1], runs[|runs| - 1];
      FirstEntriesHold(init);
      ExtendFirst(FirstEntries(init), RunKeys(init), RunEntries(init), RunKey(last), EntryOf(last));
    }
  }

  lemma FirstEntriesSnoc(runs: seq<Run>, r: Run)
    ensures FirstEntries(runs + [r]) == AddFirst(FirstEntries(runs), r)
  {
    assert (runs + [r])[..|runs|] == runs;
  }

  /** A list of rows and its summary map over the runs selected for them. */
  ghost predicate Lists(rows: seq<Row>, m: map<Key, Entry>, selected: seq<Run>) {
    rows == Rows(selected) && m == FirstEntries(selected)
  }

  /** One run enters a list and its map. */
  method Enter(rows: seq<Row>, m: map<Key, Entry>, r: Run, ghost selected: seq<Run>)
    returns (rows': seq<Row>, m': map<Key, Entry>)
    requires Lists(rows, m, selected)
    ensures Lists(rows', m', selected + [r])
  {
    RowsSnoc(selected, r);
    FirstEntriesSnoc(selected, r);
    rows' := rows + [RowOf(r)];
    m' := m;
    if RunKey(r) !in m {
      m' := m[RunKey(r) := EntryOf(r)];
    }
  }

  class Validator {
    const messages: seq<Message>
    const projects: set<Project>
    var book: Book
    var matchRows: seq<Row>
    var matchMap: map<Key, Entry>
    var mismatchRows: seq<Row>
    var mismatchMap: map<Key, Entry>
    var timeoutRows: seq<TriggerRow>
    var errorRows: seq<TriggerRow>

    /** The counters and sets of the three passes. */
    ghost predicate KeepsBook(silent: seq<Run>, triggered: seq<Run>, checked: seq<Run>)
      reads this`book
    {
      && Covers(book, projects)
      && Keeps(book, silent, Silence) && Keeps(book, triggered, Triggering) && Keeps(book, checked, Checking)
    }

    ghost predicate KeepsTriggers(runs: seq<Run>)
      reads this`timeoutRows, this`errorRows
    {
      timeoutRows == TriggerRows(runs, true) && errorRows == TriggerRows(runs, false)
    }

    ghost predicate KeepsLists(runs: seq<Run>)
      reads this`matchRows, this`matchMap, this`mismatchRows, this`mismatchMap
    {
      Lists(matchRows, matchMap, Selected(runs, true)) && Lists(mismatchRows, mismatchMap, Selected(runs, false))
    }

    /** Everything counted and listed is what the runs so far call for. */
    ghost predicate Holds(runs: seq<Run>)
      reads this
    {
      KeepsBook(runs, runs, runs) && KeepsTriggers(runs) && KeepsLists(runs)
    }

    constructor (messages: seq<Message>)
      ensures this.messages == messages && projects == ProjectNames(messages)
      ensures Holds(RunsOf([]))
    {
      this.messages, projects := messages, ProjectNames(messages);
      book := map p, c | p in ProjectNames(messages) && c in AllCounters() :: (p, c) := Cell(0, {});
      matchRows, matchMap := [], map[];
      mismatchRows, mismatchMap := [], map[];
      timeoutRows, errorRows := [], [];
      new;
      forall c: Counter
        ensures c in AllCounters()
      {
        EveryCounter(c);
      }
    }

    /** The rows of the third pass over an execution. */
    method List(r: Run, correct: bool, ghost runs: seq<Run>)
      requires correct == Correct(r) && KeepsLists(runs)
      modifies this`matchRows, this`matchMap, this`mismatchRows, this`mismatchMap
      ensures KeepsLists(runs + [r])
    {
      SelectedSnoc(runs, r, true);
      SelectedSnoc(runs, r, false);
      if correct {
        matchRows, matchMap := Enter(matchRows, matchMap, r, Selected(runs, true));
      } else {
        mismatchRows, mismatchMap := Enter(mismatchRows, mismatchMap, r, Selected(runs, false));
      }
    }

    /** The rows of the second pass over an execution. */
    method ListTrigger(r: Run, ghost runs: seq<Run>)
      requires KeepsTriggers(runs)
      modifies this`timeoutRows, this`errorRows
      ensures KeepsTriggers(runs + [r])
    {
      TriggerRowsSnoc(runs, r, true);
      TriggerRowsSnoc(runs, r, false);
      if r.execution.errorName != NoError || IsError(r.execution.response) {
        if r.execution.errorName == Timeout {
          timeoutRows := timeoutRows + [TriggerRowOf(r)];
        } else {
          errorRows := errorRows + [TriggerRowOf(r)];
        }
      }
    }

    /** The first pass over the executions of a message: those without a response. */
    method PassSilence(m: Message, ghost runs: seq<Run>) returns (ok: bool)
      requires KeepsBook(runs, runs, runs)
      modifies this`book
      ensures ok <==> AllCountable(m, projects)
      ensures ok ==> KeepsBook(WithRuns(runs, m, |m.executions|), runs, runs)
    {
      ghost var now := runs;
      for i := 0 to |m.executions|
        invariant now == WithRuns(runs, m, i)
        invariant KeepsBook(now, runs, runs)
        invariant forall j :: 0 <= j < i ==> Countable(m.executions[j], projects)
      {
        var e := m.executions[i];
        if !Countable(e, projects) {
          return false;
        }
        CountSilence(m, e, now, runs, runs);
        now := now + [Run(m, e)];
      }
      return true;
    }

    method CountSilence(m: Message, e: Execution, ghost silent: seq<Run>, ghost triggered: seq<Run>, ghost checked: seq<Run>)
      requires KeepsBook(silent, triggered, checked) && Countable(e, projects)
      modifies this`book
      ensures KeepsBook(silent + [Run(m, e)], triggered, checked)
    {
      ghost var before, hits, p, r := book, {}, e.project.value, Run(m, e);
      if e.response.None? {
        book := Mark(book, e.project.value, NoResponse, SetKeyOf(Negation(m.values)), book, {});
        hits := {NoResponse};
      }
      BookStep(before, book, silent, triggered, checked, r, Silence, p, hits);
    }

    method TriggerOne(m: Message, e: Execution, negation: Option<Value>, description: bool, structural: bool,
                      ghost silent: seq<Run>, ghost runs: seq<Run>, ghost checked: seq<Run>)
      requires negation == Negation(m.values) && Countable(e, projects)
      requires (description <==> CausedBy(negation, Description)) && (structural <==> CausedBy(negation, Structural))
      requires KeepsBook(silent, runs, checked) && KeepsTriggers(runs)
      modifies this`book, this`timeoutRows, this`errorRows
      ensures KeepsBook(silent, runs + [Run(m, e)], checked) && KeepsTriggers(runs + [Run(m, e)])
    {
      ghost var before := book;
      book := CountTrigger(book, e, e.project.value, m, negation, description, structural);
      TriggeringHitsAreHits(Run(m, e));
      BookStep(before, book, silent, runs, checked, Run(m, e), Triggering, e.project.value, TriggeringHits(Run(m, e)));
      ListTrigger(Run(m, e), runs);
    }

    method CheckOne(m: Message, e: Execution, negation: Option<Value>, description: bool, structural: bool,
                    ghost silent: seq<Run>, ghost triggered: seq<Run>, ghost runs: seq<Run>)
      requires negation == Negation(m.values) && Countable(e, projects)
      requires (description <==> CausedBy(negation, Description)) && (structural <==> CausedBy(negation, Structural))
      requires KeepsBook(silent, triggered, runs) && KeepsLists(runs)
      modifies this`book, this`matchRows, this`matchMap, this`mismatchRows, this`mismatchMap
      ensures KeepsBook(silent, triggered, runs + [Run(m, e)]) && KeepsLists(runs + [Run(m, e)])
    {
      ghost var before := book;
      book := CountCheck(book, e, e.project.value, m, negation, description, structural);
      CheckingHitsAreHits(Run(m, e));
      BookStep(before, book, silent, triggered, runs, Run(m, e), Checking, e.project.value, CheckingHits(Run(m, e)));
      List(Run(m, e), IsCorrect(e.response, negation.Some?), runs);
    }

    /** The second pass over the executions of a message. */
    method PassTriggers(m: Message, negation: Option<Value>, description: bool, structural: bool,
                        ghost silent: seq<Run>, ghost runs: seq<Run>)
      requires negation == Negation(m.values) && AllCountable(m, projects)
      requires (description <==> CausedBy(negation, Description)) && (structural <==> CausedBy(negation, Structural))
      requires KeepsBook(silent, runs, runs) && KeepsTriggers(runs)
      modifies this`book, this`timeoutRows, this`errorRows
      ensures KeepsBook(silent, WithRuns(runs, m, |m.executions|), runs)
      ensures KeepsTriggers(WithRuns(runs, m, |m.executions|))
    {
      ghost var now := runs;
      for i := 0 to |m.executions|
        invariant now == WithRuns(runs, m, i)
        invariant KeepsBook(silent, now, runs) && KeepsTriggers(now)
      {
        var e := m.executions[i];
        TriggerOne(m, e, negation, description, structural, silent, now, runs);
        now := now + [Run(m, e)];
      }
    }

    /** The third pass over the executions of a message. */
    method PassChecks(m: Message, negation: Option<Value>, description: bool, structural: bool,
                      ghost silent: seq<Run>, ghost triggered: seq<Run>, ghost runs: seq<Run>)
      requires negation == Negation(m.values) && AllCountable(m, projects)
      requires (description <==> CausedBy(negation, Description)) && (structural <==> CausedBy(negation, Structural))
      requires KeepsBook(silent, triggered, runs) && KeepsLists(runs)
      modifies this`book, this`matchRows, this`matchMap, this`mismatchRows, this`mismatchMap
      ensures KeepsBook(silent, triggered, WithRuns(runs, m, |m.executions|))
      ensures KeepsLists(WithRuns(runs, m, |m.executions|))
    {
      ghost var now := runs;
      for i := 0 to |m.executions|
        invariant now == WithRuns(runs, m, i)
        invariant KeepsBook(silent, triggered, now) && KeepsLists(now)
      {
        var e := m.executions[i];
        CheckOne(m, e, negation, description, structural, silent, triggered, now);
        now := now + [Run(m, e)];
      }
    }

    /** What one marked run does to the book, whichever pass it belongs to. */
    lemma BookStep(before: Book, after: Book, silent: seq<Run>, triggered: seq<Run>, checked: seq<Run>,
                   r: Run, phase: Phase, p: Project, hits: set<Counter>)
      requires Marks(before, after, p, SetKeyOf(NegationOf(r)), hits) && IsHits(hits, r, phase) && Of(r, p)
      requires Covers(before, projects)
      requires Keeps(before, silent, Silence) && Keeps(before, triggered, Triggering) && Keeps(before, checked, Checking)
      ensures Covers(after, projects)
      ensures Keeps(after, if phase == Silence then silent + [r] else silent, Silence)
      ensures Keeps(after, if phase == Triggering then triggered + [r] else triggered, Triggering)
      ensures Keeps(after, if phase == Checking then checked + [r] else checked, Checking)
    {
      MarksCover(before, after, p, SetKeyOf(NegationOf(r)), hits, projects);
      if phase == Silence {
        MarksKeep(before, after, silent, r, phase, p, hits);
      } else {
        MarksKeepOthers(before, after, silent, r, phase, p, hits, Silence);
      }
      if phase == Triggering {
        MarksKeep(before, after, triggered, r, phase, p, hits);
      } else {
        MarksKeepOthers(before, after, triggered, r, phase, p, hits, Triggering);
      }
      if phase == Checking {
        MarksKeep(before, after, checked, r, phase, p, hits);
      } else {
        MarksKeepOthers(before, after, checked, r, phase, p, hits, Checking);
      }
    }

    method AnalyseMessage(m: Message, ghost done: seq<Message>) returns (ok: bool)
      requires Holds(RunsOf(done))
      modifies this
      ensures ok <==> Fits(m, projects)
      ensures ok ==> Holds(RunsOf(done + [m]))
    {
      ghost var runs, all := RunsOf(done), RunsOf(done + [m]);
      RunsSnoc(done, m);
      ok := PassSilence(m, runs);
      if !ok {
        return;
      }
      var known, negation := FindNegation(m.values);
      if !known {
        return false;
      }
      var description, structural := false, false;
      if negation.Some? {
        description, structural := BaseOf(negation.value.causes);
      }
      PassTriggers(m, negation, description, structural, all, runs);
      PassChecks(m, negation, description, structural, all, all, runs);
    }

    /** The analysis; it gives up on an unknown category, an unknown project or an unreadable response. */
    method Analysis() returns (ok: bool)
      requires Holds(RunsOf([]))
      modifies this
      ensures ok <==> AllFit(messages, projects)
      ensures ok ==> Holds(RunsOf(messages))
    {
      ghost var done := [];
      for i := 0 to |messages|
        invariant done == messages[..i] && AllFit(done, projects)
        invariant Holds(RunsOf(done))
      {
        ok := AnalyseMessage(messages[i], done);
        if !ok {
          return;
        }
        done := done + [messages[i]];
      }
      assert done == messages;
      ok := true;
    }
  }

  ghost predicate AllFit(messages: seq<Message>, projects: set<Project>) {
    forall i :: 0 <= i < |messages| ==> Fits(messages[i], projects)
  }

  lemma RunsSnoc(messages: seq<Message>, m: Message)
    ensures RunsOf(messages + [m]) == WithRuns(RunsOf(messages), m, |m.executions|)
  {
    assert (messages + [m])[..|messages|] == messages;
  }
}
