/** What every run of TransactionEvent handlers, over any number of charge points, keeps true of the table. */
module LedgerRuns {
  import opened Wrappers
  import opened Ledger

  /** One handler call: who sent the event, the event, and what the environment answered. */
  datatype Input = Input(chargePoint: string, event: Event, env: Env)

  ghost function Step(rows: seq<Row>, x: Input): seq<Row> {
    Next(rows, x.chargePoint, x.event, x.env)
  }

  ghost function Run(rows: seq<Row>, inputs: seq<Input>): seq<Row>
    decreases |inputs|
  {
    if inputs == [] then rows else Run(Step(rows, inputs[0]), inputs[1..])
  }

  // ----- the table only grows, and only in the allowed places -----

  ghost predicate SameStart(a: Row, b: Row) {
    && a.uid == b.uid && a.chargePoint == b.chargePoint && a.connector == b.connector && a.startTag == b.startTag
    && a.startTime == b.startTime && a.meterStart == b.meterStart && a.startReason == b.startReason
  }

  /** Rows stay where they are with their start fields; a closed row stays as it is. */
  ghost predicate Evolves(a: seq<Row>, b: seq<Row>) {
    && |a| <= |b|
    && forall i :: 0 <= i < |a| ==> SameStart(a[i], b[i]) && (!a[i].Open() ==> b[i] == a[i])
  }

  lemma StepEvolves(rows: seq<Row>, x: Input)
    ensures Evolves(rows, Step(rows, x))
  {
  }

  lemma {:induction false} RunEvolves(rows: seq<Row>, inputs: seq<Input>)
    ensures Evolves(rows, Run(rows, inputs))
    decreases |inputs|
  {
    if inputs != [] {
      StepEvolves(rows, inputs[0]);
      RunEvolves(Step(rows, inputs[0]), inputs[1..]);
    }
  }

  /** An existing row changes only when its own charge point sends an event for it while it is the newest with its Uid. */
  lemma StepIsLocal(rows: seq<Row>, x: Input, i: nat)
    requires i < |rows| && Step(rows, x)[i] != rows[i]
    ensures x.event.Event? && rows[i].uid == Some(x.event.uid) && rows[i].chargePoint == x.chargePoint
    ensures rows[i].Open() && !Overtaken(rows, i) && x.event.kind != Started
  {
  }

  /**
   An open row is closed by an event exactly when the event is an Ended of its own charge point with meter
   values, the row is the newest with that Uid, and its start tag is present and lets the sent tag stop.
   */
  lemma StepClosesIff(rows: seq<Row>, x: Input, i: nat)
    requires i < |rows| && rows[i].Open()
    ensures i < |Step(rows, x)|
    ensures !Step(rows, x)[i].Open() <==>
            (&& x.event.Event? && x.event.kind == Ended && x.event.meterValues.Some?
             && rows[i].uid == Some(x.event.uid) && !Overtaken(rows, i)
             && rows[i].chargePoint == x.chargePoint
             && rows[i].startTag.Some?
             && MayStop(x.env, rows[i].startTag.value, CleanTag(x.event.rawTag)))
  {
    if x.event.Event? && rows[i].uid == Some(x.event.uid) && !Overtaken(rows, i) {
      assert Newest(rows, x.event.uid) == Some(i);
    }
  }

  // ----- at most one open transaction per tag -----

  ghost predicate OneOpenPerTag(rows: seq<Row>) {
    forall i, j :: 0 <= i < j < |rows| && rows[i].Open() && rows[j].Open() ==> rows[i].startTag != rows[j].startTag
  }

  ghost predicate DeniesConcurrent(inputs: seq<Input>) {
    forall k :: 0 <= k < |inputs| ==> inputs[k].env.denyConcurrent
  }

  lemma StepKeepsOneOpen(rows: seq<Row>, x: Input)
    requires OneOpenPerTag(rows) && x.env.denyConcurrent
    ensures OneOpenPerTag(Step(rows, x))
  {
  }

  lemma {:induction false} RunKeepsOneOpen(rows: seq<Row>, inputs: seq<Input>)
    requires OneOpenPerTag(rows) && DeniesConcurrent(inputs)
    ensures OneOpenPerTag(Run(rows, inputs))
    decreases |inputs|
  {
    if inputs != [] {
      StepKeepsOneOpen(rows, inputs[0]);
      RunKeepsOneOpen(Step(rows, inputs[0]), inputs[1..]);
    }
  }

  /** A step breaks the invariant exactly when it opens a row for a tag that has one open already. */
  lemma StepBreaksOneOpenIff(rows: seq<Row>, x: Input)
    requires OneOpenPerTag(rows)
    ensures !OneOpenPerTag(Step(rows, x)) <==>
            Opens(rows, x.event, x.env) && HasOpen(rows, CleanTag(x.event.rawTag))
  {
    var after := Step(rows, x);
    if Opens(rows, x.event, x.env) && HasOpen(rows, CleanTag(x.event.rawTag)) {
      var i :| 0 <= i < |rows| && rows[i].Open() && rows[i].startTag == CleanTag(x.event.rawTag);
      assert after[i] == rows[i] && after[|rows|].startTag == rows[i].startTag;
    }
  }

  // ----- which open rows can still be closed -----

  /** A newer row carries the same Uid. */
  ghost predicate Overtaken(rows: seq<Row>, i: nat)
    requires i < |rows|
  {
    exists j :: i < j < |rows| && rows[j].uid == rows[i].uid
  }

  lemma StepLeavesOvertaken(rows: seq<Row>, x: Input, i: nat)
    requires i < |rows| && Overtaken(rows, i)
    ensures i < |Step(rows, x)| && Step(rows, x)[i] == rows[i] && Overtaken(Step(rows, x), i)
  {
    var j :| i < j < |rows| && rows[j].uid == rows[i].uid;
    assert Step(rows, x)[j].uid == rows[j].uid;
  }

  /** An overtaken row is frozen: open or closed, it stays as it is in every run. */
  lemma {:induction false} RunFreezesOvertaken(rows: seq<Row>, inputs: seq<Input>, i: nat)
    requires i < |rows| && Overtaken(rows, i)
    ensures i < |Run(rows, inputs)| && Run(rows, inputs)[i] == rows[i]
    decreases |inputs|
  {
    if inputs != [] {
      StepLeavesOvertaken(rows, inputs[0], i);
      RunFreezesOvertaken(Step(rows, inputs[0]), inputs[1..], i);
    }
  }

  lemma {:induction false} RunNeverClosesUntagged(rows: seq<Row>, inputs: seq<Input>, i: nat)
    requires i < |rows| && rows[i].Open() && rows[i].startTag.None?
    ensures i < |Run(rows, inputs)| && Run(rows, inputs)[i].Open()
    decreases |inputs|
  {
    if inputs != [] {
      StepEvolves(rows, inputs[0]);
      RunNeverClosesUntagged(Step(rows, inputs[0]), inputs[1..], i);
    }
  }

  /** An Ended event of the owner, sent without a tag, in an environment whose tag table is empty. */
  ghost function Release(row: Row): Input
    requires row.uid.Some?
  {
    Input(row.chargePoint, Event(Ended, None, row.uid.value, row.connector, Some([]), row.startTime, "released"),
          Env(map[], 0, true, [], (s: string) => s))
  }

  lemma ReleaseCloses(rows: seq<Row>, i: nat)
    requires i < |rows| && rows[i].Open() && rows[i].uid.Some? && rows[i].startTag.Some? && !Overtaken(rows, i)
    ensures i < |Step(rows, Release(rows[i]))| && !Step(rows, Release(rows[i]))[i].Open()
  {
    var x := Release(rows[i]);
    assert Newest(rows, rows[i].uid.value) == Some(i);
    assert CleanTag(x.event.rawTag) == None;
    assert Closes(rows, x.chargePoint, x.event, x.env);
  }

  /** An Ended event of the owner, sent with the start tag. */
  ghost function OwnStop(row: Row, env: Env): Input
    requires row.uid.Some?
  {
    Input(row.chargePoint, Event(Ended, row.startTag, row.uid.value, row.connector, Some([]), row.startTime, "stopped"), env)
  }

  /** A tag that cleaning leaves alone; cleaned tags are such, so every start tag that the handler stores is. */
  ghost predicate IsClean(tag: Option<string>) {
    CleanTag(tag) == tag
  }

  lemma CleanedIsClean(raw: Option<string>)
    ensures IsClean(CleanTag(raw))
  {
    if raw.Some? {
      NoUnderscoreStays(CleanTag(raw).value);
    }
  }

  lemma {:induction false} NoUnderscoreStays(s: string)
    requires '_' !in s
    ensures UpToUnderscore(s) == s
  {
    if s != "" {
      assert s[0] in s;
      NoUnderscoreStays(s[1..]);
    }
  }

  /** Whatever the tag table, the clock, the extensions and the settings are, the owner can close such a row. */
  lemma OwnStopCloses(rows: seq<Row>, i: nat, env: Env)
    requires i < |rows| && rows[i].Open() && rows[i].uid.Some? && rows[i].startTag.Some? && !Overtaken(rows, i)
    requires IsClean(rows[i].startTag)
    ensures i < |Step(rows, OwnStop(rows[i], env))| && !Step(rows, OwnStop(rows[i], env))[i].Open()
  {
    var x := OwnStop(rows[i], env);
    assert SameTag(env, rows[i].startTag.value, CleanTag(x.event.rawTag));
    if rows[i].startTag.value == "" {
      assert StopStatus(env, CleanTag(x.event.rawTag)) == Accepted;
    }
    StepClosesIff(rows, x, i);
  }

  /** In every environment, some event closes an open row exactly when some run in some environment does. */
  lemma ClosableAnywhereIff(rows: seq<Row>, i: nat, env: Env)
    requires i < |rows| && rows[i].Open() && IsClean(rows[i].startTag)
    ensures (exists p: string, e: Event :: i < |Step(rows, Input(p, e, env))| && !Step(rows, Input(p, e, env))[i].Open()) <==>
            rows[i].uid.Some? && rows[i].startTag.Some? && !Overtaken(rows, i)
  {
    if rows[i].uid.Some? && rows[i].startTag.Some? && !Overtaken(rows, i) {
      OwnStopCloses(rows, i, env);
      var x := OwnStop(rows[i], env);
      assert x == Input(x.chargePoint, x.event, env);
    }
    forall p: string, e: Event | i < |Step(rows, Input(p, e, env))| && !Step(rows, Input(p, e, env))[i].Open()
      ensures rows[i].uid.Some? && rows[i].startTag.Some? && !Overtaken(rows, i)
    {
      StepClosesIff(rows, Input(p, e, env), i);
    }
  }

  /** Some run closes an open row exactly when it has a Uid and a start tag and no newer row has its Uid. */
  lemma ClosableIff(rows: seq<Row>, i: nat)
    requires i < |rows| && rows[i].Open()
    ensures (exists inputs :: i < |Run(rows, inputs)| && !Run(rows, inputs)[i].Open()) <==>
            rows[i].uid.Some? && rows[i].startTag.Some? && !Overtaken(rows, i)
  {
    if rows[i].uid.Some? && rows[i].startTag.Some? && !Overtaken(rows, i) {
      ReleaseCloses(rows, i);
      var x := Release(rows[i]);
      assert Run(rows, [x]) == Run(Step(rows, x), []);
    }
    forall inputs | i < |Run(rows, inputs)| && !Run(rows, inputs)[i].Open()
      ensures rows[i].uid.Some? && rows[i].startTag.Some? && !Overtaken(rows, i)
    {
      if rows[i].startTag.None? {
        RunNeverClosesUntagged(rows, inputs, i);
      } else if rows[i].uid.None? {
        RunNeverClosesWithoutUid(rows, inputs, i);
      } else if Overtaken(rows, i) {
        RunFreezesOvertaken(rows, inputs, i);
      }
    }
  }

  lemma {:induction false} RunNeverClosesWithoutUid(rows: seq<Row>, inputs: seq<Input>, i: nat)
    requires i < |rows| && rows[i].uid.None?
    ensures i < |Run(rows, inputs)| && Run(rows, inputs)[i] == rows[i]
    decreases |inputs|
  {
    if inputs != [] {
      RunNeverClosesWithoutUid(Step(rows, inputs[0]), inputs[1..], i);
    }
  }

  /** The owner can stop with the tag that started, whatever the extensions, the tag table and the clock say. */
  lemma StartTagAlwaysStops(rows: seq<Row>, i: nat, x: Input)
    requires i < |rows| && rows[i].Open() && !Overtaken(rows, i)
    requires rows[i].startTag.Some? && rows[i].startTag.value != ""
    requires x.chargePoint == rows[i].chargePoint
    requires x.event.Event? && x.event.kind == Ended && x.event.meterValues.Some? && rows[i].uid == Some(x.event.uid)
    requires SameTag(x.env, rows[i].startTag.value, CleanTag(x.event.rawTag))
    ensures Step(rows, x) == rows[i := ClosedRow(rows[i], x.event)]
  {
    assert Newest(rows, x.event.uid) == Some(i);
    assert Closes(rows, x.chargePoint, x.event, x.env);
  }

  // ----- conservation -----

  ghost function OpenRows(rows: seq<Row>): nat {
    if rows == [] then 0 else OpenRows(rows[..|rows| - 1]) + if rows[|rows| - 1].Open() then 1 else 0
  }

  ghost function OpenedIn(rows: seq<Row>, inputs: seq<Input>): nat
    decreases |inputs|
  {
    if inputs == [] then 0
    else (if Opens(rows, inputs[0].event, inputs[0].env) then 1 else 0) + OpenedIn(Step(rows, inputs[0]), inputs[1..])
  }

  ghost function ClosedIn(rows: seq<Row>, inputs: seq<Input>): nat
    decreases |inputs|
  {
    if inputs == [] then 0
    else (if Closes(rows, inputs[0].chargePoint, inputs[0].event, inputs[0].env) then 1 else 0)
         + ClosedIn(Step(rows, inputs[0]), inputs[1..])
  }

  lemma {:induction false} OpenRowsUpdate(rows: seq<Row>, i: nat, row: Row)
    requires i < |rows|
    ensures OpenRows(rows[i := row]) ==
            OpenRows(rows) - (if rows[i].Open() then 1 else 0) + (if row.Open() then 1 else 0)
  {
    var n := |rows| - 1;
    if i < n {
      assert rows[i := row][..n] == rows[..n][i := row];
      OpenRowsUpdate(rows[..n], i, row);
    } else {
      assert rows[i := row][..n] == rows[..n];
    }
  }

  lemma StepCounts(rows: seq<Row>, x: Input)
    ensures OpenRows(Step(rows, x)) == OpenRows(rows) + (if Opens(rows, x.event, x.env) then 1 else 0)
                                       - (if Closes(rows, x.chargePoint, x.event, x.env) then 1 else 0)
    ensures |Step(rows, x)| == |rows| + if Opens(rows, x.event, x.env) then 1 else 0
  {
    if Opens(rows, x.event, x.env) {
      assert Step(rows, x)[..|rows|] == rows;
    } else if Meters(rows, x.chargePoint, x.event) {
      var i := Target(rows, x.chargePoint, x.event.uid).value;
      OpenRowsUpdate(rows, i, rows[i].(meterStop := Some(MeterOf(x.event))));
    } else if Closes(rows, x.chargePoint, x.event, x.env) {
      var i := Target(rows, x.chargePoint, x.event.uid).value;
      OpenRowsUpdate(rows, i, ClosedRow(rows[i], x.event));
    }
  }

  /** Every transaction that is opened in a run is closed once or still open at its end. */
  lemma {:induction false} RunConserves(rows: seq<Row>, inputs: seq<Input>)
    ensures |Run(rows, inputs)| == |rows| + OpenedIn(rows, inputs)
    ensures OpenRows(rows) + OpenedIn(rows, inputs) == OpenRows(Run(rows, inputs)) + ClosedIn(rows, inputs)
    decreases |inputs|
  {
    if inputs != [] {
      StepCounts(rows, inputs[0]);
      RunConserves(Step(rows, inputs[0]), inputs[1..]);
    }
  }
}
