/** What the TransactionEvent handler demands, stores and answers, in terms of the event, the tag table and the clock. */
module LedgerLaws {
  import opened Wrappers
  import opened Text
  import opened Ledger
  import Extensions
  import MeterValues

  // ----- who is let in -----

  /** A known tag that is not blocked and has not expired. */
  predicate IsGood(t: ChargeTag, now: int) {
    t.blocked != Some(true) && (t.expiry.None? || t.expiry.value >= now)
  }

  /** The first extension that answers decides; only without an answer does the tag table. */
  predicate Admits(env: Env, tag: Option<string>) {
    match Extensions.FirstAnswer(env.answers)
    case Some(allowed) => allowed
    case None => tag.Some? && tag.value in env.tags && IsGood(env.tags[tag.value], env.now)
  }

  /** A row is opened exactly by a Started event with meter values whose tag is let in and not refused as concurrent. */
  lemma OpensIff(rows: seq<Row>, e: Event, env: Env)
    ensures Opens(rows, e, env) <==>
            && e.Event? && e.kind == Started && e.meterValues.Some? && Admits(env, CleanTag(e.rawTag))
            && (env.denyConcurrent ==>
                  forall i :: 0 <= i < |rows| ==> !(rows[i].stopTime.None? && rows[i].startTag == CleanTag(e.rawTag)))
  {
  }

  /** What stands in the way of a tag, and the status that it is answered with. */
  ghost predicate Refused(env: Env, tag: Option<string>, status: Status) {
    match Extensions.FirstAnswer(env.answers)
    case Some(allowed) => !allowed && status == Invalid
    case None =>
      if tag.None? || tag.value !in env.tags then status == Unknown
      else
        var t := env.tags[tag.value];
        || (t.blocked == Some(true) && status == Blocked)
        || (t.blocked != Some(true) && t.expiry.Some? && t.expiry.value < env.now && status == Expired)
  }

  lemma RefusedIff(env: Env, tag: Option<string>)
    ensures Admits(env, tag) <==> forall status :: !Refused(env, tag, status)
    ensures forall a, b :: Refused(env, tag, a) && Refused(env, tag, b) ==> a == b
  {
    if !Admits(env, tag) {
      assert Refused(env, tag, Invalid) || Refused(env, tag, Unknown) || Refused(env, tag, Blocked) || Refused(env, tag, Expired);
    }
  }

  /** The answer to a Started event: Accepted when it opens a row, ConcurrentTx when only that stands in the way. */
  lemma StartAnswer(rows: seq<Row>, chargePoint: string, e: Event, env: Env)
    requires e.Event? && e.kind == Started && e.meterValues.Some?
    ensures var reply := Answer(rows, chargePoint, e, env);
            && reply.status.Some? && reply.group.None? && reply.error.None?
            && (reply.status.value == Accepted <==> Opens(rows, e, env))
            && (reply.status.value == ConcurrentTx <==> Admits(env, CleanTag(e.rawTag)) && !Opens(rows, e, env))
            && (!Admits(env, CleanTag(e.rawTag)) ==> Refused(env, CleanTag(e.rawTag), reply.status.value))
  {
  }

  // ----- who may stop -----

  /** A stop is accepted without a tag, or with one that is let in. */
  lemma StopStatusIff(env: Env, tag: Option<string>)
    ensures StopStatus(env, tag) == Accepted <==> IsBlank(tag) || Admits(env, tag)
    ensures StopStatus(env, tag) != Accepted ==> Refused(env, tag, StopStatus(env, tag))
  {
  }

  predicate SameIgnoringCase(env: Env, a: string, b: Option<string>) {
    b.Some? && env.fold(a) == env.fold(b.value)
  }

  /** The parent group of a tag that was looked up locally, unless it is blank. */
  ghost predicate HasGroup(env: Env, tag: Option<string>, group: string) {
    && !IsBlank(tag) && Extensions.FirstAnswer(env.answers).None? && tag.value in env.tags
    && env.tags[tag.value].parent == Some(group) && !IsBlank(Some(group))
  }

  lemma GroupIff(env: Env, tag: Option<string>, group: string)
    ensures StopGroup(env, tag) == Some(group) <==> HasGroup(env, tag, group)
  {
  }

  /**
   A tag may stop a transaction exactly when it is the start tag, ignoring case, or it is accepted and the start tag is
   unknown or has the same parent group, two absent groups being the same. An empty start tag has to be accepted too.
   */
  lemma MayStopIff(env: Env, startTag: string, tag: Option<string>)
    ensures MayStop(env, startTag, tag) <==>
            || (SameIgnoringCase(env, startTag, tag) && (startTag != "" || IsBlank(tag) || Admits(env, tag)))
            || (&& (IsBlank(tag) || Admits(env, tag))
                && (|| startTag !in env.tags
                    || (env.tags[startTag].parent.None? && forall g :: !HasGroup(env, tag, g))
                    || (env.tags[startTag].parent.Some?
                        && exists g :: HasGroup(env, tag, g) && env.fold(env.tags[startTag].parent.value) == env.fold(g))))
  {
    StopStatusIff(env, tag);
    var group := StopGroup(env, tag);
    if group.Some? {
      GroupIff(env, tag, group.value);
    }
    forall g
      ensures StopGroup(env, tag) == Some(g) <==> HasGroup(env, tag, g)
    {
      GroupIff(env, tag, g);
    }
  }

  // ----- what is stored -----

  /** The energy reading of an event in kWh, or -1 without one. */
  function Reading(e: Event): real
    requires e.Event? && e.meterValues.Some?
  {
    MeterValues.ReadingsOf(MeterValues.Flat(e.meterValues.value)).meterKWH
  }

  /** An opened row holds what the event says, with the cleaned tag, and is open; the rows before it stay. */
  lemma OpenedRow(rows: seq<Row>, chargePoint: string, e: Event, env: Env)
    requires Opens(rows, e, env)
    ensures var after := Next(rows, chargePoint, e, env);
            && |after| == |rows| + 1 && after[..|rows|] == rows
            && var r := after[|rows|];
            && r.uid == Some(e.uid) && r.chargePoint == chargePoint && r.connector == e.connector
            && r.startTag == CleanTag(e.rawTag) && r.startTime == e.timestamp && r.meterStart == Reading(e)
            && r.startReason == e.trigger
            && r.stopTag.None? && r.stopTime.None? && r.meterStop.None? && r.stopReason.None?
  {
  }

  /** A row is touched by an Updated or Ended event only as the newest with the Uid, still open, of the sender. */
  ghost predicate IsTarget(rows: seq<Row>, chargePoint: string, e: Event, i: nat) {
    && e.Event? && i < |rows| && rows[i].uid == Some(e.uid) && rows[i].chargePoint == chargePoint && rows[i].stopTime.None?
    && forall j :: i < j < |rows| ==> rows[j].uid != Some(e.uid)
  }

  lemma TargetIff(rows: seq<Row>, chargePoint: string, e: Event, i: nat)
    requires e.Event?
    ensures Target(rows, chargePoint, e.uid) == Some(i) <==> IsTarget(rows, chargePoint, e, i)
  {
  }

  /** A closed row keeps its start and gets the event's time, tag, reading and reason; the other rows stay. */
  lemma ClosedRowIs(rows: seq<Row>, chargePoint: string, e: Event, env: Env, i: nat)
    requires Closes(rows, chargePoint, e, env) && IsTarget(rows, chargePoint, e, i)
    ensures var after := Next(rows, chargePoint, e, env);
            && |after| == |rows| && (forall j :: 0 <= j < |rows| && j != i ==> after[j] == rows[j])
            && after[i].stopTime == Some(e.timestamp) && after[i].stopTag == CleanTag(e.rawTag)
            && after[i].meterStop == Some(Reading(e)) && after[i].stopReason == Some(e.trigger)
            && after[i].uid == rows[i].uid && after[i].chargePoint == rows[i].chargePoint
            && after[i].connector == rows[i].connector && after[i].startTag == rows[i].startTag
            && after[i].startTime == rows[i].startTime && after[i].meterStart == rows[i].meterStart
            && after[i].startReason == rows[i].startReason
  {
    TargetIff(rows, chargePoint, e, i);
  }

  /** An Updated event stores a reading that is not negative in its target, and changes nothing else. */
  lemma MeteredRow(rows: seq<Row>, chargePoint: string, e: Event, env: Env, i: nat)
    requires e.Event? && e.kind == Updated && e.meterValues.Some? && IsTarget(rows, chargePoint, e, i)
    ensures Next(rows, chargePoint, e, env) ==
            if Reading(e) >= 0.0 then rows[i := rows[i].(meterStop := Some(Reading(e)))] else rows
  {
    TargetIff(rows, chargePoint, e, i);
  }

  /** Without a target, an Updated or Ended event changes nothing and is answered with an error. */
  lemma NoTarget(rows: seq<Row>, chargePoint: string, e: Event, env: Env)
    requires e.Event? && e.kind != Started && e.meterValues.Some?
    requires forall i: nat :: !IsTarget(rows, chargePoint, e, i)
    ensures Next(rows, chargePoint, e, env) == rows
    ensures Answer(rows, chargePoint, e, env) ==
            Reply(if e.kind == Ended then Some(Accepted) else None, None, Some(PropertyConstraintViolation))
  {
    if Target(rows, chargePoint, e.uid).Some? {
      TargetIff(rows, chargePoint, e, Target(rows, chargePoint, e.uid).value);
    }
  }

  /** The answer to an Ended event with a target: Accepted when the row is closed, otherwise what stood in the way. */
  lemma EndAnswer(rows: seq<Row>, chargePoint: string, e: Event, env: Env, i: nat)
    requires e.Event? && e.kind == Ended && e.meterValues.Some? && IsTarget(rows, chargePoint, e, i)
    ensures var reply := Answer(rows, chargePoint, e, env);
            && reply.status.Some? && reply.error.None?
            && (reply.status.value == Accepted <==> Closes(rows, chargePoint, e, env))
            && (forall g :: reply.group == Some(g) <==> HasGroup(env, CleanTag(e.rawTag), g))
            && (!Closes(rows, chargePoint, e, env) ==>
                  if IsBlank(CleanTag(e.rawTag)) || Admits(env, CleanTag(e.rawTag)) then reply.status.value == Invalid
                  else Refused(env, CleanTag(e.rawTag), reply.status.value))
  {
    TargetIff(rows, chargePoint, e, i);
    StopStatusIff(env, CleanTag(e.rawTag));
    forall g
      ensures StopGroup(env, CleanTag(e.rawTag)) == Some(g) <==> HasGroup(env, CleanTag(e.rawTag), g)
    {
      GroupIff(env, CleanTag(e.rawTag), g);
    }
  }

  /** An event that cannot be read, or has no meter values, changes nothing and is answered with an error. */
  lemma UnreadableEvent(rows: seq<Row>, chargePoint: string, e: Event, env: Env)
    requires e.Malformed? || e.meterValues.None?
    ensures Next(rows, chargePoint, e, env) == rows
    ensures Answer(rows, chargePoint, e, env) == Reply(None, None, Some(FormationViolation))
  {
  }

  // ----- readings -----

  /** Energy counts in kWh, power in kW: a reading without a unit, or in a unit without kilo, is a thousandth of that. */
  lemma SampleIsRead(flat: seq<MeterValues.Stamped>, s: MeterValues.Stamped)
    ensures var before, after := MeterValues.ReadingsOf(flat), MeterValues.ReadingsOf(flat + [s]);
            match s.sample.measurand
            case Some(EnergyActiveImportRegister) => after == before.(meterKWH := InKilo(s, "Wh", "VAh", "varh"), meterTime := Some(s.timestamp))
            case Some(Missing) => after == before.(meterKWH := InKilo(s, "Wh", "VAh", "varh"), meterTime := Some(s.timestamp))
            case Some(PowerActiveImport) => after == before.(currentChargeKW := InKilo(s, "W", "VA", "var"))
            case Some(SoC) => after == before.(stateOfCharge := s.sample.value)
            case Some(OtherMeasurand(_)) => after == before
            case None => after == before
  {
    MeterValues.AppendSample(flat, s);
  }

  function InKilo(s: MeterValues.Stamped, a: string, b: string, c: string): real {
    if s.sample.unit.None? || s.sample.unit.value in {a, b, c} then s.sample.value / 1000.0 else s.sample.value
  }

  /** Without samples every reading is -1 and has no time. */
  lemma NothingRead()
    ensures MeterValues.ReadingsOf([]) == MeterValues.Readings(-1.0, -1.0, -1.0, None)
  {
  }
}
