/** The charging-transaction table of OCPP.Core and the TransactionEvent handler that drives it. */
module Ledger {
  import opened Wrappers
  import opened Text
  import Extensions
  import MeterValues

  /**
   A row of the Transactions table. TransactionId is the row's position: the database hands
   ids out in insertion order and no handler deletes a row.
   */
  datatype Row = Row(
    uid: Option<string>, chargePoint: string, connector: int,
    startTag: Option<string>, startTime: int, meterStart: real, startReason: string,
    stopTag: Option<string>, stopTime: Option<int>, meterStop: Option<real>, stopReason: Option<string>)
  {
    predicate Open() {
      stopTime.None?
    }
  }

  datatype ChargeTag = ChargeTag(parent: Option<string>, expiry: Option<int>, blocked: Option<bool>)

  datatype Status = Accepted | Blocked | ConcurrentTx | Expired | Invalid | Unknown

  datatype ErrorCode = FormationViolation | PropertyConstraintViolation

  datatype Kind = Started | Updated | Ended

  /** A request that does not deserialize is `Malformed`; an absent meterValue list stays an option. */
  datatype Event =
    | Malformed
    | Event(kind: Kind, rawTag: Option<string>, uid: string, connector: int,
            meterValues: Option<seq<MeterValues.MeterValue>>, timestamp: int, trigger: string)

  /**
   What the handler reads besides the event: the tag table, the clock, the DenyConcurrentTx
   setting, what each extension answers, and the key under which two strings are equal for
   StringComparison.InvariantCultureIgnoreCase.
   */
  datatype Env = Env(tags: map<string, ChargeTag>, now: int, denyConcurrent: bool,
                     answers: seq<Extensions.Answer>, fold: string -> string)

  datatype Reply = Reply(status: Option<Status>, group: Option<string>, error: Option<ErrorCode>)

  /** CleanChargeTagId: a tag is cut at its first underscore, unless it is blank. */
  function CleanTag(raw: Option<string>): (tag: Option<string>)
    ensures tag.None? <==> raw.None?
    ensures tag.Some? ==> tag.value <= raw.value && '_' !in tag.value
    ensures tag.Some? && tag != raw ==> |tag.value| < |raw.value| && raw.value[|tag.value|] == '_'
  {
    if IsBlank(raw) then raw else Some(UpToUnderscore(raw.value))
  }

  function UpToUnderscore(s: string): (r: string)
    ensures r <= s && '_' !in r
    ensures r != s ==> |r| < |s| && s[|r|] == '_'
  {
    if s == "" || s[0] == '_' then "" else [s[0]] + UpToUnderscore(s[1..])
  }

  function MeterOf(e: Event): real
    requires e.Event? && e.meterValues.Some?
  {
    MeterValues.ReadingsOf(MeterValues.Flat(e.meterValues.value)).meterKWH
  }

  /** The newest row with a Uid, whichever charge point owns it. */
  function Newest(rows: seq<Row>, uid: string): (r: Option<nat>)
    ensures r.None? <==> forall i :: 0 <= i < |rows| ==> rows[i].uid != Some(uid)
    ensures r.Some? ==> r.value < |rows| && rows[r.value].uid == Some(uid)
    ensures r.Some? ==> forall j :: r.value < j < |rows| ==> rows[j].uid != Some(uid)
  {
    if rows == [] then None
    else if rows[|rows| - 1].uid == Some(uid) then Some(|rows| - 1)
    else Newest(rows[..|rows| - 1], uid)
  }

  /** The row an Updated or Ended event may touch: newest with the Uid, owned by the sender, still open. */
  function Target(rows: seq<Row>, chargePoint: string, uid: string): (r: Option<nat>)
    ensures r.Some? ==> r.value < |rows|
  {
    var newest := Newest(rows, uid);
    if newest.Some? && rows[newest.value].chargePoint == chargePoint && rows[newest.value].Open() then newest
    else None
  }

  function Lookup(tags: map<string, ChargeTag>, tag: Option<string>): Option<ChargeTag> {
    if tag.Some? && tag.value in tags then Some(tags[tag.value]) else None
  }

  function LocalStatus(tag: Option<ChargeTag>, now: int): Status {
    if tag.None? then Unknown
    else if tag.value.blocked == Some(true) then Blocked
    else if tag.value.expiry.Some? && tag.value.expiry.value < now then Expired
    else Accepted
  }

  /** Extensions decide first; the tag table is asked only when none of them answers. */
  function Authorized(env: Env, tag: Option<string>): Status {
    match Extensions.FirstAnswer(env.answers)
    case Some(allowed) => if allowed then Accepted else Invalid
    case None => LocalStatus(Lookup(env.tags, tag), env.now)
  }

  ghost predicate HasOpen(rows: seq<Row>, tag: Option<string>) {
    exists i :: 0 <= i < |rows| && rows[i].Open() && rows[i].startTag == tag
  }

  // ----- the three outcomes, stated as conditions on the inputs -----

  /** A Started event inserts a row. */
  ghost predicate Opens(rows: seq<Row>, e: Event, env: Env) {
    && e.Event? && e.kind == Started && e.meterValues.Some?
    && Authorized(env, CleanTag(e.rawTag)) == Accepted
    && !(env.denyConcurrent && HasOpen(rows, CleanTag(e.rawTag)))
  }

  /** An Updated event stores a meter reading. */
  predicate Meters(rows: seq<Row>, chargePoint: string, e: Event) {
    && e.Event? && e.kind == Updated && e.meterValues.Some?
    && Target(rows, chargePoint, e.uid).Some?
    && MeterOf(e) >= 0.0
  }

  predicate SameTag(env: Env, startTag: string, tag: Option<string>) {
    tag.Some? && env.fold(startTag) == env.fold(tag.value)
  }

  /** The verdict on a stop before the start tag is considered: no tag at all is accepted. */
  function StopStatus(env: Env, tag: Option<string>): Status {
    if IsBlank(tag) then Accepted else Authorized(env, tag)
  }

  /** The group reported for the stopping tag: only a tag that was looked up locally has one. */
  function StopGroup(env: Env, tag: Option<string>): Option<string> {
    if IsBlank(tag) || Extensions.FirstAnswer(env.answers).Some? then None
    else
      var ct := Lookup(env.tags, tag);
      if ct.Some? && !IsBlank(ct.value.parent) then ct.value.parent else None
  }

  /** Two absent groups are equal. */
  predicate SameGroup(env: Env, a: Option<string>, b: Option<string>) {
    (a.None? && b.None?) || (a.Some? && b.Some? && env.fold(a.value) == env.fold(b.value))
  }

  /**
   Whether a tag may end a transaction that `startTag` started: the starting tag always may, whatever
   extensions, blocking or expiry say; any other accepted tag may when the start tag is not in the
   table or belongs to the same group.
   */
  predicate MayStop(env: Env, startTag: string, tag: Option<string>) {
    || (startTag != "" && SameTag(env, startTag, tag))
    || (&& StopStatus(env, tag) == Accepted
        && (|| SameTag(env, startTag, tag)
            || startTag !in env.tags
            || SameGroup(env, env.tags[startTag].parent, StopGroup(env, tag))))
  }

  /** An Ended event closes its target row; a row without a start tag is never closed. */
  predicate Closes(rows: seq<Row>, chargePoint: string, e: Event, env: Env) {
    && e.Event? && e.kind == Ended && e.meterValues.Some?
    && var target := Target(rows, chargePoint, e.uid);
    && target.Some?
    && rows[target.value].startTag.Some?
    && MayStop(env, rows[target.value].startTag.value, CleanTag(e.rawTag))
  }

  function NewRow(chargePoint: string, e: Event): Row
    requires e.Event? && e.meterValues.Some?
  {
    Row(Some(e.uid), chargePoint, e.connector, CleanTag(e.rawTag), e.timestamp, MeterOf(e), e.trigger,
        None, None, None, None)
  }

  function ClosedRow(row: Row, e: Event): Row
    requires e.Event? && e.meterValues.Some?
  {
    row.(stopTime := Some(e.timestamp), meterStop := Some(MeterOf(e)),
    stopTag := CleanTag(e.rawTag), stopReason := Some(e.trigger))
  }

  /** The table after an event. */
  ghost function Next(rows: seq<Row>, chargePoint: string, e: Event, env: Env): seq<Row> {
    if Opens(rows, e, env) then rows + [NewRow(chargePoint, e)]
    else if Meters(rows, chargePoint, e) then
      var i := Target(rows, chargePoint, e.uid).value;
      rows[i := rows[i].(meterStop := Some(MeterOf(e)))]
    else if Closes(rows, chargePoint, e, env) then
      var i := Target(rows, chargePoint, e.uid).value;
      rows[i := ClosedRow(rows[i], e)]
    else rows
  }

  /** What the handler answers. The status of an unmatched Ended event is the enum's zero value, Accepted. */
  ghost function Answer(rows: seq<Row>, chargePoint: string, e: Event, env: Env): Reply {
    if e.Malformed? || e.meterValues.None? then Reply(None, None, Some(FormationViolation))
    else
      var tag := CleanTag(e.rawTag);
      match e.kind
      case Started =>
        var verdict := Authorized(env, tag);
        Reply(Some(if verdict == Accepted && !Opens(rows, e, env) then ConcurrentTx else verdict), None, None)
      case Updated =>
        Reply(None, None, if Target(rows, chargePoint, e.uid).Some? then None else Some(PropertyConstraintViolation))
      case Ended =>
        if Target(rows, chargePoint, e.uid).None? then Reply(Some(Accepted), None, Some(PropertyConstraintViolation))
        else
          var verdict := StopStatus(env, tag);
          Reply(Some(if Closes(rows, chargePoint, e, env) then Accepted
                     else if verdict == Accepted then Invalid else verdict),
                StopGroup(env, tag), None)
  }

  /** The controller of one charge point over the shared table. */
  class Controller {
    const chargePoint: string
    var rows: seq<Row>

    constructor (chargePoint: string, rows: seq<Row>)
      ensures this.chargePoint == chargePoint && this.rows == rows
    {
      this.chargePoint := chargePoint;
      this.rows := rows;
    }

    /** HandleTransactionEvent */
    method HandleTransactionEvent(e: Event, env: Env) returns (reply: Reply)
      modifies this`rows
      ensures rows == Next(old(rows), chargePoint, e, env)
      ensures reply == Answer(old(rows), chargePoint, e, env)
    {
      if e.Malformed? || e.meterValues.None? {
        return Reply(None, None, Some(FormationViolation));
      }
      var idTag := CleanTag(e.rawTag);
      var readings := MeterValues.GetMeterValues(e.meterValues.value);
      match e.kind {
        case Started =>
          reply := StartTransaction(e, env, idTag, readings.meterKWH);
        case Updated =>
          reply := UpdateTransaction(e, env, readings.meterKWH);
        case Ended =>
          reply := EndTransaction(e, env, idTag, readings.meterKWH);
      }
    }

    method StartTransaction(e: Event, env: Env, idTag: Option<string>, meterKWH: real) returns (reply: Reply)
      requires e.Event? && e.kind == Started && e.meterValues.Some?
      requires idTag == CleanTag(e.rawTag) && meterKWH == MeterOf(e)
      modifies this`rows
      ensures rows == Next(old(rows), chargePoint, e, env)
      ensures reply == Answer(old(rows), chargePoint, e, env)
    {
      var status;
      var external, _ := Extensions.ProcessExternalAuthorizations(env.answers);
      if external.Some? {
        status := if external.value then Accepted else Invalid;
      } else {
        var ct := Lookup(env.tags, idTag);
        if ct.Some? {
          if ct.value.blocked.Some? && ct.value.blocked.value {
            status := Blocked;
          } else if ct.value.expiry.Some? && ct.value.expiry.value < env.now {
            status := Expired;
          } else {
            status := Accepted;
          }
        } else {
          status := Unknown;
        }
      }
      if status == Accepted && env.denyConcurrent {
        var tx := FindOpen(rows, idTag);
        if tx.Some? {
          status := ConcurrentTx;
        }
      }
      if status == Accepted {
        rows := rows + [Row(Some(e.uid), chargePoint, e.connector, idTag, e.timestamp, meterKWH, e.trigger,
                            None, None, None, None)];
      }
      reply := Reply(Some(status), None, None);
    }

    method UpdateTransaction(e: Event, env: Env, meterKWH: real) returns (reply: Reply)
      requires e.Event? && e.kind == Updated && e.meterValues.Some? && meterKWH == MeterOf(e)
      modifies this`rows
      ensures rows == Next(old(rows), chargePoint, e, env)
      ensures reply == Answer(old(rows), chargePoint, e, env)
    {
      var transaction := Newest(rows, e.uid);
      if transaction.Some? && rows[transaction.value].chargePoint == chargePoint
         && rows[transaction.value].stopTime.None? {
        if meterKWH >= 0.0 {
          var row := rows[transaction.value];
          rows := rows[transaction.value := row.(meterStop := Some(meterKWH))];
        }
        reply := Reply(None, None, None);
      } else {
        reply := Reply(None, None, Some(PropertyConstraintViolation));
      }
    }

    method EndTransaction(e: Event, env: Env, idTag: Option<string>, meterKWH: real) returns (reply: Reply)
      requires e.Event? && e.kind == Ended && e.meterValues.Some?
      requires idTag == CleanTag(e.rawTag) && meterKWH == MeterOf(e)
      modifies this`rows
      ensures rows == Next(old(rows), chargePoint, e, env)
      ensures reply == Answer(old(rows), chargePoint, e, env)
    {
      var status, group, error := Accepted, None, None;
      var transaction := Newest(rows, e.uid);
      var matching := transaction.Some? && rows[transaction.value].chargePoint == chargePoint
                      && rows[transaction.value].stopTime.None?;
      if matching {
        status, group := AuthorizeStop(env, idTag);
      } else {
        error := Some(PropertyConstraintViolation);
      }
      // the starting tag may always stop
      if status != Accepted && transaction.Some? {
        var startTag := rows[transaction.value].startTag;
        if startTag.Some? && startTag.value != "" && SameTag(env, startTag.value, idTag) {
          status := Accepted;
        }
      }
      if status == Accepted {
        if matching {
          var row := rows[transaction.value];
          if row.startTag.None? {
            status := Invalid;  // comparing with the missing start tag throws; the handler turns that into Invalid
          } else {
            var valid := true;
            if !SameTag(env, row.startTag.value, idTag) {
              var startTag := Lookup(env.tags, row.startTag);
              if startTag.Some? && !SameGroup(env, startTag.value.parent, group) {
                status := Invalid;
                valid := false;
              }
            }
            if valid {
              rows := rows[transaction.value := row.(stopTime := Some(e.timestamp), meterStop := Some(meterKWH),
                                                     stopTag := idTag, stopReason := Some(e.trigger))];
            }
          }
        } else {
          error := Some(PropertyConstraintViolation);
        }
      }
      reply := Reply(Some(status), group, error);
    }
  }

  /** The authorization part of the Ended branch. */
  method AuthorizeStop(env: Env, idTag: Option<string>) returns (status: Status, group: Option<string>)
    ensures status == StopStatus(env, idTag) && group == StopGroup(env, idTag)
  {
    group := None;
    if IsBlank(idTag) {
      return Accepted, None;
    }
    var external, _ := Extensions.ProcessExternalAuthorizations(env.answers);
    if external.Some? {
      return if external.value then Accepted else Invalid, None;
    }
    var ct := Lookup(env.tags, idTag);
    if ct.Some? {
      if !IsBlank(ct.value.parent) {
        group := ct.value.parent;
      }
      if ct.value.blocked.Some? && ct.value.blocked.value {
        status := Blocked;
      } else if ct.value.expiry.Some? && ct.value.expiry.value < env.now {
        status := Expired;
      } else {
        status := Accepted;
      }
    } else {
      status := Unknown;
    }
  }

  /** The query for an open transaction of a tag. */
  method FindOpen(rows: seq<Row>, tag: Option<string>) returns (r: Option<nat>)
    ensures r.Some? <==> HasOpen(rows, tag)
    ensures r.Some? ==> r.value < |rows| && rows[r.value].Open() && rows[r.value].startTag == tag
  {
    for i := |rows| downto 0
      invariant forall j :: i <= j < |rows| ==> !(rows[j].Open() && rows[j].startTag == tag)
    {
      if rows[i].Open() && rows[i].startTag == tag {
        return Some(i);
      }
    }
    return None;
  }
}
