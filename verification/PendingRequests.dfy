/** The table of requests sent to charge points that wait for an answer, and how answers complete them. */
module PendingRequests {
  import opened Wrappers

  /** The actions whose answers are dispatched to a handler that sets the caller's completion source. */
  datatype Action = Reset | UnlockConnector | SetChargingProfile | ClearChargingProfile | OtherAction(name: string)

  /** An answer's payload: the API result its handler builds, or no result when it cannot be read. */
  datatype Answer = Answer(id: string, messageType: string, result: Option<string>)

  datatype Event =
    | Call(id: string, action: Action)
    | Incoming(answer: Answer)

  /** A result delivered to the completion source of the request with that id. */
  datatype Completion = Completion(id: string, result: string)

  datatype State = State(queue: map<string, Action>, completed: seq<Completion>)

  predicate IsAnswer(messageType: string) {
    messageType == "3" || messageType == "4"
  }

  /** Adding a key twice throws, and then nothing is stored. */
  function Step(s: State, e: Event): State {
    match e
    case Call(id, action) => if id in s.queue then s else s.(queue := s.queue[id := action])
    case Incoming(a) =>
      if !IsAnswer(a.messageType) || a.id !in s.queue then s
      else State(s.queue - {a.id}, s.completed + Delivered(s.queue[a.id], a))
  }

  function Delivered(action: Action, a: Answer): seq<Completion> {
    if action.OtherAction? || a.result.None? then [] else [Completion(a.id, a.result.value)]
  }

  function Run(trace: seq<Event>): State {
    if trace == [] then State(map[], []) else Step(Run(trace[..|trace| - 1]), trace[|trace| - 1])
  }

  class Middleware {
    var requestQueue: map<string, Action>
    var completed: seq<Completion>

    ghost function Contents(): State
      reads this
    {
      State(requestQueue, completed)
    }

    constructor ()
      ensures Contents() == Run([])
    {
      requestQueue, completed := map[], [];
    }

    /** The part of every API call that stores the request; `false` stands for the exception on a used key. */
    method SendRequest(id: string, action: Action) returns (stored: bool)
      modifies this
      ensures Contents() == Step(old(Contents()), Call(id, action))
      ensures stored <==> id !in old(requestQueue)
    {
      if id in requestQueue {
        return false;
      }
      requestQueue := requestQueue[id := action];
      return true;
    }

    /** The branch of Receive20 for answers. */
    method ReceiveAnswer(a: Answer)
      modifies this
      ensures Contents() == Step(old(Contents()), Incoming(a))
    {
      if a.messageType == "3" || a.messageType == "4" {
        if a.id in requestQueue {
          ProcessAnswer(a, requestQueue[a.id]);
          requestQueue := requestQueue - {a.id};
        }
      }
    }

    /** ProcessAnswer: a handler sets the completion source unless the payload makes it throw, which it swallows. */
    method ProcessAnswer(a: Answer, action: Action)
      modifies this`completed
      ensures completed == old(completed) + Delivered(action, a)
    {
      match action {
        case OtherAction(_) =>
        case _ =>
          if a.result.Some? {
            completed := completed + [Completion(a.id, a.result.value)];
          }
      }
    }
  }

  // ----- what every interleaving keeps -----

  /** Ids are generated afresh for every call. */
  ghost predicate FreshIds(trace: seq<Event>) {
    forall i, j :: 0 <= i < j < |trace| && trace[i].Call? && trace[j].Call? ==> trace[i].id != trace[j].id
  }

  predicate Answers(e: Event, id: string) {
    e.Incoming? && IsAnswer(e.answer.messageType) && e.answer.id == id
  }

  /** Position j holds the first answer to the call at position i. */
  ghost predicate FirstAnswer(trace: seq<Event>, i: nat, j: nat) {
    && i < j < |trace| && trace[i].Call? && Answers(trace[j], trace[i].id)
    && forall k :: i < k < j ==> !Answers(trace[k], trace[i].id)
  }

  ghost predicate Unanswered(trace: seq<Event>, i: nat) {
    i < |trace| && trace[i].Call? && forall k :: i < k < |trace| ==> !Answers(trace[k], trace[i].id)
  }

  /** A request is pending exactly while no answer has carried its id since it was sent. */
  lemma {:induction false} PendingIff(trace: seq<Event>, id: string)
    requires FreshIds(trace)
    ensures id in Run(trace).queue <==> exists i: nat :: Unanswered(trace, i) && trace[i].id == id
    ensures forall i: nat :: Unanswered(trace, i) && trace[i].id == id ==>
                               id in Run(trace).queue && Run(trace).queue[id] == trace[i].action
  {
    if trace != [] {
      var n := |trace| - 1;
      PendingIff(trace[..n], id);
      assert trace[..n] + [trace[n]] == trace;
      if trace[n].Call? && trace[n].id == id {
        assert Unanswered(trace, n);
        assert id !in Run(trace[..n]).queue;
      } else {
        assert forall i: nat :: i < n ==>
          (Unanswered(trace, i) && trace[i].id == id <==>
           Unanswered(trace[..n], i) && trace[..n][i].id == id && !Answers(trace[n], id));
        if Answers(trace[n], id) {
          assert id !in Run(trace).queue;
          assert !exists i: nat :: Unanswered(trace, i) && trace[i].id == id;
        } else {
          assert id in Run(trace).queue <==> id in Run(trace[..n]).queue;
        }
      }
    }
  }

  /** A result is delivered exactly by the first answer after the call, when its payload is readable. */
  ghost predicate DeliveredBy(trace: seq<Event>, i: nat, j: nat, c: Completion) {
    && FirstAnswer(trace, i, j) && trace[i].id == c.id
    && !trace[i].action.OtherAction? && trace[j].answer.result == Some(c.result)
  }

  lemma {:induction false} CompletedIff(trace: seq<Event>, c: Completion)
    requires FreshIds(trace)
    ensures c in Run(trace).completed <==> exists i: nat, j: nat :: DeliveredBy(trace, i, j, c)
  {
    if trace != [] {
      var n := |trace| - 1;
      var before := trace[..n];
      CompletedIff(before, c);
      assert forall i: nat, j: nat :: j < n ==> (DeliveredBy(trace, i, j, c) <==> DeliveredBy(before, i, j, c));
      LastDelivers(before, trace[n], c);
      assert before + [trace[n]] == trace;
    }
  }

  /** An event appended to a trace is the first answer to a call exactly when that call is unanswered so far. */
  lemma AppendedDelivers(trace: seq<Event>, e: Event, i: nat, c: Completion)
    ensures DeliveredBy(trace + [e], i, |trace|, c) <==>
            (&& Unanswered(trace, i) && trace[i].id == c.id && !trace[i].action.OtherAction?
             && Answers(e, c.id) && e.answer.result == Some(c.result))
  {
    var all := trace + [e];
    if i < |trace| {
      assert all[i] == trace[i];
      assert forall k :: i < k < |trace| ==> all[k] == trace[k];
    }
  }

  lemma StepCompletes(s: State, e: Event, c: Completion)
    ensures c in Step(s, e).completed <==>
            c in s.completed || (Answers(e, c.id) && c.id in s.queue && !s.queue[c.id].OtherAction?
                                 && e.answer.result == Some(c.result))
  {
  }

  /** The last event of a trace delivers a result exactly when it is the first answer to its call. */
  lemma LastDelivers(trace: seq<Event>, e: Event, c: Completion)
    requires FreshIds(trace)
    ensures c in Step(Run(trace), e).completed <==>
            c in Run(trace).completed || exists i: nat :: DeliveredBy(trace + [e], i, |trace|, c)
  {
    PendingIff(trace, c.id);
    StepCompletes(Run(trace), e, c);
    forall i: nat {
      AppendedDelivers(trace, e, i, c);
    }
  }

  ghost predicate DistinctIds(done: seq<Completion>) {
    forall p, q :: 0 <= p < q < |done| ==> done[p].id != done[q].id
  }

  /** No request is completed twice. */
  lemma {:induction false} CompletedAtMostOnce(trace: seq<Event>)
    requires FreshIds(trace)
    ensures DistinctIds(Run(trace).completed)
  {
    if trace != [] {
      var n := |trace| - 1;
      CompletedAtMostOnce(trace[..n]);
      StepKeepsDistinct(trace[..n], trace[n]);
    }
  }

  lemma StepKeepsDistinct(trace: seq<Event>, e: Event)
    requires FreshIds(trace) && DistinctIds(Run(trace).completed)
    ensures DistinctIds(Step(Run(trace), e).completed)
  {
    var s := Run(trace);
    forall c | c in s.completed
      ensures c.id !in s.queue
    {
      CompletedIsNotPending(trace, c);
    }
  }

  lemma CompletedIsNotPending(trace: seq<Event>, c: Completion)
    requires FreshIds(trace) && c in Run(trace).completed
    ensures c.id !in Run(trace).queue
  {
    CompletedIff(trace, c);
    PendingIff(trace, c.id);
    var i: nat, j: nat :| DeliveredBy(trace, i, j, c);
    assert Answers(trace[j], trace[i].id);
  }

  /** After the first answer, every further answer with the same id changes nothing. */
  lemma DuplicateChangesNothing(trace: seq<Event>, i: nat, j: nat, e: Event)
    requires FreshIds(trace) && FirstAnswer(trace, i, j) && Answers(e, trace[i].id)
    ensures Run(trace + [e]) == Run(trace)
  {
    PendingIff(trace, trace[i].id);
    assert (trace + [e])[..|trace|] == trace;
    assert Answers(trace[j], trace[i].id);
  }

  /** An answer whose id no request ever carried changes nothing. */
  lemma UnknownIdChangesNothing(trace: seq<Event>, e: Event)
    requires FreshIds(trace) && e.Incoming?
    requires forall i :: 0 <= i < |trace| && trace[i].Call? ==> trace[i].id != e.answer.id
    ensures Run(trace + [e]) == Run(trace)
  {
    PendingIff(trace, e.answer.id);
    assert (trace + [e])[..|trace|] == trace;
  }

  /** Only a message of type 3 or 4 is an answer; any other changes nothing. */
  lemma OtherTypesChangeNothing(trace: seq<Event>, a: Answer)
    requires a.messageType != "3" && a.messageType != "4"
    ensures Run(trace + [Incoming(a)]) == Run(trace)
  {
    assert (trace + [Incoming(a)])[..|trace|] == trace;
  }

  /** An answer of either type takes its request off the table, and hands a readable payload to a dispatched action once. */
  lemma AnswerCompletes(trace: seq<Event>, i: nat, a: Answer)
    requires FreshIds(trace) && Unanswered(trace, i) && a.id == trace[i].id
    requires a.messageType == "3" || a.messageType == "4"
    ensures var before, after := Run(trace), Run(trace + [Incoming(a)]);
            && a.id !in after.queue && (forall id :: id != a.id ==> (id in after.queue <==> id in before.queue))
            && after.completed == before.completed
                                  + if a.result.Some? && trace[i].action in {Reset, UnlockConnector, SetChargingProfile, ClearChargingProfile}
                                    then [Completion(a.id, a.result.value)] else []
  {
    PendingIff(trace, a.id);
    assert (trace + [Incoming(a)])[..|trace|] == trace;
  }
}
