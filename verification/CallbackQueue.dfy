/** The ocpp-go callback queue and the central system handlers that feed and drain it. */
module CallbackQueue {
  import opened Wrappers

  type Client = string

  /** The identity of a callback function. */
  type Callback = int

  datatype Outcome = Confirmed | CallError | Canceled | Disconnected

  datatype Invocation = Invocation(client: Client, callback: Callback, outcome: Outcome)

  /** The queues per client; a client without pending callbacks has no entry. */
  type Queues = map<Client, seq<Callback>>

  ghost predicate Consistent(q: Queues) {
    forall c :: c in q ==> q[c] != []
  }

  function Pending(q: Queues, c: Client): seq<Callback> {
    if c in q then q[c] else []
  }

  /** The queues with the pending callbacks of one client replaced. */
  function Put(q: Queues, c: Client, pending: seq<Callback>): (r: Queues)
    ensures Pending(r, c) == pending
    ensures forall d :: d != c ==> Pending(r, d) == Pending(q, d)
  {
    if pending == [] then q - {c} else q[c := pending]
  }

  class Queue {
    var callbacks: Queues

    ghost predicate Valid()
      reads this
    {
      Consistent(callbacks)
    }

    constructor ()
      ensures Valid() && callbacks == map[]
    {
      callbacks := map[];
    }

    /** TryQueue: the callback is appended first and taken off again when sending fails. */
    method TryQueue(id: Client, sent: bool, callback: Callback) returns (ok: bool)
      requires Valid()
      modifies this
      ensures Valid()
      ensures ok == sent
      ensures callbacks == if sent then Put(old(callbacks), id, Pending(old(callbacks), id) + [callback])
                           else old(callbacks)
    {
      callbacks := callbacks[id := Pending(callbacks, id) + [callback]];
      if !sent {
        var list := callbacks[id];
        callbacks := callbacks[id := list[..|list| - 1]];
        if |callbacks[id]| == 0 {
          callbacks := callbacks - {id};
        }
        return false;
      }
      return true;
    }

    /** Dequeue: the source panics on an empty list, which Valid() rules out. */
    method Dequeue(id: Client) returns (callback: Option<Callback>)
      requires Valid()
      modifies this
      ensures Valid()
      ensures callback == First(Pending(old(callbacks), id))
      ensures callbacks == Put(old(callbacks), id, Rest(Pending(old(callbacks), id)))
    {
      if id !in callbacks {
        return None;
      }
      var list := callbacks[id];
      callback := Some(list[0]);
      if |list| == 1 {
        callbacks := callbacks - {id};
      } else {
        callbacks := callbacks[id := list[1..]];
      }
    }
  }

  // ----- the handlers, as steps -----

  datatype Event =
    | Send(client: Client, callback: Callback, supported: bool, sent: bool)
    | Reply(client: Client, outcome: Outcome)  // a confirmation, a call error or a cancellation
    | Disconnect(client: Client)

  datatype State = State(queues: Queues, called: seq<Invocation>)

  function Step(s: State, e: Event): State {
    match e
    case Send(c, cb, supported, sent) =>
      if supported && sent then s.(queues := Put(s.queues, c, Pending(s.queues, c) + [cb])) else s
    case Reply(c, outcome) =>
      var pending := Pending(s.queues, c);
      if pending == [] then s
      else State(Put(s.queues, c, pending[1..]), s.called + [Invocation(c, pending[0], outcome)])
    case Disconnect(c) =>
      State(Put(s.queues, c, []), s.called + Drained(c, Pending(s.queues, c)))
  }

  function Drained(c: Client, pending: seq<Callback>): (r: seq<Invocation>)
    ensures |r| == |pending|
    ensures forall i :: 0 <= i < |r| ==> r[i] == Invocation(c, pending[i], Disconnected)
  {
    seq(|pending|, i requires 0 <= i < |pending| => Invocation(c, pending[i], Disconnected))
  }

  function Run(trace: seq<Event>): State {
    if trace == [] then State(map[], []) else Step(Run(trace[..|trace| - 1]), trace[|trace| - 1])
  }

  class CentralSystem {
    const queue: Queue
    var called: seq<Invocation>

    ghost function Contents(): State
      reads this, queue
    {
      State(queue.callbacks, called)
    }

    constructor ()
      ensures fresh(queue) && queue.Valid() && Contents() == Run([])
    {
      queue := new Queue();
      called := [];
    }

    /** SendRequestAsync: an unsupported feature is refused before the queue is touched. */
    method SendRequestAsync(client: Client, callback: Callback, supported: bool, sent: bool) returns (ok: bool)
      requires queue.Valid()
      modifies queue
      ensures queue.Valid() && (ok <==> supported && sent)
      ensures Contents() == Step(old(Contents()), Send(client, callback, supported, sent))
    {
      if !supported {
        return false;
      }
      ok := queue.TryQueue(client, sent, callback);
    }

    /** The common body of handleIncomingConfirmation, handleIncomingError and handleCanceledRequest. */
    method HandleReply(client: Client, outcome: Outcome)
      requires queue.Valid()
      modifies this, queue
      ensures queue.Valid()
      ensures Contents() == Step(old(Contents()), Reply(client, outcome))
    {
      var callback := queue.Dequeue(client);
      if callback.Some? {
        called := called + [Invocation(client, callback.value, outcome)];
      }
    }

    /** The handler that SetChargePointDisconnectedHandler installs. */
    method HandleDisconnect(client: Client)
      requires queue.Valid()
      modifies this, queue
      ensures queue.Valid()
      ensures Contents() == Step(old(Contents()), Disconnect(client))
    {
      ghost var all := Pending(queue.callbacks, client);
      ghost var rest := all;
      var callback := queue.Dequeue(client);
      while callback.Some?
        invariant queue.Valid()
        invariant callback == First(rest)
        invariant queue.callbacks == Put(old(queue.callbacks), client, Rest(rest))
        invariant called + Drained(client, rest) == old(called) + Drained(client, all)
        decreases |rest|
      {
        DrainedFirst(called, client, rest);
        called := called + [Invocation(client, callback.value, Disconnected)];
        callback := queue.Dequeue(client);
        rest := Rest(rest);
      }
      assert called + Drained(client, rest) == called;
    }
  }

  function First(s: seq<Callback>): Option<Callback> {
    if s == [] then None else Some(s[0])
  }

  function Rest(s: seq<Callback>): seq<Callback> {
    if s == [] then [] else s[1..]
  }

  lemma DrainedFirst(called: seq<Invocation>, c: Client, pending: seq<Callback>)
    requires pending != []
    ensures called + Drained(c, pending) == called + [Invocation(c, pending[0], Disconnected)] + Drained(c, Rest(pending))
  {
  }

  // ----- what every interleaving keeps, client by client -----

  /** The callbacks of the requests that were accepted for a client, in order. */
  function Accepted(trace: seq<Event>, c: Client): seq<Callback> {
    if trace == [] then []
    else Accepted(trace[..|trace| - 1], c) + AcceptedBy(trace[|trace| - 1], c)
  }

  /** The callbacks called for a client, in the order in which they were dequeued. */
  function Called(log: seq<Invocation>, c: Client): seq<Callback> {
    if log == [] then []
    else
      var x := log[|log| - 1];
      Called(log[..|log| - 1], c) + if x.client == c then [x.callback] else []
  }

  lemma {:induction false} CalledConcat(a: seq<Invocation>, b: seq<Invocation>, c: Client)
    ensures Called(a + b, c) == Called(a, c) + Called(b, c)
  {
    if b == [] {
      assert a + b == a;
    } else {
      assert (a + b)[..|a + b| - 1] == a + b[..|b| - 1];
      CalledConcat(a, b[..|b| - 1], c);
    }
  }

  lemma {:induction false} CalledDrained(c: Client, pending: seq<Callback>, d: Client)
    ensures Called(Drained(c, pending), d) == if c == d then pending else []
  {
    if pending != [] {
      var n := |pending| - 1;
      assert Drained(c, pending)[..n] == Drained(c, pending[..n]);
      CalledDrained(c, pending[..n], d);
    }
  }

  /**
   For every client and interleaving, the accepted callbacks are the called ones followed by the
   pending ones: none is lost, repeated, reordered or called for a send that failed.
   */
  lemma {:induction false} FifoConservation(trace: seq<Event>, c: Client)
    ensures Accepted(trace, c) == Called(Run(trace).called, c) + Pending(Run(trace).queues, c)
  {
    if trace != [] {
      var before := trace[..|trace| - 1];
      FifoConservation(before, c);
      StepConserves(Run(before), trace[|trace| - 1], c);
    }
  }

  /** What one event adds to the accepted callbacks of a client. */
  function AcceptedBy(e: Event, c: Client): seq<Callback> {
    if e.Send? && e.client == c && e.supported && e.sent then [e.callback] else []
  }

  lemma StepConserves(s: State, e: Event, c: Client)
    ensures Called(Step(s, e).called, c) + Pending(Step(s, e).queues, c) ==
            Called(s.called, c) + Pending(s.queues, c) + AcceptedBy(e, c)
  {
    match e {
      case Send(_, _, _, _) =>
      case Reply(d, outcome) => ReplyConserves(s, d, outcome, c);
      case Disconnect(d) => DisconnectConserves(s, d, c);
    }
  }

  lemma ReplyConserves(s: State, d: Client, outcome: Outcome, c: Client)
    ensures var after := Step(s, Reply(d, outcome));
            Called(after.called, c) + Pending(after.queues, c) == Called(s.called, c) + Pending(s.queues, c)
  {
    var pending := Pending(s.queues, d);
    if pending != [] {
      var call := [Invocation(d, pending[0], outcome)];
      CalledConcat(s.called, call, c);
      assert Called(call, c) == if d == c then [pending[0]] else [];
      assert pending == [pending[0]] + pending[1..];
    }
  }

  lemma DisconnectConserves(s: State, d: Client, c: Client)
    ensures var after := Step(s, Disconnect(d));
            Called(after.called, c) + Pending(after.queues, c) == Called(s.called, c) + Pending(s.queues, c)
  {
    CalledConcat(s.called, Drained(d, Pending(s.queues, d)), c);
    CalledDrained(d, Pending(s.queues, d), c);
  }

  ghost predicate Distinct(s: seq<Callback>) {
    forall i, j :: 0 <= i < j < |s| ==> s[i] != s[j]
  }

  /** With distinct callbacks, none is called twice, and one whose request was not accepted is never called. */
  lemma CalledAtMostOnce(trace: seq<Event>, c: Client)
    requires Distinct(Accepted(trace, c))
    ensures Distinct(Called(Run(trace).called, c))
    ensures forall cb :: cb in Called(Run(trace).called, c) ==>
                           cb in Accepted(trace, c) && cb !in Pending(Run(trace).queues, c)
  {
    FifoConservation(trace, c);
    ConcatDistinct(Called(Run(trace).called, c), Pending(Run(trace).queues, c));
  }

  /** In a list without repeats, the front has none either and shares nothing with the rest. */
  lemma ConcatDistinct(a: seq<Callback>, b: seq<Callback>)
    requires Distinct(a + b)
    ensures Distinct(a) && forall cb :: cb in a ==> cb in a + b && cb !in b
  {
    forall i, j | 0 <= i < j < |a|
      ensures a[i] != a[j]
    {
      assert (a + b)[i] == a[i] && (a + b)[j] == a[j];
    }
    forall i, j | 0 <= i < |a| && 0 <= j < |b|
      ensures a[i] != b[j]
    {
      assert (a + b)[i] == a[i] && (a + b)[|a| + j] == b[j];
    }
  }

  /** After a disconnect every accepted callback of the client has been called. */
  lemma DisconnectDrains(trace: seq<Event>, c: Client)
    ensures Called(Run(trace + [Disconnect(c)]).called, c) == Accepted(trace, c)
    ensures Pending(Run(trace + [Disconnect(c)]).queues, c) == []
  {
    var after := trace + [Disconnect(c)];
    assert after[..|trace|] == trace;
    FifoConservation(after, c);
    assert Accepted(after, c) == Accepted(trace, c);
  }

  /** The callbacks of a client that are accepted and not called yet. */
  function Waiting(trace: seq<Event>, c: Client): seq<Callback> {
    var called := |Called(Run(trace).called, c)|;
    if called <= |Accepted(trace, c)| then Accepted(trace, c)[called..] else []
  }

  /** A reply calls the oldest waiting callback of its client with its own outcome, and nothing when none waits. */
  lemma ReplyCallsOldest(trace: seq<Event>, c: Client, outcome: Outcome)
    ensures Run(trace + [Reply(c, outcome)]).called == Run(trace).called +
            if Waiting(trace, c) == [] then [] else [Invocation(c, Waiting(trace, c)[0], outcome)]
  {
    assert (trace + [Reply(c, outcome)])[..|trace|] == trace;
    WaitingIsPending(trace, c);
  }

  /** A disconnect calls all waiting callbacks of its client, in order, as disconnected. */
  lemma DisconnectCallsAll(trace: seq<Event>, c: Client)
    ensures var log, now := Run(trace).called, Run(trace + [Disconnect(c)]).called;
            && |now| == |log| + |Waiting(trace, c)| && now[..|log|] == log
            && forall i :: 0 <= i < |Waiting(trace, c)| ==>
                 now[|log| + i] == Invocation(c, Waiting(trace, c)[i], Disconnected)
  {
    assert (trace + [Disconnect(c)])[..|trace|] == trace;
    WaitingIsPending(trace, c);
  }

  /** Sending calls nothing. */
  lemma SendCallsNothing(trace: seq<Event>, c: Client, callback: Callback, supported: bool, sent: bool)
    ensures Run(trace + [Send(c, callback, supported, sent)]).called == Run(trace).called
  {
    assert (trace + [Send(c, callback, supported, sent)])[..|trace|] == trace;
  }

  lemma WaitingIsPending(trace: seq<Event>, c: Client)
    ensures Waiting(trace, c) == Pending(Run(trace).queues, c)
  {
    FifoConservation(trace, c);
  }
}
