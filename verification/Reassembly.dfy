/** Reassembly of fragmented websocket messages in the receive loop. */
module Reassembly {

  type Bytes = seq<bv8>

  /** A received segment; a close frame carries no data. */
  datatype Segment = Data(bytes: Bytes, endOfMessage: bool) | Close

  /** What the loop has handed on, and whether the socket is still open when the input ends. */
  datatype Outcome = Outcome(delivered: seq<Bytes>, open: bool)

  /** A limit of zero switches the check off. */
  predicate Within(size: nat, limit: int) {
    limit == 0 || size <= limit
  }

  /** Receive20: one pass of the loop per segment, until the socket is closed. */
  method Receive(segments: seq<Segment>, limit: int) returns (r: Outcome)
    ensures r == Received(segments, [], limit)
  {
    var stream: Bytes := [];
    var delivered := [];
    var open := true;
    var i := 0;
    while i < |segments| && open
      invariant 0 <= i <= |segments|
      invariant open ==> Received(segments, [], limit) == Prefixed(delivered, Received(segments[i..], stream, limit))
      invariant !open ==> Received(segments, [], limit) == Outcome(delivered, false)
    {
      assert segments[i..][1..] == segments[i + 1..];
      match segments[i] {
        case Close =>
          open := false;
        case Data(bytes, endOfMessage) =>
          stream := stream + bytes;
          if limit == 0 || |stream| <= limit {
            if endOfMessage {
              delivered := delivered + [stream];
              stream := [];
            }
          } else {
            open := false;
          }
      }
      i := i + 1;
    }
    r := Outcome(delivered, open);
  }

  function Prefixed(before: seq<Bytes>, r: Outcome): Outcome {
    r.(delivered := before + r.delivered)
  }

  /** The loop as a function of the remaining segments and the bytes buffered so far. */
  function Received(segments: seq<Segment>, stream: Bytes, limit: int): Outcome {
    if segments == [] then Outcome([], true)
    else
      match segments[0]
      case Close => Outcome([], false)
      case Data(bytes, endOfMessage) =>
        var grown := stream + bytes;
        if !Within(|grown|, limit) then Outcome([], false)
        else if endOfMessage then Prefixed([grown], Received(segments[1..], [], limit))
        else Received(segments[1..], grown, limit)
  }

  // ----- fragmentation -----

  /** A message cut into one or more pieces, possibly empty ones. */
  type Pieces = p: seq<Bytes> | p != [] witness [[]]

  function Joined(pieces: seq<Bytes>): Bytes {
    if pieces == [] then [] else pieces[0] + Joined(pieces[1..])
  }

  /** The segments of one message: only the last piece ends it. */
  function Segments(pieces: Pieces): seq<Segment> {
    if |pieces| == 1 then [Data(pieces[0], true)] else [Data(pieces[0], false)] + Segments(pieces[1..])
  }

  function Wire(messages: seq<Pieces>): seq<Segment> {
    if messages == [] then [] else Segments(messages[0]) + Wire(messages[1..])
  }

  function Originals(messages: seq<Pieces>): seq<Bytes> {
    seq(|messages|, i requires 0 <= i < |messages| => Joined(messages[i]))
  }

  /** The messages before the first one that is over the limit. */
  function BeforeOversized(messages: seq<Bytes>, limit: int): (r: seq<Bytes>)
    ensures r <= messages
    ensures forall i :: 0 <= i < |r| ==> Within(|r[i]|, limit)
    ensures |r| < |messages| ==> !Within(|messages[|r|]|, limit)
  {
    if messages == [] || !Within(|messages[0]|, limit) then []
    else [messages[0]] + BeforeOversized(messages[1..], limit)
  }

  /** One message: handed on whole when it is within the limit; otherwise the loop ends without it. */
  lemma {:induction false} OneMessage(pieces: Pieces, stream: Bytes, rest: seq<Segment>, limit: int)
    ensures Received(Segments(pieces) + rest, stream, limit) ==
            var whole := stream + Joined(pieces);
            if Within(|whole|, limit) then Prefixed([whole], Received(rest, [], limit)) else Outcome([], false)
    decreases |pieces|
  {
    var all := Segments(pieces) + rest;
    var grown := stream + pieces[0];
    assert stream + Joined(pieces) == grown + Joined(pieces[1..]);
    if |pieces| == 1 {
      assert all[1..] == rest;
      assert grown + Joined(pieces[1..]) == grown;
    } else {
      assert all[1..] == Segments(pieces[1..]) + rest;
      OneMessage(pieces[1..], grown, rest, limit);
    }
  }

  /**
   However the messages are cut, those before the first oversized one are handed on unchanged and in
   order; an oversized message is not handed on and ends the loop, so nothing after it is either.
   */
  lemma {:induction false} FragmentationIsInvisible(messages: seq<Pieces>, limit: int)
    ensures Received(Wire(messages), [], limit) ==
            var kept := BeforeOversized(Originals(messages), limit);
            Outcome(kept, |kept| == |messages|)
  {
    if messages != [] {
      OneMessage(messages[0], [], Wire(messages[1..]), limit);
      assert [] + Joined(messages[0]) == Joined(messages[0]);
      FragmentationIsInvisible(messages[1..], limit);
      assert Originals(messages)[1..] == Originals(messages[1..]);
    }
  }

  /** Two fragmentations of the same messages cannot be told apart. */
  lemma FragmentationIndependence(a: seq<Pieces>, b: seq<Pieces>, limit: int)
    requires Originals(a) == Originals(b)
    ensures Received(Wire(a), [], limit) == Received(Wire(b), [], limit)
  {
    FragmentationIsInvisible(a, limit);
    FragmentationIsInvisible(b, limit);
  }

  /** Everything arrives, and the socket stays open, exactly when no message is over the limit. */
  lemma AllArriveIff(messages: seq<Pieces>, limit: int)
    ensures Received(Wire(messages), [], limit) == Outcome(Originals(messages), true) <==>
            limit == 0 || forall i :: 0 <= i < |messages| ==> |Joined(messages[i])| <= limit
  {
    FragmentationIsInvisible(messages, limit);
    var all := Originals(messages);
    assert forall i :: 0 <= i < |messages| ==> all[i] == Joined(messages[i]);
  }
}
