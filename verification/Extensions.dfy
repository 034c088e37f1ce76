/** The loop that asks the registered authorization extensions. */
module Extensions {
  import opened Wrappers

  /** What one extension did: an explicit answer, no answer, or an exception that is swallowed. */
  datatype Answer = Explicit(allowed: bool) | Abstained | Threw

  /** The first explicit answer, if there is one. */
  function FirstAnswer(answers: seq<Answer>): (r: Option<bool>)
    ensures r.None? <==> forall i :: 0 <= i < |answers| ==> !answers[i].Explicit?
    ensures r.Some? ==> exists i :: 0 <= i < |answers| && answers[i] == Explicit(r.value)
                                    && forall j :: 0 <= j < i ==> !answers[j].Explicit?
  {
    if answers == [] then None
    else if answers[0].Explicit? then Some(answers[0].allowed)
    else FirstAnswer(answers[1..])
  }

  /** ProcessExternalAuthorizations: later extensions are not consulted after an explicit answer. */
  method ProcessExternalAuthorizations(answers: seq<Answer>) returns (r: Option<bool>, asked: nat)
    ensures r == FirstAnswer(answers)
    ensures asked <= |answers|
    ensures r.Some? ==> 0 < asked && answers[asked - 1] == Explicit(r.value)
    ensures forall j :: 0 <= j < asked - 1 ==> !answers[j].Explicit?
    ensures r.None? ==> asked == |answers|
  {
    asked := 0;
    while asked < |answers|
      invariant asked <= |answers|
      invariant forall j :: 0 <= j < asked ==> !answers[j].Explicit?
      invariant FirstAnswer(answers) == FirstAnswer(answers[asked..])
    {
      asked := asked + 1;
      if answers[asked - 1].Explicit? {
        return Some(answers[asked - 1].allowed), asked;
      }
      assert answers[asked - 1..][1..] == answers[asked..];
    }
    return None, asked;
  }
}
