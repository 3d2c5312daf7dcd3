/** `AggregateException.Handle(predicate)`: offers each inner exception to
    the predicate, in order and without stopping early, and throws a new
    aggregate when any of them is not handled. */
module Handling {
  import opened Exceptions

  /** The inner exceptions the predicate does not handle, in order. */
  function Rejected(s: seq<Exn>, p: Exn -> bool): (r: seq<Exn>)
    ensures |r| <= |s|
    ensures forall x :: x in r ==> x in s && !p(x)
  {
    if s == [] then []
    else
      var last := s[|s| - 1];
      Rejected(s[..|s| - 1], p) + (if p(last) then [] else [last])
  }

  /** How many inner exceptions the predicate handles. */
  function CountAccepted(s: seq<Exn>, p: Exn -> bool): (n: nat)
    ensures n <= |s|
  {
    if s == [] then 0
    else CountAccepted(s[..|s| - 1], p) + (if p(s[|s| - 1]) then 1 else 0)
  }

  /** Every inner exception is either handled or rejected. */
  lemma {:induction false} AcceptedPlusRejected(s: seq<Exn>, p: Exn -> bool)
    ensures CountAccepted(s, p) + |Rejected(s, p)| == |s|
    decreases |s|
  {
    if s != [] {
      AcceptedPlusRejected(s[..|s| - 1], p);
    }
  }

  /** Nothing is rejected exactly when the predicate handles every inner
      exception. */
  lemma {:induction false} NoneRejectedIffAllAccepted(s: seq<Exn>, p: Exn -> bool)
    ensures Rejected(s, p) == [] <==> forall i :: 0 <= i < |s| ==> p(s[i])
    ensures Rejected(s, p) == [] <==> CountAccepted(s, p) == |s|
    decreases |s|
  {
    AcceptedPlusRejected(s, p);
    if s != [] {
      var front := s[..|s| - 1];
      NoneRejectedIffAllAccepted(front, p);
      assert forall i :: 0 <= i < |front| ==> front[i] == s[i];
    }
  }

  /** The rejections over a concatenation are those over each part, in
      order: rejection looks at each exception on its own. */
  lemma {:induction false} RejectedConcat(s1: seq<Exn>, s2: seq<Exn>, p: Exn -> bool)
    ensures Rejected(s1 + s2, p) == Rejected(s1, p) + Rejected(s2, p)
    decreases |s2|
  {
    if s2 == [] {
      assert s1 + s2 == s1;
    } else {
      var front := s2[..|s2| - 1];
      assert (s1 + s2)[..|s1 + s2| - 1] == s1 + front;
      RejectedConcat(s1, front, p);
    }
  }

  /** Handle on aggregate e. A null predicate throws ArgumentNullException
      before any inner exception is looked at. Otherwise the predicate is
      invoked once per inner exception; `accepted` counts the invocations
      that returned true. If any returned false, Handle throws a new
      aggregate, carrying e's message, whose inner exceptions are the
      rejected ones in their original order. */
  method Handle(e: Exn, handler: Option<Exn -> bool>) returns (outcome: Outcome, invocations: nat, accepted: nat)
    requires e.Agg?
    ensures handler.None? ==> outcome == Threw(ThrowsArgumentNull) && invocations == 0 && accepted == 0
    ensures handler.Some? ==> invocations == |e.inner|
    ensures handler.Some? ==> accepted == CountAccepted(e.inner, handler.value)
    ensures handler.Some? ==>
      var rejected := Rejected(e.inner, handler.value);
      outcome == if rejected == [] then Completed else Threw(ThrowsAggregate(Agg(Message(e), rejected)))
  {
    if handler.None? {
      return Threw(ThrowsArgumentNull), 0, 0;
    }
    var p := handler.value;
    var unhandled: seq<Exn> := [];
    invocations, accepted := 0, 0;
    while invocations < |e.inner|
      invariant invocations <= |e.inner|
      invariant unhandled == Rejected(e.inner[..invocations], p)
      invariant accepted == CountAccepted(e.inner[..invocations], p)
    {
      var x := e.inner[invocations];
      assert e.inner[..invocations + 1][..invocations] == e.inner[..invocations];
      if p(x) {
        accepted := accepted + 1;
      } else {
        unhandled := unhandled + [x];
      }
      invocations := invocations + 1;
    }
    assert e.inner[..invocations] == e.inner;
    if unhandled == [] {
      outcome := Completed;
    } else {
      outcome := Threw(ThrowsAggregate(Agg(Message(e), unhandled)));
    }
  }
}
