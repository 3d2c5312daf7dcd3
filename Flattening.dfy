/** `AggregateException.Flatten`: a new aggregate whose inner exceptions are
    the non-aggregate exceptions found anywhere below the receiver, with
    every nested aggregate replaced by its own inner exceptions. */
module Flattening {
  import opened Exceptions

  /** No inner exception is itself an aggregate. */
  predicate IsFlat(s: seq<Exn>) {
    forall i :: 0 <= i < |s| ==> s[i].Plain?
  }

  /** The non-aggregate exceptions below s, left to right, each nested
      aggregate expanded in place (pre-order). */
  function Leaves(s: seq<Exn>): (r: seq<Exn>)
    decreases s
    ensures IsFlat(r)
  {
    if s == [] then []
    else
      var head := if s[0].Agg? then Leaves(s[0].inner) else [s[0]];
      head + Leaves(s[1..])
  }

  /** The receiver's base message over the flattened inner exceptions: the
      message of the result is derived from the receiver's base message,
      not from its derived Message. */
  function Flatten(e: Exn): (r: Exn)
    requires e.Agg?
    ensures r.Agg? && r.baseMsg == e.baseMsg && IsFlat(r.inner)
  {
    Agg(e.baseMsg, Leaves(e.inner))
  }

  /** x is e itself or lies somewhere below it. */
  ghost predicate Reaches(e: Exn, x: Exn)
    decreases e
  {
    e == x || (e.Agg? && exists c :: c in e.inner && Reaches(c, x))
  }

  /** Flattening distributes over concatenation of inner sequences. */
  lemma {:induction false} LeavesConcat(s1: seq<Exn>, s2: seq<Exn>)
    ensures Leaves(s1 + s2) == Leaves(s1) + Leaves(s2)
    decreases s1
  {
    if s1 != [] {
      assert (s1 + s2)[1..] == s1[1..] + s2;
      LeavesConcat(s1[1..], s2);
    } else {
      assert s1 + s2 == s2;
    }
  }

  /** A sequence with no aggregates in it is left as it is. */
  lemma {:induction false} LeavesOfFlat(s: seq<Exn>)
    requires IsFlat(s)
    ensures Leaves(s) == s
    decreases s
  {
    if s != [] {
      LeavesOfFlat(s[1..]);
    }
  }

  /** Flattening an already flat aggregate changes nothing: the result is
      the receiver itself, derived message included. */
  lemma FlattenOfFlat(e: Exn)
    requires e.Agg? && IsFlat(e.inner)
    ensures Flatten(e) == e
    ensures Message(Flatten(e)) == Message(e)
  {
    LeavesOfFlat(e.inner);
  }

  /** Flatten is idempotent. */
  lemma FlattenIdempotent(e: Exn)
    requires e.Agg?
    ensures Flatten(Flatten(e)) == Flatten(e)
  {
    LeavesOfFlat(Flatten(e).inner);
  }

  /** The flattened inner exceptions are exactly the non-aggregate
      exceptions reachable from the receiver's inner exceptions. */
  lemma {:induction false} LeavesAreReachablePlain(s: seq<Exn>, x: Exn)
    ensures x in Leaves(s) <==> x.Plain? && exists c :: c in s && Reaches(c, x)
    decreases s
  {
    if s != [] {
      var c0 := s[0];
      LeavesAreReachablePlain(s[1..], x);
      if c0.Agg? {
        LeavesAreReachablePlain(c0.inner, x);
      }
      assert x in Leaves(s) <==> (if c0.Agg? then x in Leaves(c0.inner) else x == c0) || x in Leaves(s[1..]);
      assert x.Plain? ==> (Reaches(c0, x) <==> if c0.Agg? then exists c :: c in c0.inner && Reaches(c, x) else x == c0);
      assert (exists c :: c in s && Reaches(c, x)) <==> Reaches(c0, x) || exists c :: c in s[1..] && Reaches(c, x) by {
        assert forall c :: c in s <==> c == c0 || c in s[1..];
      }
    }
  }

  /** The concatenation of the inner sequences of a sequence of aggregates. */
  function ConcatInner(s: seq<Exn>): (r: seq<Exn>)
    requires forall i :: 0 <= i < |s| ==> s[i].Agg?
  {
    if s == [] then [] else s[0].inner + ConcatInner(s[1..])
  }

  /** When every inner exception is an aggregate of non-aggregates (all
      leaves at the same depth), flattening yields their inner exceptions
      concatenated in order: pre-order and level-order agree here. */
  lemma {:induction false} FlattenTwoLevels(s: seq<Exn>)
    requires forall i :: 0 <= i < |s| ==> s[i].Agg? && IsFlat(s[i].inner)
    ensures Leaves(s) == ConcatInner(s)
    decreases s
  {
    if s != [] {
      LeavesOfFlat(s[0].inner);
      FlattenTwoLevels(s[1..]);
    }
  }
}
