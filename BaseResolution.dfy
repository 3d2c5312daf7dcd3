/** `AggregateException.GetBaseException`: the root cause reached by
    descending through aggregates that wrap exactly one inner exception. */
module BaseResolution {
  import opened Exceptions

  /** True when the descent continues below e. */
  predicate HasSingleInner(e: Exn) {
    e.Agg? && |e.inner| == 1
  }

  /** The nesting depth of an exception; only used to say that the descent
      goes strictly downwards. */
  function Depth(e: Exn): nat
    decreases e, 1
  {
    match e
    case Plain(_, _) => 0
    case Agg(_, inner) => 1 + MaxDepth(e, |inner|)
  }

  /** The greatest depth among the first k inner exceptions of e. */
  function MaxDepth(e: Exn, k: nat): nat
    requires e.Agg? && k <= |e.inner|
    decreases e, 0, k
  {
    if k == 0 then 0
    else
      var d := Depth(e.inner[k - 1]);
      var rest := MaxDepth(e, k - 1);
      if d > rest then d else rest
  }

  /** x is reached from e by descending only through aggregates that wrap
      exactly one inner exception. */
  ghost predicate OnSingleChain(e: Exn, x: Exn)
    decreases e
  {
    e == x || (HasSingleInner(e) && OnSingleChain(e.inner[0], x))
  }

  /** The receiver itself when it has zero or at least two inner
      exceptions; otherwise the base exception of its single inner
      exception, where a non-aggregate child ends the walk. */
  function GetBaseException(e: Exn): (r: Exn)
    decreases e
    ensures !HasSingleInner(r)
    ensures OnSingleChain(e, r)
    ensures !HasSingleInner(e) ==> r == e
    ensures HasSingleInner(e) ==> Depth(r) < Depth(e)
  {
    if HasSingleInner(e) then
      var r := GetBaseException(e.inner[0]);
      DepthOfOnlyChild(e);
      r
    else e
  }

  lemma DepthOfOnlyChild(e: Exn)
    requires HasSingleInner(e)
    ensures Depth(e) == 1 + Depth(e.inner[0])
  {
    assert MaxDepth(e, 1) == Depth(e.inner[0]);
  }

  /** The base exception is its own base exception. */
  lemma GetBaseExceptionIdempotent(e: Exn)
    ensures GetBaseException(GetBaseException(e)) == GetBaseException(e)
  {
  }

  /** Along a single-child chain there is exactly one exception that does
      not itself wrap exactly one: the descent has a unique end. */
  lemma {:induction false} ChainEndUnique(e: Exn, x: Exn, y: Exn)
    requires OnSingleChain(e, x) && !HasSingleInner(x)
    requires OnSingleChain(e, y) && !HasSingleInner(y)
    ensures x == y
    decreases e
  {
    if e != x && e != y {
      ChainEndUnique(e.inner[0], x, y);
    }
  }

  /** The base exception is the end of the single-child chain below the
      receiver, and nothing else is. */
  lemma BaseIsChainEnd(e: Exn, x: Exn)
    requires OnSingleChain(e, x) && !HasSingleInner(x)
    ensures GetBaseException(e) == x
  {
    ChainEndUnique(e, x, GetBaseException(e));
  }

  /** x wrapped in one single-child aggregate per message in bases, the
      first message outermost. */
  function Wrap(bases: seq<string>, x: Exn): (r: Exn)
    ensures bases != [] ==> HasSingleInner(r)
  {
    if bases == [] then x else Agg(bases[0], [Wrap(bases[1..], x)])
  }

  /** A chain of single-child aggregates, however long and whatever their
      base messages, collapses to the innermost exception that does not
      itself wrap exactly one. */
  lemma {:induction false} ChainCollapses(bases: seq<string>, x: Exn)
    requires !HasSingleInner(x)
    ensures GetBaseException(Wrap(bases, x)) == x
    decreases |bases|
  {
    if bases != [] {
      ChainCollapses(bases[1..], x);
    }
  }
}
