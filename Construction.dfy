/** The AggregateException constructors. Every constructor that takes inner
    exceptions validates them eagerly: a failed construction yields no
    object, only the exception it throws. */
module Construction {
  import opened Exceptions

  /** The message used when none is supplied. Its exact (localized) text is
      not part of the model; only that it is present and non-empty. */
  const DefaultMessage: string := "One or more errors occurred."

  /** The base message for a constructor's message argument; a null message
      falls back to a default text. */
  function BaseMessage(message: Option<string>): (b: string)
    ensures message.Some? ==> b == message.value
    ensures message.None? ==> b != []
  {
    match message
    case Some(m) => m
    case None => DefaultMessage
  }

  /** `new AggregateException()`: no inner exceptions, a default message. */
  function NewAggregate(): (r: Exn)
    ensures r.Agg? && r.inner == []
    ensures Message(r) != []
  {
    Agg(DefaultMessage, [])
  }

  /** `new AggregateException(message)`: no inner exceptions; the message
      is the supplied one, or the default when it is null. */
  function NewWithMessage(message: Option<string>): (r: Exn)
    ensures r.Agg? && r.inner == []
    ensures message.Some? ==> Message(r) == message.value
    ensures message.None? ==> Message(r) != []
  {
    Agg(BaseMessage(message), [])
  }

  /** `new AggregateException(message, innerException)`: exactly one inner
      exception; a null inner exception throws ArgumentNullException. */
  function NewWithInner(message: Option<string>, innerException: Option<Exn>): (r: Result<Exn>)
    ensures innerException.None? <==> r == Err(ThrowsArgumentNull)
    ensures innerException.Some? ==>
      r.Ok? && r.value.Agg? && r.value.inner == [innerException.value]
      && Message(r.value) == BaseMessage(message) + " (" + Message(innerException.value) + ")"
  {
    match innerException
    case None => Err(ThrowsArgumentNull)
    case Some(x) =>
      var r := Agg(BaseMessage(message), [x]);
      MessageAppend(BaseMessage(message), [], x);
      assert [] + [x] == [x];
      Ok(r)
  }

  /** The elements of a sequence that may hold nulls, if it holds none. */
  function NonNull(xs: seq<Option<Exn>>): (r: Option<seq<Exn>>)
    ensures r.Some? <==> None !in xs
    ensures r.Some? ==> |r.value| == |xs| && forall i :: 0 <= i < |xs| ==> xs[i] == Some(r.value[i])
  {
    if xs == [] then Some([])
    else match NonNull(xs[..|xs| - 1])
      case None => None
      case Some(front) =>
        assert xs == xs[..|xs| - 1] + [xs[|xs| - 1]];
        match xs[|xs| - 1]
        case None => None
        case Some(x) => Some(front + [x])
  }

  /** `new AggregateException(message, innerExceptions)`: the inner
      exceptions in the order given. A null sequence throws
      ArgumentNullException; a sequence holding a null element throws
      ArgumentException, whatever the other elements are. */
  function NewWithList(message: Option<string>, innerExceptions: Option<seq<Option<Exn>>>): (r: Result<Exn>)
    ensures innerExceptions.None? ==> r == Err(ThrowsArgumentNull)
    ensures innerExceptions.Some? && None in innerExceptions.value ==> r == Err(ThrowsArgument)
    ensures r.Ok? <==> innerExceptions.Some? && None !in innerExceptions.value
    ensures r.Ok? ==>
      r.value.Agg? && r.value.baseMsg == BaseMessage(message)
      && |r.value.inner| == |innerExceptions.value|
      && forall i :: 0 <= i < |r.value.inner| ==> innerExceptions.value[i] == Some(r.value.inner[i])
  {
    match innerExceptions
    case None => Err(ThrowsArgumentNull)
    case Some(xs) =>
      match NonNull(xs)
      case None => Err(ThrowsArgument)
      case Some(inner) => Ok(Agg(BaseMessage(message), inner))
  }

  /** `new AggregateException(innerExceptions)`: as NewWithList, with the
      default message. */
  function NewFromList(innerExceptions: Option<seq<Option<Exn>>>): (r: Result<Exn>)
    ensures innerExceptions.None? ==> r == Err(ThrowsArgumentNull)
    ensures innerExceptions.Some? && None in innerExceptions.value ==> r == Err(ThrowsArgument)
    ensures r.Ok? <==> innerExceptions.Some? && None !in innerExceptions.value
    ensures r.Ok? ==>
      r.value.Agg? && r.value.baseMsg == DefaultMessage
      && |r.value.inner| == |innerExceptions.value|
      && forall i :: 0 <= i < |r.value.inner| ==> innerExceptions.value[i] == Some(r.value.inner[i])
  {
    NewWithList(None, innerExceptions)
  }

  /** The null-wrapped view of a sequence of exceptions, as a caller passes
      them to a constructor. */
  function Wrapped(xs: seq<Exn>): (r: seq<Option<Exn>>)
    ensures None !in r
  {
    seq(|xs|, i requires 0 <= i < |xs| => Some(xs[i]))
  }

  /** Round trip: constructing from exceptions none of which is null
      succeeds, and InnerExceptions gives back exactly those exceptions, in
      order. */
  lemma ListRoundTrip(message: Option<string>, xs: seq<Exn>)
    ensures NewWithList(message, Some(Wrapped(xs))) == Ok(Agg(BaseMessage(message), xs))
  {
    var r := NewWithList(message, Some(Wrapped(xs)));
    assert r.value.inner == xs;
  }
}
