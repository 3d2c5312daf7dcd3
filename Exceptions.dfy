/** The exception values an AggregateException holds, and the failures its
    operations signal. Exceptions are immutable values: an aggregate is
    created fully formed and never changes afterwards. */
module Exceptions {

  /** The runtime type of a non-aggregate exception, as far as the
      behaviour modelled here distinguishes it. */
  datatype Kind = General | Argument | ArgumentNull

  /** An exception: either a plain one carrying its message, or an
      AggregateException with its base (caller-supplied or default) message
      and its ordered inner exceptions. */
  datatype Exn =
    | Plain(kind: Kind, msg: string)
    | Agg(baseMsg: string, inner: seq<Exn>)

  /** `e is ArgumentException`: ArgumentNullException derives from it. */
  predicate IsArgumentException(e: Exn) {
    e.Plain? && (e.kind == Argument || e.kind == ArgumentNull)
  }

  /** What an operation throws instead of returning. */
  datatype Failure =
    | ThrowsArgumentNull
    | ThrowsArgument
    | ThrowsAggregate(raised: Exn)

  datatype Option<+T> = None | Some(value: T)

  datatype Result<+T> = Ok(value: T) | Err(error: Failure)

  /** Completion of an operation that returns nothing. */
  datatype Outcome = Completed | Threw(error: Failure)

  /** The text appended to an aggregate's base message for its children:
      " (m)" for each child message m, in order. */
  function Parenthesized(ms: seq<string>): string
  {
    if ms == [] then "" else Parenthesized(ms[..|ms| - 1]) + " (" + ms[|ms| - 1] + ")"
  }

  /** The `Message` property. A plain exception shows its own message; an
      aggregate shows its base message followed by the parenthesized message
      of each inner exception. */
  function Message(e: Exn): (m: string)
    decreases e, 1
    ensures e.Agg? ==> e.baseMsg <= m
    ensures e.Agg? && e.inner == [] ==> m == e.baseMsg
  {
    match e
    case Plain(_, msg) => msg
    case Agg(b, _) => b + Parenthesized(ChildMessages(e))
  }

  /** The messages of an aggregate's inner exceptions, in order. */
  function ChildMessages(e: Exn): (ms: seq<string>)
    requires e.Agg?
    decreases e, 0
    ensures |ms| == |e.inner|
  {
    seq(|e.inner|, i requires 0 <= i < |e.inner| => Message(e.inner[i]))
  }

  lemma {:induction false} ParenthesizedConcat(a: seq<string>, b: seq<string>)
    ensures Parenthesized(a + b) == Parenthesized(a) + Parenthesized(b)
    decreases |b|
  {
    if b == [] {
      assert a + b == a;
    } else {
      var b' := b[..|b| - 1];
      assert (a + b)[..|a + b| - 1] == a + b';
      ParenthesizedConcat(a, b');
    }
  }

  /** Adding an inner exception at the end extends the derived message by
      exactly " (m)", where m is the new child's own message. */
  lemma MessageAppend(b: string, s: seq<Exn>, x: Exn)
    ensures Message(Agg(b, s + [x])) == Message(Agg(b, s)) + " (" + Message(x) + ")"
  {
    assert ChildMessages(Agg(b, s + [x])) == ChildMessages(Agg(b, s)) + [Message(x)];
  }

  /** The derived message of an aggregate over s1 + s2 is the one over s1
      followed by the parenthesized messages of s2. */
  lemma MessageConcat(b: string, s1: seq<Exn>, s2: seq<Exn>)
    ensures Message(Agg(b, s1 + s2)) == Message(Agg(b, s1)) + Parenthesized(ChildMessages(Agg(b, s2)))
  {
    assert ChildMessages(Agg(b, s1 + s2)) == ChildMessages(Agg(b, s1)) + ChildMessages(Agg(b, s2));
    ParenthesizedConcat(ChildMessages(Agg(b, s1)), ChildMessages(Agg(b, s2)));
  }
}
