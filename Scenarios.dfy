/** The concrete cases of the AggregateException test suite, stated about
    the model. */
module Scenarios {
  import opened Exceptions
  import opened Construction
  import opened BaseResolution
  import opened Flattening
  import opened Handling

  const A: Exn := Plain(General, "A")
  const B: Exn := Plain(General, "B")
  const C: Exn := Plain(General, "C")

  /** `new Exception()` and `new ArgumentException()`: the runtime gives
      them non-empty default messages; the texts here are arbitrary
      placeholders and play no part in these cases. */
  const Anonymous: Exn := Plain(General, "Exception")
  const AnArgumentException: Exn := Plain(Argument, "ArgumentException")

  /** The three constructors without a list yield zero, zero and one inner
      exceptions, each with a message present. */
  lemma ConstructorBasic()
    ensures NewAggregate().inner == [] && Message(NewAggregate()) != []
    ensures NewWithMessage(Some("message")).inner == [] && Message(NewWithMessage(Some("message"))) == "message"
    ensures NewWithInner(Some("message"), Some(Anonymous)).Ok?
    ensures |NewWithInner(Some("message"), Some(Anonymous)).value.inner| == 1
  {
  }

  /** A null single exception, a null sequence and a sequence holding a
      null are each rejected, the last even next to a valid element. */
  lemma ConstructorInvalidArguments()
    ensures NewWithInner(Some("message"), None) == Err(ThrowsArgumentNull)
    ensures NewWithList(Some("message"), None) == Err(ThrowsArgumentNull)
    ensures NewWithList(Some("message"), Some([Some(Anonymous), None])) == Err(ThrowsArgument)
  {
  }

  /** Zero inner exceptions and two inner exceptions give the receiver
      back; a single inner exception, even an empty aggregate, is the base
      exception. */
  lemma BaseExceptions()
    ensures GetBaseException(NewAggregate()) == NewAggregate()
    ensures NewFromList(Some([])) == Ok(Agg(DefaultMessage, []))
    ensures GetBaseException(Agg(DefaultMessage, [])) == Agg(DefaultMessage, [])
    ensures NewFromList(Some([Some(NewAggregate())])) == Ok(Agg(DefaultMessage, [NewAggregate()]))
    ensures GetBaseException(Agg(DefaultMessage, [NewAggregate()])) == NewAggregate()
    ensures GetBaseException(Agg(DefaultMessage, [NewAggregate(), NewAggregate()]))
         == Agg(DefaultMessage, [NewAggregate(), NewAggregate()])
  {
    ListRoundTrip(None, []);
    ListRoundTrip(None, [NewAggregate()]);
    assert Wrapped([]) == [];
    assert Wrapped([NewAggregate()]) == [Some(NewAggregate())];
  }

  /** A predicate accepting every inner exception (three
      ArgumentExceptions) is invoked three times, accepts three and lets
      Handle complete. */
  method HandleAllAccepted() returns (outcome: Outcome, invocations: nat, accepted: nat)
    ensures outcome == Completed
    ensures invocations == 3 && accepted == 3
  {
    var e := Agg(DefaultMessage, [AnArgumentException, AnArgumentException, AnArgumentException]);
    NoneRejectedIffAllAccepted(e.inner, IsArgumentException);
    outcome, invocations, accepted := Handle(e, Some(IsArgumentException));
  }

  /** A null predicate throws ArgumentNullException; a predicate that
      rejects the plain Exception among two ArgumentExceptions makes
      Handle throw an aggregate. */
  method HandleInvalidCases() returns (nullCase: Outcome, rejectingCase: Outcome)
    ensures nullCase == Threw(ThrowsArgumentNull)
    ensures rejectingCase.Threw? && rejectingCase.error.ThrowsAggregate?
    ensures rejectingCase.error.raised.Agg? && rejectingCase.error.raised.inner == [Anonymous]
  {
    var calls, handled;
    nullCase, calls, handled := Handle(NewAggregate(), None);
    var e := Agg(DefaultMessage, [Anonymous, AnArgumentException, AnArgumentException]);
    var handledTail := [AnArgumentException, AnArgumentException];
    NoneRejectedIffAllAccepted(handledTail, IsArgumentException);
    RejectedConcat([Anonymous], handledTail, IsArgumentException);
    assert [Anonymous][..0] == [];
    assert e.inner == [Anonymous] + handledTail;
    rejectingCase, calls, handled := Handle(e, Some(IsArgumentException));
  }

  /** The aggregate of A, B and C used by the flattening cases. */
  const AggBase: Exn := Agg("message", [A, B, C])
  /** An aggregate holding AggBase twice. */
  const AggRecurse: Exn := Agg("message", [AggBase, AggBase])

  /** The derived message of AggBase, and flattening it without nesting. */
  lemma FlattenWithoutNesting()
    ensures NewWithList(Some("message"), Some([Some(A), Some(B), Some(C)])) == Ok(AggBase)
    ensures Message(AggBase) == "message (A) (B) (C)"
    ensures Flatten(AggBase).inner == [A, B, C]
    ensures Message(Flatten(AggBase)) == "message (A) (B) (C)"
  {
    ListRoundTrip(Some("message"), [A, B, C]);
    assert Wrapped([A, B, C]) == [Some(A), Some(B), Some(C)];
    assert ChildMessages(AggBase) == ["A", "B", "C"];
    ParenthesizedABC();
    FlattenOfFlat(AggBase);
  }

  /** Flattening an aggregate of two copies of AggBase gives its three
      leaves twice, in order. */
  lemma FlattenWithNesting()
    ensures Flatten(AggRecurse).inner == [A, B, C, A, B, C]
  {
    FlattenTwoLevels([AggBase, AggBase]);
    assert [AggBase, AggBase][1..] == [AggBase];
    assert ConcatInner([AggBase]) == [A, B, C];
  }

  /** The flattened message is built from the base message "message" over
      the six leaves ... */
  lemma FlattenWithNestingMessage()
    ensures Message(Flatten(AggRecurse)) == "message (A) (B) (C) (A) (B) (C)"
  {
    FlattenWithNesting();
    assert Flatten(AggRecurse) == Agg("message", [A, B, C] + [A, B, C]);
    SixLeavesMessage();
  }

  lemma SixLeavesMessage()
    ensures Message(Agg("message", [A, B, C] + [A, B, C])) == "message (A) (B) (C) (A) (B) (C)"
  {
    MessageConcat("message", [A, B, C], [A, B, C]);
    FlattenWithoutNesting();
    assert ChildMessages(AggBase) == ["A", "B", "C"];
    ParenthesizedABC();
  }

  /** ... and not from the derived message of the receiver, which nests the
      derived message of each child in parentheses. */
  lemma NestedDerivedMessage()
    ensures Message(AggRecurse) == "message" + " (" + Message(AggBase) + ")" + " (" + Message(AggBase) + ")"
    ensures Message(Flatten(AggRecurse)) != Message(AggRecurse)
  {
    var m := Message(AggBase);
    assert ChildMessages(AggRecurse) == [m, m];
    assert [m, m][..1] == [m];
    assert [m][..0] == [];
    assert Parenthesized([m]) == " (" + m + ")";
    assert Message(AggRecurse) == "message" + (" (" + m + ")" + " (" + m + ")");
    FlattenWithNestingMessage();
    FlattenWithoutNesting();
    assert Message(Flatten(AggRecurse))[9] == 'A';
    assert Message(AggRecurse)[9] == 'm';
  }

  lemma ParenthesizedABC()
    ensures Parenthesized(["A", "B", "C"]) == " (A) (B) (C)"
  {
    assert ["A", "B", "C"][..2] == ["A", "B"];
    assert ["A", "B"][..1] == ["A"];
    assert ["A"][..0] == [];
  }
}
