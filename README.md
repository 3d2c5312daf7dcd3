# AggregateException, modelled in Dafny

A behavioural model of .NET's `System.AggregateException`. It is the composite
exception that reports several failures as one value. An aggregate is an
immutable value: a base message plus an ordered sequence of inner exceptions.
The model covers:

- its constructors and their argument validation;
- the derived `Message` (the base message followed by ` (m)` for each inner
  exception's message, in order);
- `GetBaseException` (the descent through aggregates with exactly one inner
  exception);
- `Handle(predicate)` (offer every inner exception to a predicate, and throw a
  new aggregate if any is not handled);
- `Flatten` (replace nested aggregates by the non-aggregate exceptions below
  them, and rebuild the message from the receiver's base message).

The behaviour is taken from the test suite
`src/libraries/System.Threading.Tasks/tests/AggregateExceptionTests.cs`. The
implementation file of the type is not part of this model. The concrete cases
of the tests are proved as lemmas in `Scenarios.dfy`.

Modules:

- `Exceptions` (`Exceptions.dfy`): the `Exn` datatype. It is
  `Plain(kind, msg)` for a non-aggregate exception, whose `Kind` is enough to
  express `e is ArgumentException` (the predicate `IsArgumentException`, which
  the test cases pass to `Handle`), or `Agg(baseMsg, inner)`. The module
  also holds the `Failure` values an operation can throw (ArgumentNullException,
  ArgumentException, a new AggregateException), `Message` and its lemmas.
- `Construction`: the constructors. A C# `null` is `None` of an `Option`. A
  constructor that throws returns `Err(failure)`.
- `BaseResolution`: `GetBaseException`.
- `Handling`: `Handle`. It is a method with a loop that invokes the predicate
  once per inner exception and counts the calls and the accepting calls (the
  tests count them with a captured counter). It is proved against the
  specification functions `Rejected` and `CountAccepted`.
- `Flattening`: `Flatten` over the recursive function `Leaves`.
- `Scenarios`: the test cases.

## Model

| member | source | states |
|---|---|---|
| Exceptions.Message | src/libraries/System.Threading.Tasks/tests/AggregateExceptionTests.cs:103-105 | An aggregate's message starts with its base message; with no inner exceptions it is exactly the base message |
| Exceptions.MessageAppend | src/libraries/System.Threading.Tasks/tests/AggregateExceptionTests.cs:103-105 | Adding an inner exception at the end extends the message by exactly " (m)", where m is that exception's message |
| Exceptions.MessageConcat | src/libraries/System.Threading.Tasks/tests/AggregateExceptionTests.cs:119-126 | The message over s1 + s2 is the message over s1 followed by the parenthesized messages of s2, in order |
| Construction.BaseMessage | src/libraries/System.Threading.Tasks/tests/AggregateExceptionTests.cs:18-20 | A supplied message is kept as given; a null one becomes a present, non-empty default |
| Construction.NewAggregate | src/libraries/System.Threading.Tasks/tests/AggregateExceptionTests.cs:14-16 | The default constructor yields zero inner exceptions and a non-empty message |
| Construction.NewWithMessage | src/libraries/System.Threading.Tasks/tests/AggregateExceptionTests.cs:18-20 | The message constructor yields zero inner exceptions, and the message is the one supplied (the default if null) |
| Construction.NewWithInner | src/libraries/System.Threading.Tasks/tests/AggregateExceptionTests.cs:22-31 | A null inner exception throws ArgumentNullException, and only a null one does; otherwise the result has exactly that one inner exception and the message "base (m)" |
| Construction.NonNull | src/libraries/System.Threading.Tasks/tests/AggregateExceptionTests.cs:35 | Unwrapping succeeds exactly when no element is null, and then keeps every element in place |
| Construction.NewWithList | src/libraries/System.Threading.Tasks/tests/AggregateExceptionTests.cs:33-35 | A null sequence throws ArgumentNullException; a sequence with any null element throws ArgumentException; construction succeeds iff neither, and then the inner exceptions are the given ones, in order |
| Construction.NewFromList | src/libraries/System.Threading.Tasks/tests/AggregateExceptionTests.cs:44-53 | The overload without a message validates the same way: a null sequence gives ArgumentNullException, a null element gives ArgumentException, and it succeeds iff neither; on success it has the default message and the given inner exceptions in order |
| Construction.ListRoundTrip | src/libraries/System.Threading.Tasks/tests/AggregateExceptionTests.cs:103-115 | Constructing from non-null exceptions succeeds, and InnerExceptions gives back exactly those exceptions |
| BaseResolution.GetBaseException | src/libraries/System.Threading.Tasks/tests/AggregateExceptionTests.cs:38-55 | The result is reached from the receiver through single-child aggregates only, and it does not itself wrap exactly one inner exception. With 0 or at least 2 inner exceptions it is the receiver itself. Otherwise the descent goes strictly deeper |
| BaseResolution.GetBaseExceptionIdempotent | src/libraries/System.Threading.Tasks/tests/AggregateExceptionTests.cs:38-55 | The base exception is its own base exception |
| BaseResolution.ChainEndUnique | src/libraries/System.Threading.Tasks/tests/AggregateExceptionTests.cs:38-55 | A single-child chain has exactly one end that does not itself wrap exactly one inner exception |
| BaseResolution.BaseIsChainEnd | src/libraries/System.Threading.Tasks/tests/AggregateExceptionTests.cs:38-55 | For every receiver, the base exception is that unique end of its single-child chain |
| BaseResolution.ChainCollapses | src/libraries/System.Threading.Tasks/tests/AggregateExceptionTests.cs:48-50 | Any chain of single-child aggregates, with any base message at each level, collapses to the innermost exception that does not itself wrap exactly one |
| Flattening.Leaves | src/libraries/System.Threading.Tasks/tests/AggregateExceptionTests.cs:110-126 | The expanded sequence contains no aggregate |
| Flattening.Flatten | src/libraries/System.Threading.Tasks/tests/AggregateExceptionTests.cs:110-126 | The result is an aggregate with the receiver's base message (not its derived message) and no nested aggregate |
| Flattening.LeavesConcat | src/libraries/System.Threading.Tasks/tests/AggregateExceptionTests.cs:119-125 | Flattening distributes over concatenation of inner sequences |
| Flattening.LeavesOfFlat | src/libraries/System.Threading.Tasks/tests/AggregateExceptionTests.cs:110-115 | A sequence without aggregates is left unchanged |
| Flattening.FlattenOfFlat | src/libraries/System.Threading.Tasks/tests/AggregateExceptionTests.cs:110-116 | Flattening an aggregate of plain exceptions returns the same inner sequence and the same message |
| Flattening.FlattenIdempotent | src/libraries/System.Threading.Tasks/tests/AggregateExceptionTests.cs:110-126 | Flattening twice is the same as flattening once |
| Flattening.LeavesAreReachablePlain | src/libraries/System.Threading.Tasks/tests/AggregateExceptionTests.cs:118-125 | An exception is in the flattened sequence iff it is a non-aggregate reachable from some inner exception |
| Flattening.FlattenTwoLevels | src/libraries/System.Threading.Tasks/tests/AggregateExceptionTests.cs:119-125 | When every inner exception is an aggregate of plain exceptions, the flattened sequence is their inner sequences concatenated in order |
| Handling.Rejected | src/libraries/System.Threading.Tasks/tests/AggregateExceptionTests.cs:82-92 | Every rejected exception is an inner exception that the predicate does not accept |
| Handling.CountAccepted | src/libraries/System.Threading.Tasks/tests/AggregateExceptionTests.cs:62-72 | The number of inner exceptions the predicate accepts (the tests' `handledCount`) is at most InnerExceptions.Count |
| Handling.AcceptedPlusRejected | src/libraries/System.Threading.Tasks/tests/AggregateExceptionTests.cs:62-72 | Every inner exception is counted as accepted or returned as rejected, never both and never neither |
| Handling.NoneRejectedIffAllAccepted | src/libraries/System.Threading.Tasks/tests/AggregateExceptionTests.cs:60-92 | Nothing is rejected iff the predicate accepts every inner exception, iff the accepted count equals InnerExceptions.Count |
| Handling.RejectedConcat | src/libraries/System.Threading.Tasks/tests/AggregateExceptionTests.cs:81-92 | Rejection over a concatenation is rejection over each part, in order |
| Handling.Handle | src/libraries/System.Threading.Tasks/tests/AggregateExceptionTests.cs:57-92 | A null predicate throws ArgumentNullException without any invocation. Otherwise the predicate is invoked exactly InnerExceptions.Count times, and the accepted count is counted. Handle completes iff nothing is rejected, else it throws an aggregate of the rejected exceptions |
| Scenarios.ConstructorBasic | src/libraries/System.Threading.Tasks/tests/AggregateExceptionTests.cs:11-25 | The three basic constructors give 0, 0 and 1 inner exceptions with messages present |
| Scenarios.ConstructorInvalidArguments | src/libraries/System.Threading.Tasks/tests/AggregateExceptionTests.cs:27-36 | The null single exception, the null sequence and `[Exception, null]` are rejected with the expected exception types |
| Scenarios.BaseExceptions | src/libraries/System.Threading.Tasks/tests/AggregateExceptionTests.cs:38-55 | Base exception of the empty aggregate, of an empty list, of a one-element list holding an empty aggregate, and of a two-element list |
| Scenarios.HandleAllAccepted | src/libraries/System.Threading.Tasks/tests/AggregateExceptionTests.cs:57-73 | Three ArgumentExceptions: Handle completes after three invocations, all accepting |
| Scenarios.HandleInvalidCases | src/libraries/System.Threading.Tasks/tests/AggregateExceptionTests.cs:75-93 | A null predicate throws ArgumentNullException; rejecting the plain Exception throws an aggregate |
| Scenarios.FlattenWithoutNesting | src/libraries/System.Threading.Tasks/tests/AggregateExceptionTests.cs:99-116 | "message (A) (B) (C)", and flattening gives [A,B,C] with the same message |
| Scenarios.FlattenWithNesting | src/libraries/System.Threading.Tasks/tests/AggregateExceptionTests.cs:118-125 | Flattening an aggregate of the aggregate twice gives [A,B,C,A,B,C] |
| Scenarios.FlattenWithNestingMessage | src/libraries/System.Threading.Tasks/tests/AggregateExceptionTests.cs:126 | The flattened message is "message (A) (B) (C) (A) (B) (C)" |
| Scenarios.NestedDerivedMessage | src/libraries/System.Threading.Tasks/tests/AggregateExceptionTests.cs:119-126 | The receiver's own derived message nests its children's messages and differs from the flattened one, so Flatten builds from the base message |

## Left out

- The exact default message text and its localization. `DefaultMessage` is a placeholder; only its presence and non-emptiness are used. The runtime has two different default texts: one for an omitted message and one for a `null` message. The model uses one text for both.
- Identity: exceptions are compared by value, not by reference. Two distinct exceptions with equal contents are indistinguishable here. The tests only compare an exception with itself or with the very object they passed in.
- Flatten ordering at mixed depths, for example a plain exception next to a nested aggregate. `Leaves` expands each nested aggregate in place (pre-order). This is an assumption: the tests fix the order only when all leaves are at the same depth, and `FlattenTwoLevels` proves that case without depending on the choice.
- Handling.Handle: the contents of the thrown aggregate are a design choice. The rejected exceptions are kept in order, under the receiver's derived message. The tests only assert that an AggregateException is thrown.
- Handling.Handle: the predicate is a pure function value. Side effects other than the counting that the tests do are not modelled. An exception thrown by the predicate itself is not modelled.
- The `params Exception[]` and `IEnumerable<Exception>` overloads are both modelled by `NewWithList`. How they copy their argument cannot be observed in a value model.
- `GetBaseException` on a non-aggregate exception: `Plain` has no `InnerException`, so the base exception is the exception itself. The `Exception.InnerException` chain of non-aggregate exceptions belongs to other runtime code.
- Subclasses of AggregateException and runtime type tests. The model uses the `Plain`/`Agg` variants and a `Kind` tag instead.
- Stack traces, serialization, and the Task machinery that produces aggregated exceptions (concurrency).
- Immutability and "Flatten does not mutate the receiver": both hold by construction, because `Exn` is an immutable datatype value.
