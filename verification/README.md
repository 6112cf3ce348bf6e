# dynabridge in Dafny

A model of the parts of dynabridge that hold protocols, codecs and algorithms, with proofs.

* **Asynchronous completion** (`Async.dfy`, `AsyncRuns.dfy`, `AsyncSettling.dfy`, `AsyncHistory.dfy`,
  `AsyncState.dfy`). `Async` gives one step per critical section or unlocked action of
  `operation_state`. `AsyncRuns`
  lets any number of `finish` and `detach` calls interleave with one submission and proves what every
  run keeps. `AsyncSettling` shows that started calls can always be run to their end. `AsyncHistory`
  compares what a run requested with what the handler and the resources saw. `AsyncState` is
  the control block as a class whose methods are proved equal to those steps run without interference.
* **Remote calls** (`Words.dfy`, `Symbols.dfy`, `Wire.dfy`, `WireProofs.dfy`, `Layout.dfy`, `Codec.dfy`,
  `Overloads.dfy`, `Binder.dfy`, `Routes.dfy`, `Server.dfy`, `RemoteCall.dfy`). `Wire`, `Overloads`
  and `Routes` are the functions; `Codec`, `Binder` and `Server` are the writer, reader, dispatcher
  and router that update state, proved to compute them. `WireProofs` characterises the frame languages,
  `Layout` writes them out in literal bytes, and `RemoteCall` proves that a call over the loopback
  transport is the call of the first matching overload.
* **Executors** (`UvExecutor.dfy`, `UvExecutorState.dfy`, `PythonExecutor.dfy`,
  `PythonExecutorState.dfy`). Step models of the queues, wakeups and shutdowns, and the same state
  edited in place.
* **Interface names** (`Interfaces.dfy`). The balanced compile-time scan and the duplicate checks.

Conventions. Integers are mathematical; a C++ width or wrap-around is written out, and `std::size_t`
has 64 bits. A double is its 64-bit pattern. Bitwise `|` and `^` are defined bit by bit on natural
numbers. A thrown exception is an error value, and `std::terminate` or `std::abort` is a precondition
or, for a rejected submission, the `aborted` state. Native code is a function from its arguments to an
outcome, which may be a thrown message. The order in which C++ evaluates the conversions of one
candidate is the `schedule` argument, about which nothing is assumed except that it lists every
argument once. Payloads and tasks are opaque integers.

Where the code and what one might expect of it differ:

* `encode_response` reserves one byte more than a response has (`Codec.BuildResponse`); requests and
  error frames are reserved exactly.
* A route is found by the id of a name, not by the name, so a name nobody defined is answered by the
  binder of a defined name with the same id (`Routes.LookupByName`). `7mohtcOFVz` and `c1E51sSEyx` are
  two such names (`Symbols.CollisionsExist`, `Routes.UndefinedNameCanBeFound`).
* An oversized string result becomes an ordinary error reply; only an oversized exception message
  leaves `dispatch` as an exception (`Routes.ServeIsTotal`, `Routes.OversizedMessageEscapes`).
* Declaration order is irrelevant exactly when no two overloads declare the same kinds
  (`Overloads.OrderFreeIffDistinct`), which is sharper than the comment above the dispatcher.

## Model

| member | source | states |
|---|---|---|
| AsyncRuns.HandlerAtMostOnce | dynabridge/async.h:77-136 | In every interleaving the handler has been given nothing, or exactly one result: that of the first event in lock order that is a finish, or a detach after submission ended |
| AsyncRuns.NothingIsLost | dynabridge/async.h:77-136 | In every quiet state the handler has been called exactly once if anybody finished, detached or rejected, and not at all otherwise |
| AsyncRuns.RecordedDetachReturns | dynabridge/async.h:83-86 | The first error recorded by a detach during submission is asked again, as a detach, after submission ends |
| AsyncRuns.ReleasedOnceNeverEarly | dynabridge/async.h:116-125 | Operation and context are reset at most once, only after a finish and the end of submission, and a quiet state is cleaned exactly when it is retired |
| AsyncRuns.GuardFollowsTheFinish | dynabridge/async.h:87-104 | The guard is in its slot until a finish was asked, is dropped once, and is already dropped when the retiring finish calls the handler |
| AsyncRuns.DetachLeavesTheGuard | dynabridge/async.h:83-104 | A frame that entered as a detach neither takes, holds nor drops the guard at any of its steps |
| AsyncRuns.RejectionAgainstFinish | dynabridge/async.h:126-129 | In every reachable state a rejection aborts exactly when a finish took the lock before its check, does nothing but take the lock when one came in between, and otherwise retires itself |
| AsyncRuns.RejectionReleases | dynabridge/async.h:116-129 | A run aborts only before submission ended, after a finish; a rejected submission that goes on ends retired with everything released and the guard dropped |
| AsyncRuns.ReachableKeeps | dynabridge/async.h:64-137 | Every reachable state satisfies the invariant: who still holds the handler call, the guard, the cleanup and the deferred detach |
| AsyncRuns.FrameKeeps | dynabridge/async.h:77-125 | Each critical section or unlocked action of a call keeps that invariant |
| AsyncRuns.SubmitterKeeps | dynabridge/async.h:171-183 | So does each action of the submitting thread between its calls |
| AsyncSettling.StepUsesWork | dynabridge/async.h:77-136 | Every step that is not a new call strictly uses up the remaining work |
| AsyncSettling.SomethingCanMove | dynabridge/async.h:77-136 | A state that is neither quiet nor aborted always has a step that is not a new call |
| AsyncSettling.Settles | dynabridge/async.h:77-136 | From every state the started calls can be run to a quiet or aborted end without new ones |
| AsyncSettling.AloneIsARun | dynabridge/async.h:77-125 | A frame run without interference is one of the interleavings |
| AsyncHistory.CallsAreAnswered | dynabridge/async.h:77-183 | In every run each call has entered as often as the run requested it, apart from calls still to enter and the deferred detach, which enters once more; in a quiet state nothing is missing and nothing else has entered |
| AsyncHistory.HandlerAnswersRequests | dynabridge/async.h:77-183 | A quiet run has called the handler exactly once if a token was used or the body rejected, with the result or error of the first call to decide, and not at all otherwise |
| AsyncHistory.RejectionIsAnswered | dynabridge/async.h:126-183 | If the body rejected with an error and the run did not abort, that error was asked as a failing finish, the handler was called once and everything is released once |
| AsyncHistory.ReleasedIffFinishRequested | dynabridge/async.h:87-125 | In a quiet run operation, context and guard are gone exactly when a finish or a rejection was requested |
| AsyncHistory.EveryScenarioRuns | dynabridge/async.h:157-183 | Whatever calls are made and however the body returns, there is a run with just those requests that ends quiet or aborted |
| AsyncState.OperationState.constructor | dynabridge/async.h:68-76 | A fresh control block is submitting, holds every slot and has delivered nothing |
| AsyncState.OperationState.DeliverLocked | dynabridge/async.h:81-96 | The block of `deliver` under the mutex is the entering step of the transition system |
| AsyncState.OperationState.RunUnlocked | dynabridge/async.h:97-111 | Outside the mutex the handler leaves its slot, the guard is dropped, then the handler is called |
| AsyncState.OperationState.Deliver | dynabridge/async.h:77-113 | The whole method is its frame run to the end |
| AsyncState.OperationState.Finish | dynabridge/async.h:114 | Delivers and retires |
| AsyncState.OperationState.Detach | dynabridge/async.h:115 | Delivers an error without retiring |
| AsyncState.OperationState.Cleanup | dynabridge/async.h:116-125 | Claims and resets operation and context when retired, not submitting and not cleaned, and otherwise changes nothing |
| AsyncState.OperationState.Reject | dynabridge/async.h:126-129 | Aborts exactly when already retired, otherwise finishes with the error |
| AsyncState.OperationState.Submitted | dynabridge/async.h:130-136 | Ends submission, redelivers a recorded detach, then cleans up |
| AsyncState.OperationState.BodyCalls | dynabridge/async.h:61-62 | What the block looks like after each call the body makes: the first finish delivered, the first detach recorded |
| AsyncState.OperationState.Start | dynabridge/async.h:157-183 | For every sequence of calls made by the body, the handler gets the first finish, else the rejection, else the first detach, else nothing, and resources go exactly when something retired |
| Words.OrAbove | dynabridge/backends/rpc.h:183-186 | Or-ing in a byte shifted above the bits already read is adding it |
| Words.ByteByShift | dynabridge/backends/rpc.h:146-151 | Byte i of a little-endian number is the number shifted right by 8i and truncated |
| Words.ReadWritten | dynabridge/backends/rpc.h:145-190 | Reading the bytes of a number that fits its width gives the number |
| Words.WriteRead | dynabridge/backends/rpc.h:145-190 | Writing the number read from some bytes gives those bytes |
| Words.BitsInverse | dynabridge/backends/rpc.h:33-38 | Copying a signed number to its 64 bits and back, either way round, changes nothing |
| Words.CStringMeaning | dynabridge/backends/rpc.h:307-308 | A name followed by a terminator and any memory is read as that name |
| Symbols.ComputeSymbolId | dynabridge/backends/rpc.h:305-313 | The loop over a terminated string computes the hash of the bytes before the terminator |
| Symbols.AbsorbIsPermutation | dynabridge/backends/rpc.h:309-310 | Absorbing a byte is a permutation of the 64-bit states, with the given inverse |
| Symbols.AbsorbSeparates | dynabridge/backends/rpc.h:309-310 | From one state different bytes lead to different states |
| Symbols.HashFromInjective | dynabridge/backends/rpc.h:305-313 | Absorbing the same bytes merges no two states |
| Symbols.CommonSuffix | dynabridge/backends/rpc.h:305-313 | A common ending neither makes nor breaks a collision |
| Symbols.OneByteApart | dynabridge/backends/rpc.h:305-313 | Names of equal length that differ in exactly one byte never collide |
| Symbols.CollisionsExist | dynabridge/backends/rpc.h:305-313 | The ids of `7mohtcOFVz` and `c1E51sSEyx` are the same |
| Wire.EncodedSize | dynabridge/backends/rpc.h:258-275 | Succeeds exactly for values that can be written, with exactly their number of bytes |
| Wire.FrameSizeExact | dynabridge/backends/rpc.h:251-275 | The checked sum succeeds exactly when every value can be written and the true total fits `size_t`, and is then that total |
| WireProofs.ReadsValue | dynabridge/backends/rpc.h:277-303 | Whatever follows, reading the bytes of a value yields it and leaves what follows |
| WireProofs.ReadValueMeaning | dynabridge/backends/rpc.h:277-303 | A successful read consumed exactly the bytes of the value it returned |
| WireProofs.FailureSticks | dynabridge/backends/rpc.h:209-212 | A reader that failed never succeeds again |
| WireProofs.RequestHeaderMeaning | dynabridge/backends/rpc.h:358-364 | The header is accepted exactly when the frame starts with the encoded header of that method and count |
| WireProofs.ArgumentsMeaning | dynabridge/backends/rpc.h:366-371 | The argument loop accepts exactly the concatenations of that many values, with nothing after them |
| WireProofs.RequestDecodedIffInLanguage | dynabridge/backends/rpc.h:357-374 | A frame decodes to a request exactly when it is in the request language for it |
| WireProofs.ResponseDecodedIffInLanguage | dynabridge/backends/rpc.h:404-421 | A frame decodes to an answer or remote error exactly when it is in the response language for it |
| WireProofs.RequestsPrefixFree | dynabridge/backends/rpc.h:357-374 | No accepted request frame is a strict prefix of another |
| WireProofs.ResponsesPrefixFree | dynabridge/backends/rpc.h:404-421 | No accepted response frame is a strict prefix of another |
| WireProofs.RequestRoundTrip | dynabridge/backends/rpc.h:320-374 | Decoding an encoded request gives the method and the same values, strings owned |
| WireProofs.ResponseRoundTrip | dynabridge/backends/rpc.h:382-421 | Responses and error frames decode to what was encoded, and can be encoded exactly up to the 32-bit size |
| WireProofs.RequestReencodes | dynabridge/backends/rpc.h:320-374 | Re-encoding an accepted request keeps its length and meaning and changes only boolean payload bytes above one, to one |
| WireProofs.ResponseReencodes | dynabridge/backends/rpc.h:382-421 | The same for responses; error frames come back byte for byte |
| WireProofs.GuardRejectsNothing | dynabridge/backends/rpc.h:363-365 | The count guard rejects no frame the unguarded decoder accepts |
| Layout.WordLayout | dynabridge/backends/rpc.h:145-151 | The four and eight bytes of a word are its quotients by the powers of 256, lowest first |
| Layout.ValueLayout | dynabridge/backends/rpc.h:20-27 | Every kind of value in literal bytes: its number from 0 to 5, then its payload, a negative number as n + 2^64 |
| Layout.ArgumentLayout | dynabridge/backends/rpc.h:714-844 | Every C++ argument type in literal bytes, and which strings are borrowed |
| Layout.ValuesLayout | dynabridge/backends/rpc.h:320-337 | Values are written one after the other with nothing in between |
| Layout.RequestLayout | dynabridge/backends/rpc.h:339-353 | A request is the bytes 44 52 50 43 01, the eight bytes of the method, the four of the count, and the values |
| Layout.ResponseLayout | dynabridge/backends/rpc.h:382-401 | A response is the bytes 44 52 50 52 01 00 and the value; an error frame 44 52 50 52 01 01, the length and the message |
| Layout.RequestAcceptedIff | dynabridge/backends/rpc.h:357-374 | The decoder accepts exactly the frames that start with those literal bytes and go on with that many values |
| Layout.ResponseAcceptedIff | dynabridge/backends/rpc.h:404-421 | The same for responses and error frames |
| Layout.SpellingLayout | dynabridge/backends/rpc.h:277-303 | The accepted spellings of every value in literal bytes; any non-zero byte is `true` |
| Layout.UnknownKindFails | dynabridge/backends/rpc.h:300-303 | A kind byte above 5 makes the reader fail |
| Layout.RequestErrors | dynabridge/backends/rpc.h:251-275 | Too many arguments, a total beyond the 64-bit size and an oversized string are told apart, the first argument that does not fit deciding |
| Codec.Writer.Integer | dynabridge/backends/rpc.h:145-151 | Appends exactly the little-endian bytes |
| Codec.Writer.Raw | dynabridge/backends/rpc.h:153-161 | Appends length and bytes, or refuses and appends nothing |
| Codec.Writer.WriteValue | dynabridge/backends/rpc.h:219-249 | Appends the encoding of the value, failing exactly when it cannot be written |
| Codec.BuildRequest | dynabridge/backends/rpc.h:320-353 | Computes the encoding or the first error, and fills the reserved capacity exactly |
| Codec.BuildResponse | dynabridge/backends/rpc.h:382-389 | Computes the encoding or the error, within a capacity one byte larger |
| Codec.BuildError | dynabridge/backends/rpc.h:391-401 | Computes the error frame or refuses, and fills the reserved capacity exactly |
| Codec.Reader.Require | dynabridge/backends/rpc.h:209-212 | Succeeds exactly when nothing failed before and enough bytes are left, and otherwise marks the reader failed |
| Codec.Reader.Integer | dynabridge/backends/rpc.h:179-190 | Reads and advances, or fails without advancing and yields zero |
| Codec.Reader.Raw | dynabridge/backends/rpc.h:192-201 | Reads a length and that many bytes, or fails with an empty string |
| Codec.Reader.DecodeValue | dynabridge/backends/rpc.h:277-303 | Reads one value, and fails on an unknown kind |
| Codec.DecodeRequest | dynabridge/backends/rpc.h:357-374 | Fills the caller's request exactly when the frame is accepted, leaves it alone otherwise, and reserves no more than the frame's length |
| Codec.DecodeResponse | dynabridge/backends/rpc.h:403-421 | Sets only the result on success and only the error on a remote error; a malformed frame changes neither |
| Overloads.ProbeIsConversion | dynabridge/backends/rpc.h:714-844 | For each built-in kind the probe holds exactly when the conversion yields a value, which converts back to the original |
| Overloads.ConversionRoundTrip | dynabridge/backends/rpc.h:714-844 | A typed value sent and read as a kind comes back unchanged for its own kind and is rejected by every other |
| Overloads.KindsDisjoint | dynabridge/backends/rpc.h:714-844 | No value is accepted by two kinds |
| Overloads.PlansAgree | dynabridge/export_callable.h:600-682 | The probing plan and the convert-and-test plan give the same result on every candidate list and argument vector |
| Overloads.DispatchIsFirstViable | dynabridge/export_callable.h:742-840 | Dispatch runs the least viable candidate on the converted arguments and reports no match exactly when there is none |
| Overloads.CallsMeaning | dynabridge/export_callable.h:693-723 | A dispatch calls native code exactly once, at the least viable candidate, or not at all exactly when nothing matches |
| Overloads.ViableAgree | dynabridge/export_callable.h:742-748 | Candidates viable for the same arguments have the same parameter kinds |
| Overloads.OrderFreeIffDistinct | dynabridge/export_callable.h:742-748 | Every reordering of the overloads picks the same candidate for every argument vector exactly when no two overloads have the same kinds |
| Binder.ConvertSlot | dynabridge/backends/rpc.h:829-835 | Converts one slot; only an owned string slot may change, and no other slot does |
| Binder.ProbeArguments | dynabridge/export_callable.h:539-552 | Accepts exactly when every argument's probe does |
| Binder.ConvertInOrder | dynabridge/export_callable.h:707-717 | The converted arguments are the same for every evaluation order |
| Binder.AllOptionals | dynabridge/export_callable.h:524-537 | Holds exactly when every conversion yielded a value |
| Binder.OverloadBinder.CallCandidate | dynabridge/export_callable.h:698-723 | An accepted candidate runs once on the converted original arguments |
| Binder.OverloadBinder.CallOptional | dynabridge/export_callable.h:765-840 | From each position in the list: the first viable candidate runs once, and before it nothing is converted |
| Binder.OverloadBinder.DispatchOptional | dynabridge/export_callable.h:880-884 | No match leaves the arguments and native code alone; otherwise exactly the least viable candidate runs; an accepted probe is never rejected; borrowed strings never change |
| Routes.TableAfterDefinitions | dynabridge/backends/rpc.h:583-599 | After every run of definitions the table is strictly sorted, holds exactly the plain map, and every binder made has one owner or was destroyed once |
| Routes.CollisionMeaning | dynabridge/backends/rpc.h:591-594 | A definition is refused exactly when a different defined name has its id, and then nothing changes |
| Routes.DefineKeepsOwners | dynabridge/backends/rpc.h:487-511 | A definition makes one binder and destroys exactly the one it replaces |
| Routes.LookupMeaning | dynabridge/backends/rpc.h:607-610 | The search by id finds the binder of a defined name with that id, and nothing exactly when there is none |
| Routes.LookupByName | dynabridge/backends/rpc.h:583-610 | After every run of definitions a defined name is looked up as in the plain map, and an undefined one is absent exactly when no defined name shares its id |
| Routes.UndefinedNameCanBeFound | dynabridge/backends/rpc.h:583-610 | With only the first of those two names defined, the second finds its binder and can no longer be defined |
| Routes.ServeIsTotal | dynabridge/backends/rpc.h:601-617 | Every byte sequence gets a well-formed reply; an exception leaves exactly when native code threw a message longer than 32 bits count |
| Routes.UnservedReplies | dynabridge/backends/rpc.h:606-609 | What is not a request gets the error `invalid RPC request frame`, and a request for an id no route has `unknown RPC method` |
| Routes.ServedReplies | dynabridge/backends/rpc.h:610-615 | A request for a route gets the value, nothing, the thrown message or the named error that its first viable candidate led to, and `RPC argument conversion or arity mismatch` when no candidate is viable |
| Routes.OversizedMessageEscapes | dynabridge/backends/rpc.h:391-401 | Under any name, an overload that throws a message too long for a frame makes the encoding exception leave `dispatch` on its empty request |
| Server.Router.LowerBound | dynabridge/backends/rpc.h:586-590 | The halving search stops at the first route whose id is not smaller |
| Server.Router.DefineName | dynabridge/backends/rpc.h:583-599 | Edits the table in place as the value-level definition says |
| Server.Router.Destroy | dynabridge/backends/rpc.h:568-573 | Destroying the table leaves every binder ever made destroyed exactly once |
| Server.Router.Dispatch | dynabridge/backends/rpc.h:601-617 | Computes `Serve`, which `UnservedReplies` and `ServedReplies` describe, for every frame; only the binder found for the request calls native code: its least viable candidate, once, on the converted arguments |
| Server.Reply | dynabridge/backends/rpc.h:610-615 | Turns what a candidate did into the reply frame, errors caught included |
| RemoteCall.ViableIsKindMatch | dynabridge/backends/rpc.h:714-844 | After the wire a candidate is viable exactly when its kinds are the arguments' kinds, and receives the values that were passed |
| RemoteCall.DispatchIsLocal | dynabridge/export_callable.h:742-840 | Dispatch on the decoded arguments is the first declared overload whose arity and kinds match |
| RemoteCall.LocalRunsFirstMatch | dynabridge/export_callable.h:742-840 | The local call is the first overload of the arguments' kinds, and there is none exactly when no overload has them |
| RemoteCall.SameCalls | dynabridge/export_callable.h:693-723 | The wire changes neither which native code is called nor what it is given |
| RemoteCall.RemoteIsLocal | dynabridge/backends/rpc.h:697-711 | For every name, argument list and expected type, a call gives what the local call of the resolved overload group gives, or fails to be sent |
| RemoteCall.RemoteAfterDefinitions | dynabridge/backends/rpc.h:583-617 | The same after every run of definitions, against the plain map; sending fails exactly when count, strings or total size do not fit |
| RemoteCall.RemoteResults | dynabridge/backends/rpc.h:583-711 | Outcome by outcome what a caller gets from a route with the name's id: the value, a conversion failure, or a remote failure with its message |
| RemoteCall.RemoteUnknown | dynabridge/backends/rpc.h:607-609 | A call to an id no route has fails with `unknown RPC method` |
| RemoteCall.ReceiveMeaning | dynabridge/backends/rpc.h:404-430 | Whoever sent the reply, bytes that are no response are a protocol failure, an error frame is a remote failure with its message, and a value of the wrong kind a conversion failure |
| RemoteCall.SendableIff | dynabridge/backends/rpc.h:339-353 | A call can be sent exactly when its count, its strings and its total size fit |
| RemoteCall.Invoke | dynabridge/backends/rpc.h:697-711 | The round trip as it runs gives the specified result, and only the binder of the name's id calls native code: the first overload of the arguments' kinds, once, on the arguments passed; nothing is called when nothing is sent, found or matched |
| UvExecutor.NoLostWakeup | dynabridge/extensions/flux_foundry/uv_executor.h:35-79 | A non-empty queue always has a wakeup coming: a signal, a callback before its extraction, or one that rearms |
| UvExecutor.QueuedTasksRunInOrder | dynabridge/extensions/flux_foundry/uv_executor.h:96-122 | Enqueued tasks run once each in enqueue order, at most sixteen a round, all before the handle is closed |
| UvExecutor.EveryDispatchRuns | dynabridge/extensions/flux_foundry/uv_executor.h:35-65 | In every run the queue was given, in order, the dispatched tasks that did not run inline on an empty queue; each dispatch did one or the other; after the close all of them have run |
| UvExecutor.CallbacksConserved | dynabridge/extensions/flux_foundry/uv_executor.h:96-122 | While closing, callbacks made plus callbacks left stays the same over every step |
| UvExecutor.ShutdownTakesExactlyTheRounds | dynabridge/extensions/flux_foundry/uv_executor.h:22-122 | Closing with n tasks queued and no callback under way takes exactly max(1, ceil(n/16)) more callbacks |
| UvExecutor.ShutdownCompletes | dynabridge/extensions/flux_foundry/uv_executor.h:96-122 | A closing loop left to itself closes its handle |
| UvExecutor.EveryRunCloses | dynabridge/extensions/flux_foundry/uv_executor.h:96-122 | A closing loop makes finitely many steps whatever their order, with a stated bound, and is never stuck before its handle is closed |
| UvExecutorState.Executor.constructor | dynabridge/extensions/flux_foundry/uv_executor.h:87-94 | A new executor is empty, open and unsignalled |
| UvExecutorState.Executor.Dispatch | dynabridge/extensions/flux_foundry/uv_executor.h:35-65 | Runs the task inline exactly on the loop thread with an empty queue; otherwise the task is appended and the signal set |
| UvExecutorState.Executor.Close | dynabridge/extensions/flux_foundry/uv_executor.h:67-79 | Marks and signals once; closing again changes nothing |
| UvExecutorState.Executor.ExtractRound | dynabridge/extensions/flux_foundry/uv_executor.h:98-111 | Takes the first sixteen tasks, or all, and decides whether to rearm or close |
| UvExecutorState.Executor.RunRound | dynabridge/extensions/flux_foundry/uv_executor.h:113-115 | Runs the round, first task first |
| UvExecutorState.Executor.EndRound | dynabridge/extensions/flux_foundry/uv_executor.h:117-121 | Signals again for what is left, or closes the handle |
| UvExecutorState.Executor.OnAsync | dynabridge/extensions/flux_foundry/uv_executor.h:96-122 | A whole callback is those steps in order; it rearms exactly when tasks are left and closes exactly when closing and none are |
| UvExecutorState.Executor.OnClosed | dynabridge/extensions/flux_foundry/uv_executor.h:124-126 | The state is freed once, after the handle closed |
| PythonExecutor.TasksRunOnceUnderGil | dynabridge/extensions/flux_foundry/python_interpreter_executor.h:94-120 | Accepted tasks run once each in order, their captures are destroyed in order, and in between the worker holds the GIL |
| PythonExecutor.EveryDispatchRuns | dynabridge/extensions/flux_foundry/python_interpreter_executor.h:38-67 | In every run the queue was given exactly the tasks other threads dispatched, in order, and tasks dispatched by tasks ran inline; after the join all of them have run once |
| PythonExecutor.GilPassesByItsOwner | dynabridge/extensions/flux_foundry/python_interpreter_executor.h:82-117 | Nobody takes the GIL from its owner: it changes hands only by the owner's own step and only through being free |
| PythonExecutor.JoinReturnsTheGil | dynabridge/extensions/flux_foundry/python_interpreter_executor.h:82-90 | Whatever happens while a thread waits in `shutdown`, it has no GIL then, and comes out with it exactly as it went in |
| PythonExecutor.ExitMeansDrained | dynabridge/extensions/flux_foundry/python_interpreter_executor.h:100-109 | The worker leaves only when stopping and drained, after at most one more non-empty swap |
| PythonExecutor.NoLostNotification | dynabridge/extensions/flux_foundry/python_interpreter_executor.h:38-79 | A sleeping worker with something to do has a notification coming |
| PythonExecutor.ShutdownReturns | dynabridge/extensions/flux_foundry/python_interpreter_executor.h:69-91 | Once shutdown has begun the join can always be reached: the joining thread never keeps the GIL from the worker |
| PythonExecutor.StepUsesWork | dynabridge/extensions/flux_foundry/python_interpreter_executor.h:69-120 | Once stopping, every step uses up work, except that the GIL changing hands may add one step |
| PythonExecutor.EveryRunJoins | dynabridge/extensions/flux_foundry/python_interpreter_executor.h:69-120 | A run with finitely many GIL hand-offs is finite, with a stated bound, and until the worker is joined some step other than a hand-off is possible |
| PythonExecutorState.Executor.constructor | dynabridge/extensions/flux_foundry/python_interpreter_executor.h:29-35 | A new executor is empty and running |
| PythonExecutorState.Executor.Dispatch | dynabridge/extensions/flux_foundry/python_interpreter_executor.h:38-67 | Runs the task inline exactly on the worker thread; otherwise the task is appended and a blocked worker woken |
| PythonExecutorState.Executor.SwapBatch | dynabridge/extensions/flux_foundry/python_interpreter_executor.h:102-110 | Under the mutex the worker blocks, leaves, or takes the whole queue |
| PythonExecutorState.Executor.RunBatch | dynabridge/extensions/flux_foundry/python_interpreter_executor.h:112-119 | A batch takes the GIL, runs in order, destroys its captures, then releases the GIL |
| PythonExecutorState.Executor.FinishBatch | dynabridge/extensions/flux_foundry/python_interpreter_executor.h:113-119 | The rest of a batch runs in order, then its captures are destroyed, then the GIL is released |
| PythonExecutorState.Executor.FinishTurn | dynabridge/extensions/flux_foundry/python_interpreter_executor.h:94-120 | Wherever the worker is, it comes back to the mutex with everything it took run and destroyed |
| PythonExecutorState.Executor.Drain | dynabridge/extensions/flux_foundry/python_interpreter_executor.h:101-120 | Once stopping, the loop ends from wherever it is with every accepted task run and destroyed |
| PythonExecutorState.Executor.ShutDown | dynabridge/extensions/flux_foundry/python_interpreter_executor.h:69-91 | Shuts down once, wherever the worker is and whoever has the GIL; everything accepted has run, and the caller has the GIL back exactly if it had it |
| Interfaces.BalancedIsLinear | dynabridge/interface.h:81-104 | The balanced scan equals the left-to-right scan for every descriptor and range |
| Interfaces.DepthIsLogarithmic | dynabridge/interface.h:81-104 | The recursion over n indices is exactly ceil(log2 n) + 1 deep |
| Interfaces.EqualNameIsEquality | dynabridge/interface.h:44-47 | Walking two terminated strings decides equality of what precedes their terminators |
| Interfaces.ContainsNameMeaning | dynabridge/interface.h:140-157 | Holds exactly when some non-void entry has that name |
| Interfaces.UniqueNamesMeaning | dynabridge/interface.h:159-176 | Holds exactly when no two non-void entries at different positions have the same name |
| Interfaces.UniqueTypesMeaning | dynabridge/interface.h:121-138 | Holds exactly when no non-void entry is repeated |
| Interfaces.AcceptedIffDeclarationsDistinct | dynabridge/interface.h:228-306 | Over the concatenated lists the check passes exactly when no two declarations strictly inside their blocks carry the same name |

## Left out

- N-API and CPython backends and their converters: handle bookkeeping around runtimes that are not modelled.
- The Flux Foundry glue in `extensions/flux_foundry/async.h`: the flow library is not part of this model.
- Generated X-macro code, concept-style traits and C++ overload resolution on the importing side: compile-time type checking without run-time state.
- `invocation<R>` and `erase_invocation`: type erasure around `static_invocation`, which would add only easy members.
- Descriptor arguments (`export_argument_plan` for objects and callables): the RPC backend is scalar and rejects them.
- Custom binders with the constant accessor: they dispatch by their own code.
- Weak memory and allocation failure: critical sections are atomic and `new` succeeds.
- The moved-from callback object and the destructor of the operation's captures: only when the slots are emptied is modelled.
- A null access guard: the slot counts as held until a finish retires, whether or not the caller supplied a guard.
- `std::vector` moving its routes about during an insertion: one owner per binder is stated before and after `define`, not in between.
- UvExecutorState.Executor.Close: does not model `close` from a thread other than the loop thread or a dispatch racing it, which the library forbids.
- UvExecutorState.Executor.OnAsync: its round holds tasks that dispatch nothing themselves, and no other thread dispatches meanwhile; both are covered by the steps of `UvExecutor`.
- UvExecutor.QueuedTasksRunInOrder: claims order only for enqueued tasks, because a task dispatched inline from a round overtakes the rest of that round.
- PythonExecutorState.Executor.ShutDown: the other threads do nothing during the join but let go of the GIL; every interleaving is covered by `PythonExecutor.EveryRunJoins`.
- PythonExecutorState.Executor.Drain: no other thread takes the GIL during the loop; `PythonExecutor.EveryRunJoins` covers those that do.
- PythonExecutorState.Executor.RunBatch: the tasks of its batch dispatch nothing inline; `PythonExecutor.TasksRunOnceUnderGil` covers those that do.
- PythonExecutor.EveryRunJoins: tasks that run after `stopping_` is set dispatch nothing, because a dispatch through a stopped executor ends the process; the same holds for the other shutdown results of this executor.
- UvExecutor.EveryRunCloses: tasks that run after `close` dispatch nothing, because a dispatch through a closing executor ends the process; the same holds for the other shutdown results of this executor.
- UvExecutorState.Executor.RunRound: the tasks of its round dispatch nothing themselves.
- PythonExecutor.ShutdownReturns: assumes that other threads release the GIL, and that a dispatcher sends the notification it owes; `PythonExecutor.EveryRunJoins` counts every hand-off instead.
- AsyncState.OperationState.Start: its body completes tokens before it returns; completions from other threads are covered by `AsyncRuns`.
- Throwing conversions and probes: the five built-in converters do not throw apart from allocation.
