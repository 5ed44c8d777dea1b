# A verified model of rpc_core

rpc_core is a small C++ library for remote calls: a request/response protocol engine over packages or byte streams, with
its own binary serialization. This project models its four layers in Dafny and proves what they promise, separately and
composed.

| layer | objects and algorithms as they run | specification and laws |
|---|---|---|
| protocol | `RpcObjects.dfy`, `Dispose.dfy` | `Protocol.dfy` (state machine), `Runs.dfy`, `Calls.dfy`, `Settings.dfy`, `Answers.dfy`, `Correlation.dfy`, `Accounting.dfy`, `Drain.dfy`, `LostRequests.dfy`, `Numbers.dfy`, `WrapAround.dfy`, `RetryLaw.dfy`, `EndlessRetry.dfy`, `CancelSafety.dfy`, `Outcomes.dfy`, `Endings.dfy`, `DeferredReply.dfy` |
| framing | `DataPacker.dfy`, `StreamConnection.dfy` | `Framing.dfy`, `Cuts.dfy`, `StreamConnection.dfy`, `StreamRuns.dfy`, `StreamSystem.dfy` |
| serialization | `Archives.dfy` | `SerialTypes.dfy`, `SerialFormat.dfy`, `SerialRoundTrip.dfy`, `SerialContainers.dfy`, `ArchiveCursor.dfy` |
| coders | `Coder.dfy`, `CoderVarint.dfy`, `AutoSize.dfy`, `Varint.dfy` | the same files, `Bytes.dfy`, `MsgWrapper.dfy` |

Code that changes objects step by step is modelled by classes and loops (`Request`, `Rpc`, `RequestResponse`, `Disposer`,
`Packer`, `Connection`, `OArchive`, `IArchive`, `AutoSizeType`). Each method is proved to do exactly what a function on
values says, and the laws are proved about those functions.

**The protocol.** `Protocol.Endpoint` is everything one side holds: its requests, the table of response handlers, the
armed timers, the deferred replies, all messages it ever sent, and a log of what can be observed (calls, commands,
callbacks, endings, replies). A step is a user operation, a timer, a call of `rr->rsp`, a change of the subscriptions,
or the receipt of any message the peer has ever sent; so a run of two endpoints covers every network that loses, delays,
reorders or duplicates messages. What travels is what the coder makes of a message (`Coder.Wire`), and the objects
exchange the coded bytes themselves (`RpcObjects.Rpc.Deliver`). `StreamSystem.StreamsSimulate` shows that two endpoints
joined by byte streams, with chunks of any size arriving at any time, do nothing that such a run does not.

**Assumptions of the protocol theorems**, each visible as a precondition where it is needed: at most 2^32 numbers are
drawn on each side (`NoWrap`; `WrapAround.WrappedNumbersAreMistaken` is a run with 2^32 + 1 numbers in which a callback
runs for another request's command and a request is lost), and for the drain bound no request retries forever. That a
timer is installed and that whoever needs a response has a callback is not assumed: "no lost request" is false without
it, and `Drain.NoneLostFromStart` gives the exact condition. Callbacks run to completion and do not re-enter the
library, all objects stay alive, and there is one event loop per side.

**Where the code differs from what its comments suggest.** The model follows the code.

- The varint writer is meant to be unsigned LEB128 (section 7.6 of DWARF Version 5), but its continuation mask has eight
  bits, so only bit 7 of the remaining value is looked at. `Varint.WritesLeb128Exactly` says exactly for which values
  the output is LEB128, `Varint.RoundTripExactly` for which the round trip holds (the same ones), and
  `Varint.TwoHundredFiftySixIsLost` gives the least value that is lost.
- A request that was told to need a response by `enable_rsp` alone, without a callback, does not finish immediately, as
  the comment at `include/rpc_core/request.hpp:226-228` says; it waits for an answer nobody will deliver.
  `LostRequests.EnabledWithoutCallbackIsLost` is such a run. The same happens to a retry when the timer has been removed in
  the meantime (`LostRequests.RetryWithoutTimerIsLost`). `Drain.NextLosesExactly` states the exact condition for every
  step, `Drain.NoneLostFromStart` for every run.
- A command of 65536 bytes or more is cut to its length modulo 65536 by the fixed-width coder (`Coder.RoundTripExactly`).
- What the packer delivers can depend on how the bytes are cut. A zero-length frame whose header ends a chunk is not
  delivered (`Framing.FramePerChunk`), one whose header is cut leaves a stale header count behind
  (`Framing.SplitEmptyHeaderIsNotClean`), and behind an oversize header the rest of the chunk is dropped
  (`Framing.OversizeDependsOnTheCut`). `Cuts.CutIndependentExactly` says for every byte string whether the cut matters:
  it does not if and only if a header that announces an empty body is the very end, and behind an oversize header no
  frame can be completed from wherever reading resumes. For a sender this comes down to packing no empty payload
  (`Framing.DeliversAnyCutExactly`), and the coder never produces one.
- While a body is awaited, the parser's header count depends on how the header was cut
  (`Framing.ConcreteStateRemembersTheCut`), so chunk independence holds for the pending bytes and not for the raw fields.
- Decoding a struct field moves `ia.data` without reducing `ia.size`, so that size goes stale
  (`ArchiveCursor.ReadItem`). `ArchiveCursor.EveryStringSeesItsSize` shows that a string, the only type that looks at the
  size, never sees a stale one.
- The smallest signed 64-bit value survives `auto_size_type` as well, because negation wraps around
  (`AutoSize.RoundTrip`); in C++ it relies on two's complement behaviour.

## Model

| member | source | states |
|---|---|---|
| RpcObjects.Request.constructor | include/rpc_core/request.hpp:284-286 | a new request waits for nothing, needs nothing and holds nothing |
| RpcObjects.Request.Cmd | include/rpc_core/request.hpp:46-49 | only the command of this request changes |
| RpcObjects.Request.SetMsg | include/rpc_core/request.hpp:51-55 | only the payload of this request changes |
| RpcObjects.Request.Ping | include/rpc_core/request.hpp:161-164 | the request becomes a ping |
| RpcObjects.Request.Rsp | include/rpc_core/request.hpp:57-139 | installing a callback also makes the request need a response |
| RpcObjects.Request.EnableRsp | include/rpc_core/request.hpp:221-224 | the request needs a response, its callback is left as it is |
| RpcObjects.Request.DisableRsp | include/rpc_core/request.hpp:216-219 | the request needs no response any more |
| RpcObjects.Request.Retry | include/rpc_core/request.hpp:208-211 | sets the retry count of this request |
| RpcObjects.Request.SetCanceled | include/rpc_core/request.hpp:250-253 | sets the flag and ends nothing |
| RpcObjects.Request.Cancel | include/rpc_core/request.hpp:193-197 | flags the request and, if it waits, ends it as canceled |
| RpcObjects.Request.ResetCancel | include/rpc_core/request.hpp:199-202 | clears the flag |
| RpcObjects.Request.OnFinish | include/rpc_core/request.hpp:292-301 | ends a waiting request once and drops its hold on itself; does nothing to one that does not wait |
| RpcObjects.Request.Call | include/rpc_core/request.ipp:8-34 | the object and its rpc go through exactly the `Call` transition: refused with the right reason, or numbered, registered, sent |
| RpcObjects.Request.Launch | include/rpc_core/request.ipp:24-33 | behind all checks: number drawn, command out, and an ending at once if no response is needed |
| RpcObjects.Request.OnTimeout | include/rpc_core/request.hpp:174-189 | retries while the count allows, counting down unless it is -1, otherwise ends by timeout |
| RpcObjects.Request.HandleRsp | include/rpc_core/request.hpp:57-139 | the three forms of callback: whether it runs, with which data, and how the request ends |
| RpcObjects.RequestResponse.Rsp | include/rpc_core/rpc.hpp:98-108 | the first call records the reply and sends it if the handler has returned; later calls do nothing |
| RpcObjects.Rpc.constructor | include/rpc_core/rpc.hpp:35-39 | starts as the empty endpoint |
| RpcObjects.Rpc.MakeSeq | include/rpc_core/rpc.hpp:153-155 | yields the next number, modulo 2^32 |
| RpcObjects.Rpc.CreateRequest | include/rpc_core/rpc.ipp:8-10 | a fresh request joins, all others stay as they are |
| RpcObjects.Rpc.SetReady | include/rpc_core/rpc.hpp:54-56 | sets whether calls may be sent |
| RpcObjects.Rpc.SetTimer | include/rpc_core/rpc.hpp:50-52 | installs or removes the timer |
| RpcObjects.Rpc.SendRequest | include/rpc_core/rpc.ipp:42-54 | registers first, then sends the command with the right type bits |
| RpcObjects.Rpc.SendPackage | include/rpc_core/rpc.ipp:53 | the bytes handed to the connection decode to the message the peer sees |
| RpcObjects.Rpc.SubscribeRsp | include/rpc_core/detail/msg_dispatcher.hpp:150-160 | handler and timer go in together, and neither without a callback and a timer |
| RpcObjects.Rpc.FireTimer | include/rpc_core/detail/msg_dispatcher.hpp:160-174 | a number still in the table times out and is erased after its callback; otherwise nothing happens |
| RpcObjects.Rpc.SubscribeCmd | include/rpc_core/detail/msg_dispatcher.hpp:135-138 | installs or replaces the handler of one command |
| RpcObjects.Rpc.UnsubscribeCmd | include/rpc_core/detail/msg_dispatcher.hpp:140-148 | removes the handler of one command |
| RpcObjects.Rpc.HandleAsync | include/rpc_core/rpc.hpp:78-115 | however often the handler calls `rsp` before it returns, the first value is the one that is kept |
| RpcObjects.Rpc.OnCommand | include/rpc_core/detail/msg_dispatcher.hpp:46-106 | pings are echoed, unknown commands refused, replies sent only if asked for |
| RpcObjects.Rpc.OnAsyncCommand | include/rpc_core/detail/msg_dispatcher.hpp:86-102 | a ready reply goes out at once, otherwise the helper is armed with the message to fill in |
| RpcObjects.Rpc.OnResponse | include/rpc_core/detail/msg_dispatcher.hpp:108-127 | the handler of the number runs and is erased afterwards; unknown numbers are ignored |
| RpcObjects.Rpc.Dispatch | include/rpc_core/detail/msg_dispatcher.hpp:44-132 | commands and responses are told apart by two bits, anything else is ignored |
| RpcObjects.Rpc.OnRecvPackage | include/rpc_core/detail/msg_dispatcher.hpp:26-41 | a package that decodes is dispatched, one that does not changes nothing |
| RpcObjects.Rpc.Deliver | include/rpc_core/connection.hpp:23-26 | handing over any package the peer ever sent is a `Receive` step of the state machine |
| Protocol.CommandType | include/rpc_core/rpc.ipp:47-48 | the type byte says command, and ping and need-response exactly as the request does |
| Calls.CallShape | include/rpc_core/request.ipp:8-34 | the whole effect of `call` on every part of the endpoint, and the events it produces, in order |
| Settings.CallSends | include/rpc_core/request.ipp:8-34 | a call that is not canceled, has an rpc object and finds it ready sends one command: the next number modulo 2^32, the request's command and payload, type 1, plus 8 for a ping, plus 4 if a response is needed; any other call sends nothing |
| Settings.RetrySends | include/rpc_core/request.hpp:174-189 | a retry sends the same again under the next number |
| Settings.NextSettings | include/rpc_core/request.hpp:45-253 | no step changes subscriptions, readiness, timer or a request's parameters except their own setters |
| Settings.AllAsSet | include/rpc_core/rpc.hpp:50-121 | in every reachable state, subscriptions, readiness, timer and all parameters of all requests are those last set |
| Settings.CallSendsWhatWasSet | include/rpc_core/rpc.ipp:42-54 | over runs, a call sends the command, payload and flags that the user last gave to the request |
| Settings.ResetAllowsCalls | include/rpc_core/request.hpp:199-202 | after `reset_cancel` a request can be called again |
| Answers.DispatchSends | include/rpc_core/detail/msg_dispatcher.hpp:44-132 | what dispatching a message sends: types 0 and 3 are ignored, a response is never answered, a ping comes back as type 18, an unknown command as type 34, a handled one as type 2 with the first reply |
| Answers.EveryReceiptIsAnswered | include/rpc_core/detail/msg_dispatcher.hpp:46-106 | over runs, every receipt of a command is answered so, where a command has a handler exactly if it was subscribed and not unsubscribed since |
| Answers.TypeBits | include/rpc_core/detail/msg_wrapper.hpp:22-29 | the bits of the type byte, in numbers |
| Correlation.NextSound | include/rpc_core/detail/msg_dispatcher.hpp:44-132 | every step keeps the invariant on in-flight messages, deferred replies, handlers and the log |
| Correlation.BothSound | include/rpc_core/detail/msg_dispatcher.hpp:44-132 | both sides satisfy it in every reachable state |
| Correlation.ResponseCorrelation | include/rpc_core/detail/msg_dispatcher.hpp:108-127 | a response callback for a number only ever sees data the peer produced for exactly the command and payload this request sent under it; a command of the peer under the same number is never taken for it |
| Correlation.ProducedForItsCommand | include/rpc_core/detail/msg_dispatcher.hpp:46-106 | every reply belongs to the one command sent under its number, and an echo repeats its payload |
| WrapAround.WrappedNumbersAreMistaken | include/rpc_core/rpc.hpp:153-155 | a run in which the counter wraps around: a pong for one request runs the callback of another, and the first is lost |
| Correlation.OnlyAskedForResponses | include/rpc_core/detail/msg_dispatcher.hpp:46-106 | over any run, every response ever sent answers one command of the peer that asked for it, with data produced for that command, or with a no-such-command notice for a command that had no handler when it came |
| Correlation.RefusesExactly | include/rpc_core/detail/msg_dispatcher.hpp:57-72 | a command is refused as unknown if and only if it has no handler, wants a response and is no ping |
| Accounting.OneCallOneFinally | include/rpc_core/request.hpp:141-149 | in every reachable state endings plus one while waiting equal the calls entered while not waiting; the self-hold lasts exactly as long as the wait |
| Accounting.EveryNumberResolves | include/rpc_core/detail/msg_dispatcher.hpp:150-175 | for every number, registrations equal resolutions plus the entry still in the table |
| Accounting.ResolvedAtMostOnce | include/rpc_core/detail/msg_dispatcher.hpp:111-126 | over any run, response handler and timeout callback of a number run at most once between them, and then the number is gone |
| Accounting.OneCommandPerNumber | include/rpc_core/rpc.hpp:153-155 | every number drawn goes out in exactly one command |
| Accounting.RetriesAddUp | include/rpc_core/request.hpp:174-189 | over any run, timeout-driven calls plus the remaining count equal the count last set, if that is not negative; a negative count is never spent |
| Settings.RetryAsGiven | include/rpc_core/request.hpp:208-211 | over runs, the retry count is the argument of the last `retry`, less the calls that timeouts have made since if it is not negative |
| Drain.CallLosesExactly | include/rpc_core/detail/msg_dispatcher.hpp:150-157 | any call, the user's or a timer's, leaves its request waiting without a handler if and only if it sends a command that needs a response with no callback or no timer |
| Drain.NextLosesExactly | include/rpc_core/detail/msg_dispatcher.hpp:150-175 | from a state where whoever waits has its latest number in the table with its timer armed, every step keeps that if and only if it is not such a losing call |
| Drain.NoneLostExactly | include/rpc_core/request.ipp:8-34 | over any run: it holds in every state if and only if no losing call is made |
| Drain.NoneLostFromStart | include/rpc_core/request.ipp:8-34 | the same for all reachable states, from the empty endpoints |
| LostRequests.EnabledWithoutCallbackIsLost | include/rpc_core/request.hpp:221-229 | a run in which `enable_rsp` without a callback leaves a request waiting with an empty table and no timer |
| LostRequests.RetryWithoutTimerIsLost | include/rpc_core/detail/msg_dispatcher.hpp:154-157 | a run in which a retry after the removal of the timer leaves its request so |
| Drain.NoRequestIsLost | include/rpc_core/request.ipp:8-34 | after any run without a losing call, whoever waits will be resolved by an answer or a timer |
| Drain.NextMeasure | include/rpc_core/request.hpp:174-189 | no step without a new call adds to table size plus remaining retries, and each response or timeout that finds its number takes at least one off |
| Drain.DrainBound | include/rpc_core/detail/msg_dispatcher.hpp:159-173 | along any run without new calls the resolutions never exceed what that measure has lost |
| Drain.SomethingCanResolve | include/rpc_core/detail/msg_dispatcher.hpp:160-173 | while the table is not empty some armed timer can resolve a number |
| Drain.Drained | include/rpc_core/detail/msg_dispatcher.hpp:159-173 | after that many resolutions, without new or losing calls, the table is empty and no request waits |
| Drain.DrainingRunExists | include/rpc_core/detail/msg_dispatcher.hpp:159-173 | from every state that has lost nobody, with a timer and callbacks in place and no endless retries, a run of timers alone, no longer than the measure, empties the table and leaves nobody waiting |
| RetryLaw.CallStartsLaw | include/rpc_core/request.ipp:8-34 | a fresh call has sent one command and waits under its number |
| RetryLaw.LawHolds | include/rpc_core/request.hpp:174-189 | through any undisturbed run the commands, timeouts and endings of the request stay in step with its retry count |
| Numbers.CallAndRunDistinct | include/rpc_core/rpc.hpp:153-155 | all commands sent by a call and any run after it carry different numbers |
| RetryLaw.ExactRetries | include/rpc_core/request.hpp:204-211 | an unanswered call with retry count n ends after exactly n + 1 commands with different numbers, n + 1 timeout callbacks and one ending, by timeout; never more |
| EndlessRetry.TimeoutByCount | include/rpc_core/request.hpp:174-189 | one timeout, count by count: -1 calls again for ever, a positive count calls again and is one less, 0 and anything below -1 ends by timeout and sends nothing |
| EndlessRetry.TimersFireOnce | include/rpc_core/detail/msg_dispatcher.hpp:160-173 | a timer goes off once, and for a number that is no longer in the table it does nothing |
| EndlessRetry.RetriesForever | include/rpc_core/request.hpp:204-211 | an unanswered call with retry count -1 never ends: after any undisturbed run it still waits with -1 and has sent one command more than its timer has gone off |
| CancelSafety.CancelQuiets | include/rpc_core/request.hpp:193-197 | `cancel` leaves the request flagged and not waiting, with at most a canceled ending |
| CancelSafety.SilentUntilReset | include/rpc_core/request.hpp:193-202 | until the cancellation is reset, no step of either side sends a command of the request or runs its callback, and it only ends as canceled |
| Outcomes.NextEndsExactly | include/rpc_core/request.hpp:57-202 | judged by the state before it, a step ends a request with an outcome if and only if that outcome is due: canceled for a flagged request, normal for a readable, non-refused answer to an unflagged one, and so on for all eight; likewise for the response callback, with or without data |
| Outcomes.EndingsExactly | include/rpc_core/request.hpp:57-301 | over every run, each outcome has been reported, and the callback run, exactly as often as it was due |
| Outcomes.EveryEndingWasDue | include/rpc_core/request.hpp:292-301 | every ending in the log of a run was due at the act that logged it |
| Endings.EveryEndingExplained | include/rpc_core/request.hpp:57-301 | over every run, an ending other than canceled comes right after an event that can cause it, and a response callback only right after its number was answered |
| Endings.NoSuchCmdIsTrue | include/rpc_core/detail/msg_dispatcher.hpp:57-72 | a request ends with no-such-command only if the peer received exactly its command when it had no handler for it |
| Endings.CallbackAtMostOnce | include/rpc_core/detail/msg_dispatcher.hpp:111-126 | however often a response is repeated, the callback runs at most once for its number |
| DeferredReply.NextKeepsDeferred | include/rpc_core/rpc.hpp:98-108 | nothing but its own `rsp` changes a deferred reply |
| DeferredReply.OnlyTheFirstReplies | include/rpc_core/rpc.hpp:98-108 | over any run, of the later calls of `rsp` only the first sends, and only if none came before and the command wanted a reply |
| DeferredReply.ExactlyOneReply | include/rpc_core/rpc.hpp:84-115 | whether a handler is synchronous or not, and wherever the calls of `rsp` fall, exactly one response goes out, carrying the first value, if the command can be read, needs a response and there is a value at all; otherwise none |
| Dispose.Disposer.Add | include/rpc_core/dispose.hpp:25-28 | appends |
| Dispose.Disposer.Remove | include/rpc_core/dispose.hpp:30-38 | what remains is exactly the elements at the places of other requests that still exist, in their order and number |
| Dispose.Disposer.Dismiss | include/rpc_core/dispose.hpp:40-48 | every request that still exists is canceled, in order, whichever rpc object it belongs to, and the list is empty |
| Dispose.CancelAllQuiets | include/rpc_core/dispose.hpp:40-48 | it quiets exactly the listed requests, and all that is seen are canceled endings |
| Dispose.DismissedStaySilent | include/rpc_core/dispose.hpp:40-48 | after a dismissal the listed requests stay silent through every run until reset |
| DataPacker.Packer.constructor | include/rpc_core/detail/data_packer.hpp:16 | starts with nothing pending |
| DataPacker.Packer.PackData | include/rpc_core/detail/data_packer.hpp:31-44 | four bytes that hold the size, least significant first, and the data, or nothing at all above the limit |
| DataPacker.Packer.Reset | include/rpc_core/detail/data_packer.hpp:83-88 | back to the initial state |
| DataPacker.Packer.FeedData | include/rpc_core/detail/data_packer.hpp:47-81 | the recursion terminates, keeps the state within bounds, and computes `Feed` |
| DataPacker.Packer.FeedBodyData | include/rpc_core/detail/data_packer.hpp:91-106 | the same for the body phase |
| Cuts.FeedFollows | include/rpc_core/detail/data_packer.hpp:47-106 | one call, on any stream on which the cut does not matter: what it delivers and what it leaves pending make up the stream's frames, or an empty last frame has just ended it |
| Cuts.AnyCutDelivers | include/rpc_core/detail/data_packer.hpp:47-106 | however such a stream is cut, exactly its frames up to the first empty or oversize announcement are delivered |
| Framing.DeframeAppend | include/rpc_core/detail/data_packer.hpp:47-106 | deframing may stop anywhere and resume from the pending bytes |
| Cuts.TwoCuts | include/rpc_core/detail/data_packer.hpp:47-106 | for every other byte string there are two cuts that deliver different payloads |
| Cuts.CutIndependentExactly | include/rpc_core/detail/data_packer.hpp:47-106 | for every byte string and limit: all cuts deliver the same payloads if and only if the string is cut free, a condition on its headers |
| Cuts.ChunkIndependence | include/rpc_core/detail/data_packer.hpp:47-106 | from any clean state two ways of cutting a cut-free stream deliver the same payloads; when all headers are in limit and non-empty they also leave the same bytes pending |
| Framing.ConcreteStateRemembersTheCut | include/rpc_core/detail/data_packer.hpp:60-67 | two cuts of one header that leave different raw fields |
| Framing.DeliversAnyCutExactly | include/rpc_core/detail/data_packer.hpp:31-106 | whatever was packed is delivered under every cut if and only if no payload is empty |
| Framing.FramePerChunk | include/rpc_core/detail/data_packer.hpp:72-79 | cut frame by frame, exactly the empty payloads are swallowed |
| Framing.SplitEmptyHeaderIsNotClean | include/rpc_core/detail/data_packer.hpp:60-79 | a cut of an empty header that leaves a stale header count |
| Framing.OversizeDependsOnTheCut | include/rpc_core/detail/data_packer.hpp:70-74 | a stream with an oversize header and two cuts of it, one of which delivers a payload and one nothing |
| Framing.PrefixDelivers | include/rpc_core/detail/data_packer.hpp:47-106 | any prefix of a sent stream delivers exactly the payloads it completes |
| StreamConnection.Connection.constructor | include/rpc_core/connection.hpp:65-77 | starts with nothing written and nothing pending |
| StreamConnection.Connection.SendMsg | include/rpc_core/connection.hpp:67-70 | writes the packed message, or nothing if it is too long |
| StreamConnection.Connection.OnRecvBytes | include/rpc_core/connection.hpp:74-76 | feeds the packer |
| StreamConnection.Connection.Reset | include/rpc_core/connection.hpp:82-84 | drops what is pending |
| StreamConnection.EndToEnd | include/rpc_core/connection.hpp:65-77 | coder, packer, any fragmentation, parser, coder: exactly the messages that fit arrive, in order, and nothing stays pending |
| StreamConnection.ShortCommandsArriveUnchanged | include/rpc_core/detail/coder.hpp:13-52 | with commands shorter than 65536 bytes they arrive unchanged |
| StreamConnection.AnyPrefixArrives | include/rpc_core/connection.hpp:65-77 | of any prefix of the written bytes, cut in any way, exactly the messages of the packages it completes are dispatched, in order |
| StreamRuns.StreamStepsAreReceives | include/rpc_core/connection.hpp:65-77 | whatever has come through of an rpc object's packages over a stream are the first of its sent messages that fit, and each is a `Receive` step that the state machine allows |
| StreamSystem.ArrivalIsRun | include/rpc_core/detail/msg_dispatcher.hpp:26-41 | handling the messages that a chunk completes, one after the other, is a legal run of receipts |
| StreamSystem.StreamsSimulate | include/rpc_core/connection.hpp:65-77 | two endpoints joined by two byte streams, with local steps and chunk arrivals in any order: every state is one that a legal run over the network of messages leads to |
| StreamSystem.SoundOverStreams | include/rpc_core/connection.hpp:65-77 | so the correlation invariant holds over byte streams |
| SerialRoundTrip.ParseEncode | include/rpc_core/serialize_type.hpp:18-52 | for every type of any nesting, decoding the encoding gives back the value; behind a self-delimiting type anything may follow and is left alone |
| SerialRoundTrip.ParseContainerEncode | include/rpc_core/serialize/std_list_like.hpp:25-61 | the same for the element loops |
| SerialRoundTrip.ParseFieldsEncode | include/rpc_core/serialize/std_tuple.hpp:65-131 | the same for tuples and structs, field by field |
| SerialFormat.EncodedOnWire | include/rpc_core/serialize_type.hpp:18-22 | the bytes of every typed value, in numbers: counts and sizes in the auto-size form, 0 or 1 before an optional, everything but fundamentals behind its size |
| SerialFormat.KeysOfElements | include/rpc_core/serialize/std_map.hpp:52 | sets compare whole elements, maps the first field of an entry, multi containers keep all |
| SerialFormat.WholeCharacters | include/rpc_core/serialize/std_basic_string.hpp:35-40 | a string takes as many whole characters as fit its size |
| SerialFormat.StructLeavesSizeStale | include/rpc_core/serialize/type_struct.hpp:167-181 | a field of its own archive leaves the size of a struct's archive as it was and reduces that of a tuple's |
| SerialTypes.Narrow | include/rpc_core/serialize/type_raw.hpp:28-33 | the cast to a smaller integer is in range and equal modulo 2^32 |
| SerialContainers.AnyIterationOrder | include/rpc_core/serialize/std_set.hpp:27-63 | whichever iteration order of a set, map, multiset or multimap is written, the collection read is the same |
| SerialContainers.EmplaceKeepsFirsts | include/rpc_core/serialize/std_map.hpp:39-55 | whatever arrives, a container without duplicates holds exactly the first element of each key |
| ArchiveCursor.SizeIrrelevant | include/rpc_core/serialize/type_struct.hpp:160-181 | decoding a self-delimiting type never depends on the archive's size, in any memory |
| ArchiveCursor.CursorRefines | include/rpc_core/serialize/type_struct.hpp:146-181 | on every archive that parses, the unchecked cursor reads the same value and, if the type is self-delimiting, ends at the same place |
| ArchiveCursor.EveryStringSeesItsSize | include/rpc_core/serialize/std_basic_string.hpp:35-40 | in every archive that parses, at any depth, a string is read with the size being exactly the bytes left in its own archive |
| ArchiveCursor.DeserializeSerialize | include/rpc_core/serialize_api.hpp:11-23 | the cursor over exactly the encoding reads the value back |
| ArchiveCursor.StringNeedsTheExactSize | include/rpc_core/serialize/std_basic_string.hpp:35-40 | a string is read correctly if and only if the size is exact |
| Archives.PutAuto | include/rpc_core/serialize_type.hpp:54-58 | appends the auto-sized integer |
| Archives.PutArchive | include/rpc_core/serialize_type.hpp:18-22 | appends size and bytes of the inner archive |
| Archives.PutString | include/rpc_core/serialize/std_basic_string.hpp:17-33 | the rvalue form has the same effect as appending |
| Archives.PutValue | include/rpc_core/serialize/std_shared_ptr.hpp:17-26 | the operators write the encoding of any typed value |
| Archives.PutContainer | include/rpc_core/serialize/std_list_like.hpp:25-39 | the loop writes the size and every element in order |
| Archives.PutItem | include/rpc_core/serialize/type_struct.hpp:146-158 | fundamentals go inline, everything else as an archive of its own |
| Archives.PutTuple | include/rpc_core/serialize/std_tuple.hpp:65-83 | the recursion writes the elements in order |
| Archives.GetAuto | include/rpc_core/serialize_type.hpp:60-66 | reads the integer and moves the archive behind it |
| Archives.GetValue | include/rpc_core/serialize/type_raw.hpp:14-33 | the operators read what the cursor decoder reads and leave the archive where it says |
| Archives.GetItem | include/rpc_core/serialize/type_struct.hpp:160-181 | an element is decoded within its own size; in a struct the outer size is left stale |
| Archives.GetList | include/rpc_core/serialize/std_list_like.hpp:41-61 | the append loop |
| Archives.GetForwardList | include/rpc_core/serialize/std_forward_list.hpp:35-56 | pushing to the front and reversing equals appending |
| Archives.GetSetOrMap | include/rpc_core/serialize/std_map.hpp:39-55 | the emplace loop of sets and maps |
| Archives.GetFields | include/rpc_core/serialize/std_tuple.hpp:112-131 | tuples and structs read their fields in order |
| Archives.RoundTripThroughArchives | include/rpc_core/serialize_api.hpp:11-23 | writing and reading through the operators gives the value back |
| AutoSize.AutoSizeType.constructor | include/rpc_core/serialize/detail/auto_size.hpp:13 | holds the value |
| AutoSize.AutoSizeType.Serialize | include/rpc_core/serialize/detail/auto_size.hpp:15-42 | the result's first byte is the number of magnitude bytes, plus 128 for a negative value; they follow with the most significant one last and not zero |
| AutoSize.AutoSizeType.Deserialize | include/rpc_core/serialize/detail/auto_size.hpp:44-57 | overwrites the low bytes of the object and returns the cost |
| AutoSize.EncodedLength | include/rpc_core/serialize/detail/auto_size.hpp:20-31 | one byte more than the least k with magnitude below 256^k |
| AutoSize.EncodedForm | include/rpc_core/serialize/detail/auto_size.hpp:33-40 | the form of every value in numbers |
| AutoSize.ReadsFirstByte | include/rpc_core/serialize/detail/auto_size.hpp:44-57 | a first byte k is read as k bytes of magnitude, 128 + k as the negative of them |
| AutoSize.RoundTrip | include/rpc_core/serialize/detail/auto_size.hpp:15-57 | every 64-bit value, signed or unsigned, survives with any bytes behind it, and the cost is its length |
| AutoSize.DecodeExtends | include/rpc_core/serialize/detail/auto_size.hpp:44-57 | reading looks at nothing beyond its cost |
| Coder.DeserializeSerialize | include/rpc_core/detail/coder.hpp:13-52 | what arrives is the message with its command cut to length modulo 65536 |
| Coder.RoundTripExactly | include/rpc_core/detail/coder.hpp:13-52 | a message survives if and only if its command is shorter than 65536 bytes |
| Coder.SerializeDeserialize | include/rpc_core/detail/coder.hpp:29-52 | accepted are exactly the payloads of at least 7 plus embedded length bytes, and coding the result again gives the same bytes |
| Coder.SerializeMsg | include/rpc_core/detail/coder.hpp:13-27 | the appends lay out four bytes of number, two of command length, the command, the type, and the request's payload if there is one, the data if not |
| Coder.LaidOutIsRead | include/rpc_core/detail/coder.hpp:29-52 | what is laid out like this is read back, for commands shorter than 65536 bytes, with the payload or else the data as its data |
| Coder.DeserializeMsg | include/rpc_core/detail/coder.hpp:29-52 | the pointer walk accepts and reads what `Deserialize` says |
| Varint.GroupsIsLeastClearBit | include/rpc_core/detail/varint.hpp:13-22 | the number of bytes written is the least k >= 1 whose bit 7k is clear |
| Varint.SurvivorIsLowBits | include/rpc_core/detail/varint.hpp:13-39 | exactly the low 7k bits survive |
| Varint.DecodeEncode | include/rpc_core/detail/varint.hpp:13-39 | reading what was written gives those bits and the number of bytes |
| Varint.RoundTripExactly | include/rpc_core/detail/varint.hpp:13-39 | the round trip holds if and only if the value is below 2^(7k) |
| Varint.WritesLeb128Exactly | include/rpc_core/detail/varint.hpp:13-22 | the writer produces LEB128 if and only if the value is below 2^(7k) |
| Varint.LebDigit | include/rpc_core/detail/varint.hpp:13-22 | the LEB128 it is compared with: seven bits a byte, least significant first, 128 more in every byte but the last |
| Varint.DecodesEveryLeb128 | include/rpc_core/detail/varint.hpp:24-39 | the reader is right on every LEB128 number |
| Varint.TwoHundredFiftySixIsLost | include/rpc_core/detail/varint.hpp:11 | 256 comes back as 0, and everything below survives |
| Varint.Encode32Length | include/rpc_core/detail/varint.hpp:41-47 | a 32-bit value needs at most five bytes, so the buffer is large enough |
| Varint.ToVarint | include/rpc_core/detail/varint.hpp:13-47 | the loop stays within its buffer and writes `Encode` |
| Varint.VarintDecode | include/rpc_core/detail/varint.hpp:24-39 | the loop reads the number in 64-bit arithmetic |
| CoderVarint.DeserializeSerialize | include/rpc_core/detail/coder_varint.hpp:11-48 | what arrives, for every message: both numbers lose their high bits and the fields are cut accordingly |
| CoderVarint.RoundTripExactly | include/rpc_core/detail/coder_varint.hpp:11-48 | a message survives if and only if both numbers do and the command is shorter than 65536 bytes |
| CoderVarint.SerializeMsg | include/rpc_core/detail/coder_varint.hpp:11-26 | on safe messages the appends lay out number and command length in LEB128, the command, the type, and the request's payload if there is one, the data if not |
| CoderVarint.LaidOutIsRead | include/rpc_core/detail/coder_varint.hpp:28-48 | what is laid out like this by any LEB128 writer is read back for all messages with commands shorter than 65536 bytes |
| CoderVarint.DeserializeMsg | include/rpc_core/detail/coder_varint.hpp:28-48 | the pointer walk accepts and reads what `Deserialize` says |

## Left out

- The Rust implementation of the same protocol, sockets and reconnecting connections.
- The JSON and flatbuffers plugins. Without them `ia.error` is never set, so error propagation is not modelled.
- Futures, coroutines, logging, callable traits and the macro mechanics behind struct definitions.
- Lifetimes: requests, rpc objects and connections stay alive. An expired rpc object appears only as one that was never set; a destroyed request only in `Dispose`.
- User callbacks that re-enter the library while it runs them, and use from several threads.
- `timeout_ms`: when a timer goes off is not modelled, only that an armed timer may go off at any time, once.
- RpcObjects.Request.Call: a request is only ever called with the rpc object it was created for, while the source accepts another one on each call or through `request::rpc`. An endpoint's state would otherwise include requests shared with other endpoints. The registry of requests in `RpcObjects.Rpc` exists only for the specification.
- StreamSystem.StreamsSimulate: the streams are never reset; a reset in the middle of a stream makes the parser start at whatever byte comes next.
- The form of `pack` with a callback, and `loopback_connection`, which hands each package straight to the peer.
- Thin codecs that delegate to modelled ones: enum, raw pointer, chrono, complex, bitset, `std::array`, `std::pair` (a two-element tuple), `unique_ptr`, container adaptors, `binary_wrap`.
- The form of writing an archive into an archive that steals an rvalue's data; no codec uses it.
- Memory layout of floating-point numbers: fixed-width fundamentals are opaque bytes.
- The concrete order in which an unordered container iterates: a container is given by some order of its elements.
- Varint.VarintDecode: requires a number of at most ten bytes within the memory, because C++ defines its shifts and reads no further.
- CoderVarint.DeserializeMsg: requires that reading the two numbers stays within the payload's memory, for the same reason; `CoderVarint.Deserialize` names the other payloads `Undefined`.
- AutoSize.AutoSizeType.Deserialize: requires that the announced bytes exist and fit into the object, because C++ does not define the copy otherwise. Archives report such input as unreadable where the code would run out of its memory.
- Correlation.ResponseCorrelation: assumes at most 2^32 numbers per side, as do `Accounting.ResolvedAtMostOnce`, `Drain.NoneLostExactly` and `RetryLaw.ExactRetries`; `WrapAround.WrappedNumbersAreMistaken` shows that it fails with 2^32 + 1. What holds beyond that is not characterised.
- Drain.DrainBound: assumes that no request retries forever (count -1), because such a request has no remaining count to measure by.
- ArchiveCursor.CursorRefines: speaks of archives that parse; what the unchecked decoder makes of malformed bytes is not characterised.
- Decoding into a target that already holds elements: targets are fresh.
