# Verified model of the segmented transport of the E3 simulator

The simulator answers diagnostic requests of open3e clients over CAN and over DoIP. This
project models the parts in which bytes are cut into frames, sent by concurrent workers
and put together again, and proves what a receiver can rely on.

| file | models |
|---|---|
| `Bytes.dfy` | bytes, 8-byte frames, Python slices, subsequences |
| `IsoTp.dfy` | `simulator/protocol/isotp.py`: `segment` as a loop, `ISOTPAssembler` as a class that refines a pure step |
| `IsoTpStreams.dfy` | what an assembler does with a list of Consecutive Frames (`CfListExact`), the base of everything after it |
| `IsoTpTheorems.dfy`, `IsoTpRobustness.dfy` | the laws of ISO-TP on clean, noisy and arbitrary streams |
| `IsoTpLoss.dfy` | exactly what is delivered when frames are lost, repeated or reordered, within one message and across messages |
| `Faults.dfy`, `FaultOutcomes.dfy` | `simulator/faults.py`: the ten faults and exactly what each makes a receiver deliver |
| `Handlers.dfy` | `datastore.py`, `uds.py`, `service77.py`: the shared store and the two services |
| `Device.dfy`, `DeviceObject.dfy` | `simulator/device.py`: the two workers as a state machine that moves from one `await` to the next, and the object whose methods are its steps |
| `SentStreams.dfy`, `DeviceSafety.dfy`, `DeviceHistory.dfy` | theorems over all runs: whole responses, also when the bus loses frames, store history, no torn reads, length bound |
| `DeviceStages.dfy`, `DeviceConversation.dfy` | the closed loop on every schedule and under every fault: where a conversation can stand, what it comes to, and that it can always be completed |
| `DeviceFlow.dfy` | Flow Control over runs: what a worker sends to a client that does not ask for more, or asks wrongly |
| `Collect.dfy`, `CollectLoss.dfy` | `simulator/protocol/collect.py`, the decoder that `docs/protocols.md` prescribes for listeners, and what it makes of lossy broadcasts |
| `Bus.dfy`, `Broadcast.dfy`, `BroadcastLoss.dfy` | `simulator/bus.py` and `simulator/cyclic.py`: transmit queue, retry, broadcasts end to end, with and without frames dropped |
| `DoipLenient.dfy`, `Doip.dfy` | the second reassembly in `simulator/device.py` under every fault, and `simulator/doip.py` with its sessions |

How the model is set up:

* A frame is a sequence of eight bytes; a receiver state is a subset type whose constraint
  is the class invariant, and `ReachableIff` shows that the invariant is exactly
  reachability. "From every state" below therefore means from every reachable state.
* Every random draw of the fault injector is an argument (`Fault`), every answer of the
  CAN interface is an argument (`Answers`), and time is nondeterminism: a `Timeout` may
  happen whenever a worker waits for Flow Control.
* A run of a device is a list of actions: a frame arrives for a worker, a worker runs to its
  next `await`, a wait expires. Handlers run within one step, as in the source. More
  interleavings are admitted than the event loop has, because each send is a step.
* What the handlers, the injector, the segmenters and the headers produce is also stated byte
  by byte (`UdsWriteIff`, `S77WriteIff`, `DamagedIff`, `FrameBytes`, `LengthBytes`, `PrintedHeader`),
  without the functions and constants that the model computes it with.
* Imperative source code is imperative here: the loops of `segment`, `segment_collect`, the
  faults, the retry and the DoIP session are methods with invariants, and the classes
  (`ISOTPAssembler`, `DatapointStore`, the handlers, `SimulatedDevice`, `CANBus`, `CyclicTask`,
  `DoIPServer`) have methods whose contracts give the whole new state as the pure step.

Where the code and its documentation disagree the model follows the code:

* The Flow Control frame is padded with 0xCC (`isotp.py:209`), the documentation says 0x00.
* `faults.py:324` says that no payload byte is ever touched. SHORT_PAYLOAD and WRONG_PADDING
  do touch payload bytes; `ShortPayloadHarmlessIff` and `WrongPaddingHarmlessIff` give the
  exact condition under which they do not.
* Service 77 does not decode the extended length code of `docs/protocols.md:441`: whatever
  follows byte 8 is stored. A request with a documented length code stores its value if and
  only if it has at most 15 bytes (`CodedWriteIff`, and `SixteenBytesStoredWrong` for the first
  one that goes wrong); one without a code, if and only if its first byte is below 0x80
  (`RawWriteIff`).

Some things a reader might expect of the code are false. Each is shown so by an input, and
stands with the condition under which it does hold:

* A list that first delivers p on its last frame need not be `segment(p)`: a repeated First
  Frame is harmless (`RestartAlsoDelivers`). It is if and only if it has one start frame
  (`ParsePrintIff`).
* Loss is always detected within one message, but not across messages
  (`LossAcrossMessagesSplices`). As long as every start frame arrives, any other loss is safe
  (`LossyRunExact`); whatever is lost, `IsoTpLoss.AnyLossExact` gives exactly what is delivered,
  and for one burst over the border of two messages `BurstLossExact` says when it goes unnoticed.
* Reordering is detected if frames move by fewer than 16 places (`DisplacementExact`), and
  in general delivers something if and only if every needed frame is a multiple of 16 places
  from home (`RearrangementExact`).
* A DoIP session does not always answer every message. It does if and only if no message
  reads a value over 4092 bytes (`AllServedIff`), and since a DoIP client can write such a
  value, sessions are never cut short if and only if every DID it can name is protected and
  holds a value that fits (`Doip.NeverCutIff`).
* A listener does not always notice lost Collect frames. With messages of up to 15
  continuation frames any loss that spares the first frames is safe (`LossyBroadcasts`), and
  16 are too many (`SixteenSplice`). When a first frame is lost, even two short messages can
  be spliced (`LostFirstSplices`): a burst goes unnoticed if and only if it cuts both messages
  at the same frame and enough frames follow (`BurstExact`), and whatever is lost
  `CollectLoss.AnyLossExact` gives exactly what is decoded.

## Model

| member | source | states |
|---|---|---|
| IsoTp.SegmentPayload | simulator/protocol/isotp.py:76-126 | the cutting loop yields, for every payload, the closed form frame by frame (SF, or FF and CFs numbered 1, 2, ... mod 16, padded with 0xCC), and raises exactly above 4095 bytes |
| IsoTp.ISOTPAssembler.constructor | simulator/protocol/isotp.py:145-152 | a new assembler is in the idle state |
| IsoTp.ISOTPAssembler.Feed | simulator/protocol/isotp.py:154-184 | one frame takes the four fields to exactly the next state, payload and Flow Control of the step function, invariant kept |
| IsoTp.ISOTPAssembler.HandleSf | simulator/protocol/isotp.py:188-196 | a Single Frame with a length of 1 to 7 resets and delivers, any other is ignored |
| IsoTp.ISOTPAssembler.HandleFf | simulator/protocol/isotp.py:198-210 | a First Frame announcing 8 or more bytes restarts reception from any state and is answered with ContinueToSend, any other is ignored |
| IsoTp.ISOTPAssembler.HandleCf | simulator/protocol/isotp.py:212-239 | a Consecutive Frame is ignored when idle, aborts when out of sequence, otherwise extends or completes the message |
| IsoTpStreams.CfListExact | simulator/protocol/isotp.py:212-239 | for every list of Consecutive Frames on an open message: it completes if and only if enough frames arrive in order, closes silently at an earlier mismatch, stays open otherwise |
| IsoTpStreams.MultiExact | simulator/protocol/isotp.py:198-239 | what a First Frame and any Consecutive Frames deliver does not depend on the state before; exact result and end state |
| IsoTpTheorems.FrameBytes | simulator/protocol/isotp.py:76-126 | byte by byte: segmentation gives exactly one frame list, the length in one nibble or 12 bits, 6 and then 7 bytes to a frame, numbers from 1 modulo 16, 0xCC behind the last byte; and nothing above 4095 bytes |
| IsoTpTheorems.PromptIff | simulator/protocol/isotp.py:198-210 | an assembler asks for more, with the bytes 30 00 00 CC CC CC CC CC, on a First Frame announcing at least 8 bytes and on no other frame |
| IsoTpTheorems.RoundTrip | simulator/protocol/isotp.py:76-239 | from every reachable state the frames of a payload of 1 to 4095 bytes deliver exactly that payload, once, on the last frame |
| IsoTpTheorems.ReachableIff | simulator/protocol/isotp.py:145-239 | the class invariant holds of exactly the states that some stream of frames leads to |
| IsoTpTheorems.ParsePrintIff | simulator/protocol/isotp.py:76-239 | a frame list equals segment(p) if and only if it is one start frame and Consecutive Frames, canonically padded, that first delivers p on its last frame |
| IsoTpTheorems.RestartAlsoDelivers | simulator/protocol/isotp.py:198-210 | why one start frame must be asked for: a repeated First Frame is not ignored and the list still first delivers p on its last frame |
| IsoTpRobustness.IgnoredIff | simulator/protocol/isotp.py:174-215 | the branches that drop a frame are exactly the cases in which nothing changes and nothing is returned |
| IsoTpRobustness.DeliveryIff | simulator/protocol/isotp.py:154-239 | on any stream, feed returns p if and only if the frame is not ignored and the frames not ignored so far end in one whole message (SF, or FF announcing L with exactly ceil((L-6)/7) CFs numbered from 1) whose data truncated to L is p |
| IsoTpRobustness.Resynchronises | simulator/protocol/isotp.py:174-239 | with arbitrary frames before each message and frames of type 3 and above anywhere inside, every message is delivered intact and in order |
| IsoTpRobustness.BodyDelivers | simulator/protocol/isotp.py:174-239 | such a noisy message is delivered at its own last frame and not before |
| IsoTpLoss.TooFewFrames | simulator/protocol/isotp.py:216-237 | a First Frame and fewer Consecutive Frames than announced never deliver, whatever they hold |
| IsoTpLoss.LossIsDetected | simulator/protocol/isotp.py:118-124 | a First Frame and any strict subsequence of its Consecutive Frames delivers nothing, also when 16 in a row are lost |
| IsoTpLoss.MixtureExact | simulator/protocol/isotp.py:212-239 | behind a First Frame any Consecutive Frames of any messages deliver something if and only if enough follow and every needed one is a multiple of 16 places from home; the payload is then made of exactly their bytes |
| IsoTpLoss.RearrangementExact | simulator/protocol/isotp.py:216-237 | the same for any loss, repetition and reordering within one message |
| IsoTpLoss.DisplacementExact | simulator/protocol/isotp.py:216-237 | with Consecutive Frames each displaced by fewer than 16 places the receiver delivers the original if every needed frame is at home and nothing otherwise |
| IsoTpLoss.SixteenApartSplices | simulator/protocol/isotp.py:216-237 | the bound 16 is sharp: two frames exchanged 16 places apart are accepted and their bytes delivered exchanged |
| IsoTpLoss.LossyRunExact | simulator/protocol/isotp.py:198-239 | for every list of messages whose start frames all arrive, and any subsequence of the Consecutive Frames of each, exactly the messages that survive whole are delivered, in order, from any receiver state |
| IsoTpLoss.AnyLossExact | simulator/protocol/isotp.py:198-239 | when start frames are lost too: the exact outcome of a whole stream from any receiver state, first of the Consecutive Frames before the first surviving start frame, then start frame by start frame |
| IsoTpLoss.LostStartExact | simulator/protocol/isotp.py:212-239 | with the First Frame of the second of two messages lost, whatever else arrives of both: something is delivered if and only if the frames suffice and each needed one is a multiple of 16 places from home |
| IsoTpLoss.BurstLossExact | simulator/protocol/isotp.py:212-239 | one burst of loss that takes a message from its Consecutive Frame k and the next up to its Consecutive Frame l: a message cut short is spliced with the next if and only if k and l agree modulo 16 and enough frames follow, and nothing is delivered otherwise; the exact bytes |
| IsoTpLoss.LossAcrossMessagesSplices | simulator/protocol/isotp.py:212-239 | so loss that spans the border at the same place k of both splices any message with any one that is not shorter |
| Faults.ShortenLast | simulator/faults.py:367-378 | the backwards loop blanks exactly the last n bytes of the last frame |
| Faults.ReplacePadding | simulator/faults.py:380-390 | the nested loops replace 0xCC by 0xAA in every byte of every frame and nothing else |
| Faults.CorruptDid | simulator/faults.py:327-348 | the two DID bytes of frame 0, by frame type, are shifted modulo 65536 |
| Faults.CorruptService | simulator/faults.py:350-365 | the service byte of frame 0, by frame type, becomes 0 |
| Faults.CorruptSeq | simulator/faults.py:407-420 | one Consecutive Frame gets the next sequence number; a single frame is left alone |
| Faults.InflateLength | simulator/faults.py:436-454 | the 12-bit length of the First Frame grows by one, clamped at 4095; a single frame is left alone |
| Faults.Inject | simulator/faults.py:289-310 | dispatch of all ten faults to their rewritten frame list, total on every list of frames |
| Faults.DamagedIff | simulator/faults.py:327-454 | frame by frame and byte by byte, the damage of each of the ten faults: the result is this damage and every list damaged so is the result |
| FaultOutcomes.FaultOutcome | simulator/faults.py:272-454 | for every payload, fault, random draw and receiver state: the exact payload list delivered, defined on payloads alone |
| FaultOutcomes.DroppedDeliversNothing | simulator/faults.py:392-405 | DROP_RANDOM_CF, DROP_LAST_CF and TRUNCATED_MF deliver nothing |
| FaultOutcomes.WrongSeqDeliversNothing | simulator/faults.py:407-420 | WRONG_SEQ delivers nothing, whichever frame is hit |
| FaultOutcomes.DuplicateOutcome | simulator/faults.py:422-428 | DUPLICATE_CF delivers the original if and only if the last frame was duplicated |
| FaultOutcomes.WrongLenOutcome | simulator/faults.py:436-454 | WRONG_LEN delivers p + 0xCC, nothing when the data fill the last frame, and p at the clamp of 4095 |
| FaultOutcomes.HeaderFaultOutcome | simulator/faults.py:327-365 | WRONG_DID and WRONG_SERVICE deliver a payload that differs in bytes 1-2 or byte 0 only, for every length of response |
| FaultOutcomes.ShortPayloadOutcome | simulator/faults.py:367-378 | SHORT_PAYLOAD keeps the length and overwrites exactly the last max(0, n-(7-r)) bytes, r being the data count of the last frame, for every length of response |
| FaultOutcomes.WrongPaddingOutcome | simulator/faults.py:380-390 | WRONG_PADDING maps 0xCC to 0xAA and, when the low length byte of a multi-frame response is 0xCC, delivers only the first L-34 mapped bytes |
| FaultOutcomes.FaultsAreContained | simulator/faults.py:216-310 | a run of responses under any faults delivers exactly the outcomes of its responses one after the other, from any receiver state |
| FaultOutcomes.WrongDidChangesOnlyDid | simulator/faults.py:340-348 | WRONG_DID always changes the DID and nothing else |
| FaultOutcomes.ShortPayloadHarmlessIff | simulator/faults.py:321-378 | SHORT_PAYLOAD leaves the payload alone if and only if every byte it overwrites was 0xCC |
| FaultOutcomes.WrongPaddingHarmlessIff | simulator/faults.py:321-390 | WRONG_PADDING leaves the payload alone if and only if neither a data byte nor the low length byte is 0xCC |
| Handlers.DatapointStore.Read | simulator/datastore.py:121-132 | the stored value of a known DID, None otherwise |
| Handlers.DatapointStore.Write | simulator/datastore.py:134-162 | overwrites a known DID only, reports whether it was known |
| Handlers.UDSHandler.Handle | simulator/protocol/uds.py:83-159 | answer and new store of every request: read, write, protection, all negative responses |
| Handlers.UdsWriteIff | simulator/protocol/uds.py:138-159 | a write is answered 6E with the DID and stores the bytes behind it if and only if it has at least four bytes and its DID is known and not protected; otherwise nothing changes and the answer is 7F 2E with 12 (too short), 22 (protected, known or not) or 31 (unknown) |
| Handlers.UdsReadIff | simulator/protocol/uds.py:111-123 | a read is answered 62 with the DID and its value if and only if it has at least three bytes and the DID is known, 7F 22 12 or 7F 22 31 otherwise, and changes nothing |
| Handlers.UdsOtherwise | simulator/protocol/uds.py:83-96 | any other service is refused with 7F, its own number and 11; only the empty request gets no answer |
| Handlers.Service77Handler.Handle | simulator/protocol/service77.py:116-172 | answer and new store of every request, silence for foreign services, optional length code |
| Handlers.S77WriteIff | simulator/protocol/service77.py:116-172 | a request is answered 77, its bytes 1 and 2, 44 and stores under the DID in bytes 6 and 7, low byte first, if and only if it begins with 77, has at least nine bytes and the DID is known, whatever byte 8 is; silence if and only if it is empty or begins otherwise; else 7F 77 12 or 7F 77 31 and nothing changes |
| DeviceObject.SimulatedDevice.constructor | simulator/device.py:80-120 | a new device has two idle workers with assemblers of their own over one store |
| DeviceObject.SimulatedDevice.OnFrame | simulator/device.py:239-243 | a callback appends to the queue of its own service only |
| DeviceObject.SimulatedDevice.HandlePayload | simulator/device.py:304-330 | dispatch, segmentation and fault injection refine the dispatch step; an oversized response kills the worker |
| DeviceObject.SimulatedDevice.ProcessFrame | simulator/device.py:284-302 | one frame through the assembler refines the step of an idle worker |
| DeviceObject.SimulatedDevice.TakeFlowControl | simulator/device.py:332-347 | the waiter takes the next queued frame whatever it is, goes on only for type 3, and loses any other frame |
| DeviceObject.SimulatedDevice.SendResponseFrame | simulator/faults.py:240-266 | one frame of a response is sent; behind frame 0 of several the worker waits, behind the last it is idle |
| DeviceObject.SimulatedDevice.Expire | simulator/device.py:344-346 | a timeout abandons the response of a waiting worker and changes nothing else |
| DeviceObject.SimulatedDevice.Run | simulator/device.py:249-330 | a worker resumed at any await takes the device to exactly the next state of the machine |
| DeviceSafety.ResponsesStayWhole | simulator/device.py:249-347 | in every run, with any frames, interleaving, timeouts, aborts and faults, the payloads that a client in any state assembles from the frames sent on a response ID are an in-order subsequence of the outcomes of that service's responses |
| DeviceSafety.FaultFreeRunsDeliverResponses | simulator/device.py:249-347 | without faults they are an in-order subsequence of exactly what the handler answered, each at most once, never a mix |
| DeviceSafety.LossyRunsDeliverResponses | simulator/device.py:249-347 | the same when the bus loses any of the frames sent, start frames excepted: what a client in any state still assembles is an in-order subsequence of what the handler answered |
| DeviceSafety.SentIsComposed | simulator/device.py:249-347 | in every run the frames on a response ID are fronts of that service's responses, each at most once and in order, with Flow Control among them |
| DeviceSafety.NextTracks | simulator/device.py:249-347 | every single step of either worker keeps the invariant behind it |
| SentStreams.CutOffResponse | simulator/faults.py:250-266 | a response cut off after any number of frames delivers its outcome or nothing |
| DeviceHistory.StoreHistory | simulator/datastore.py:157-162 | over all interleavings: the set of DIDs never changes, every value is that of the last accepted write, and a protected value that of the last accepted Service 77 write whatever UDS clients send |
| DeviceHistory.ReadsSeeLastWrite | simulator/protocol/uds.py:115-123 | every successful UDS read answers with the last value accepted before it by either service |
| DeviceHistory.AcceptedIff | simulator/device.py:304-316 | in every run, which writes of either service are accepted is decided by the requests and the DIDs known at the start alone |
| DeviceHistory.FaultIsInjected | simulator/device.py:314-330 | a fault drawn in the step that dispatches a request damages that response: exactly the frames it leaves are to be sent |
| DeviceHistory.SentInOneStep | simulator/device.py:93-98 | every frame that a run puts on the bus goes out in one step of one worker, under the device's ID plus 0x10 for UDS and 0x12 for Service 77 |
| DeviceHistory.DispatchEffect | simulator/protocol/uds.py:138-159 | request and answer alone tell the write a dispatch performed; a UDS write never hits a protected DID |
| DeviceHistory.PositiveReadOnly | simulator/protocol/uds.py:102-123 | only a successful read answers 0x62, and its data are the stored value |
| DeviceHistory.NeverRaisesIff | simulator/protocol/isotp.py:106-107 | no run ever makes segment raise if and only if every value that a two-byte DID can name has at most 4092 bytes at the start |
| DeviceHistory.RunKeepsBound | simulator/protocol/uds.py:142-159 | every reachable store stays within 4092 bytes per value and both workers stay alive |
| DeviceHistory.OversizedReadCrashes | simulator/device.py:320-320 | one read of a longer value ends the UDS worker |
| DeviceHistory.NoTornReads | simulator/device.py:314-330 | whatever Service 77 writes meanwhile, a value that a client in any state reassembles from a UDS read was the stored value at the one step that dispatched the read: its worker takes the frame that completes the request, and all frames of the answer are still unsent |
| DeviceHistory.SeenAtOneInstant | simulator/device.py:284-320 | every dispatch of a run is one of its steps: the worker was ready, took the frame that completed the request, and the handler met the store of that instant |
| DeviceFlow.OnlyFirstFrame | simulator/faults.py:249-266 | about to send a response of several frames, a worker whose client sends nothing puts out exactly the first of them, in its first step, on every schedule of both services; the timeout behind it leaves the worker at rest |
| DeviceFlow.WrongFrameGivesUp | simulator/device.py:332-347 | one frame that is no Flow Control, arriving at any time before the timeout: nothing goes out behind the first frame, and the worker that takes it is at rest |
| DeviceFlow.BurstsNeedFc | simulator/faults.py:249-266 | in every run, under any faults, a service sends at most as many bursts of Consecutive Frames as it gets Flow Control frames, so none to a client that sends none |
| DeviceFlow.QueueIsRest | simulator/device.py:239-282 | in every run the queue of a worker is the end of what has arrived for it, and frames leave it only in steps of that worker, at most one to a step: no timeout and no sending loses one |
| DeviceConversation.ConversationServes | simulator/device.py:284-347 | with the other worker at rest, every schedule of a conversation, from any assembler state and under any faults, takes the device to exactly the state of one direct handler call, its answer damaged by the fault of one step |
| DeviceStages.RequestFrame | simulator/device.py:294-302 | every frame of a request but the last is silent, the First Frame is answered with Flow Control, the last hands over exactly the request |
| DeviceStages.StaysInCourse | simulator/device.py:249-347 | every step that a cooperating client allows, and any step whatever of the other service, keeps the conversation at one of its stages |
| DeviceConversation.ClosedLoop | simulator/device.py:284-347 | on every schedule, whatever the other service does at any time and whatever faults are drawn: a client that segments its request, answers the First Frame with Flow Control and reassembles gets exactly what the fault of the one step that dispatched the request leaves of the handler's answer on the store of that step (all of it without a fault), once, and that step leaves the store as the direct call does |
| DeviceConversation.Completable | simulator/device.py:249-347 | no schedule wedges a conversation: from whatever point of it, with the worker alive and values that fit, further steps bring it to its end |
| DeviceConversation.WriteThenRead | simulator/protocol/service77.py:149-172 | on any run with a write conversation (UDS, any value and a DID that is not protected; Service 77, any DID, 1 to 15 bytes behind a length code 0x8n or 0xBn, or a value from below 0x80 on without one) and a UDS read conversation on it, interleaved in any way with each other and with other traffic: if no write to the DID is accepted between the two dispatches, the reader gets the written value, or what the fault of one step of its conversation leaves of it |
| DeviceConversation.RawWriteIff | simulator/protocol/service77.py:154-160 | without a length code the value is stored intact if and only if its first byte is below 0x80 |
| DeviceConversation.CodedWriteIff | simulator/protocol/service77.py:154-160 | with a documented length code the value is stored intact if and only if it has at most 15 bytes; the length bytes of a longer one are stored in front of it |
| DeviceConversation.SixteenBytesStoredWrong | simulator/protocol/service77.py:154-160 | the shortest such value: 16 bytes are stored as 17 |
| Collect.SegmentCollect | simulator/protocol/collect.py:94-161 | the loop with its wrapping counter yields the closed form, and byte by byte the layout below, for 1 to 255 bytes and raises for every other length |
| Collect.FrameBytes | simulator/protocol/collect.py:94-161 | the result is exactly the frames numbered from 0x21 modulo 16 that carry DID, length code and payload, seven bytes each, and 0x55 behind them in the last one |
| Collect.LengthBytes | simulator/protocol/collect.py:117-137 | byte 3 is 0xB0 plus the length up to 15 bytes and 0xB0 above; above, byte 4 is 0xC1 if and only if the length is 0xB5 or 0xC1 and never 0xB5, and the length stands in byte 5 then and in byte 4 otherwise |
| Collect.CollectRoundTrip | simulator/protocol/collect.py:94-161 | the documented decoder recovers the DID modulo 65536 and the payload and is ready for the next message |
| Collect.FirstHeader | docs/protocols.md:289-309 | DID, length code, 0xC1 escape and payload start of every first frame read back correctly |
| Collect.SelfDelimiting | docs/protocols.md:382-395 | any concatenation of messages decodes to exactly that list, although continuation frames carry 0x21 again after a wrap |
| CollectLoss.GatherExact | docs/protocols.md:382-395 | what any list of frames whatever does to a message being gathered: completed if and only if enough follow in sequence, discarded at an earlier mismatch, which is looked at as a start, still open otherwise |
| CollectLoss.MixtureExact | docs/protocols.md:382-395 | behind the first frame of a message of up to 15 continuation frames, continuation frames of any messages complete it if and only if every needed one is at its place; the payload is then made of their data |
| CollectLoss.AnyLossExact | docs/protocols.md:382-395 | whatever frames of messages of up to 15 continuation frames are lost, first frames too: exactly what a listener decodes |
| CollectLoss.BurstExact | docs/protocols.md:382-395 | one burst of loss over the first frame of the next message goes unnoticed if and only if it cuts both messages at the same frame and enough frames follow; the exact splice |
| CollectLoss.LostFirstSplices | docs/protocols.md:382-395 | so with a first frame lost any two messages of the same length can be spliced at any frame |
| CollectLoss.LossyBroadcasts | docs/protocols.md:382-395 | as long as every first frame arrives: of messages of up to 15 continuation frames, any of which may be lost, a listener decodes exactly those that survive whole, in order |
| CollectLoss.SixteenSplice | simulator/protocol/collect.py:139-161 | the bound is sharp: with 16 continuation frames the loss of the last one makes the first frame of the next message pass for it |
| Bus.CANBus.Send | simulator/bus.py:153-165 | a frame goes to the end of the queue |
| Bus.CANBus.SendWithRetry | simulator/bus.py:173-209 | the frame is written exactly once if a write is accepted after transient failures only, and never otherwise; at most 6 attempts, with 0, 2, 6, 14, 30 or 62 ms of backoff before the last |
| Bus.GoesOutIff | simulator/bus.py:173-209 | that is: the first of six answers that is not a transient failure exists and is success |
| Bus.CANBus.TxTurn | simulator/bus.py:167-171 | one turn of the loop writes or drops the oldest frame before any other |
| Broadcast.CyclicTask.Send | simulator/cyclic.py:143-163 | all frames of one firing are enqueued together and in order; no value and an unsegmentable payload send nothing |
| Broadcast.WireKeepsOrder | simulator/bus.py:167-209 | for every schedule and every answer of the interface the queue is the rest of what was enqueued and the wire an in-order subsequence of what was taken from it |
| Broadcast.QueueDrains | simulator/bus.py:167-209 | each turn of the loop takes one frame off the queue whatever the interface answers, so a refused frame blocks none behind it |
| Broadcast.BroadcastEndToEnd | simulator/cyclic.py:143-163 | with nothing dropped, a dedicated cyclic ID decodes to a prefix of the fired messages at any time and to all of them once the queue is empty |
| BroadcastLoss.LossyEndToEnd | simulator/bus.py:167-209 | on any schedule and for any answers of the interface, if it drops no first frame on a dedicated cyclic ID and the messages there have at most 15 continuation frames, a listener decodes exactly the messages all of whose frames went out, in firing order |
| DoipLenient.Reassemble | simulator/device.py:216-233 | the second reassembler returns the concatenated data cut at the announced length |
| Doip.HandleUdsPayload | simulator/device.py:171-233 | reply, exception and new store of a request that came over DoIP |
| DoipLenient.LenientAgrees | simulator/device.py:216-233 | wherever the strict assembler delivers, the lenient one returns the same bytes |
| DoipLenient.LenientIdentity | simulator/device.py:209-233 | without faults DoIP hands responses of 1 to 4095 bytes through unchanged |
| DoipLenient.LenientExact | simulator/device.py:205-233 | for every fault, random draw and response of 1 to 4095 bytes, the exact payload a DoIP client is handed: spliced for dropped and duplicated frames, read as a Single Frame for a truncated list |
| DoipLenient.LenientUnharmedIff | simulator/device.py:205-233 | for every fault, exactly when that payload is the response itself |
| DoipLenient.LenientOverlooks | simulator/device.py:226-233 | wherever a CAN client is delivered something the DoIP client gets the same; WRONG_SEQ, and WRONG_LEN when the data fill the last frame, yield the original over DoIP while a CAN client gets nothing |
| Doip.HandleUdsIsHandler | simulator/device.py:193-214 | fault-free, the reply over DoIP is the handler's answer, or an exception above 4095 bytes |
| Doip.PrintedHeader | simulator/doip.py:106-114 | the header byte by byte: version, inverse, payload type and length, high byte first |
| Doip.ParsePrint | simulator/doip.py:106-114 | any concatenation of printed frames, followed by an incomplete one, parses back to exactly those frames |
| Doip.DoIPServer.Session | simulator/doip.py:238-328 | the byte loop outputs, for any input bytes, exactly the printed frames of the session machine, including bad-sync frames drained by their length |
| Doip.DoIPServer.HandleFrame | simulator/doip.py:259-328 | one frame: silence on bad sync, activation, NACK for an unknown target, otherwise the dispatch below; activation flag, devices and end of session as in the machine |
| Doip.DoIPServer.Dispatch | simulator/doip.py:308-322 | the ACK goes out before the device is asked, its reply follows if there is one, and an exception ends the session behind the ACK |
| Doip.BytesRefineFrames | simulator/doip.py:238-328 | the output bytes of a session parse back to exactly the machine's frames |
| Doip.SessionConforms | simulator/doip.py:259-328 | over any frames and faults the server frames are exactly these: an activation accepted with the client's address echoed; nothing diagnostic before it; one ACK per well-formed diagnostic message, code 3 exactly for an unknown target; from a known target then the handler's answer as the faulted, lenient reassembly leaves it; addresses exchanged; silence for everything else; an end only behind the ACK for an answer over 4095 bytes |
| Doip.AllServedIff | simulator/doip.py:288-328 | a session gives every message its ACK and its response if and only if no message reads a value that has over 4092 bytes by then |
| Doip.NeverCutIff | simulator/doip.py:308-322 | no session whatever is cut short if and only if on every device that a client can address each DID it can name is protected and holds at most 4092 bytes: over DoIP values of any length can be written |
| Doip.SilentUntilActivated | simulator/doip.py:279-282 | without a routing activation a session answers nothing |
| Doip.DamagedAnswer | simulator/doip.py:288-322 | a request to a known device, under any fault and in literal bytes: the ACK and then what the fault and the lenient reassembly leave of the handler's answer, whole where the fault cannot strike; the end behind the ACK for an answer over 4095 bytes |
| Doip.FaultFreeAnswer | simulator/doip.py:288-322 | a request to a known device gets an ACK and the handler's answer, or an ACK and the end of the session when the answer exceeds 4095 bytes |

## Left out

- CAN frames of fewer than eight bytes: the docstring of `feed` asks for exactly eight, and the branch for empty data cannot be reached with them.
- The empty payload of `segment`: its Single Frame has length 0, which the assembler ignores, and no handler answers with it.
- Opening sockets, python-can, threads, task cancellation and logging: I/O and library behaviour.
- Real time: sleeps, the one-second timeout and the schedule intervals are nondeterministic steps; only the sum of the retry backoff is kept.
- The probability with which faults are drawn: every draw in range is considered.
- Exceptions swallowed in `_apply`: the faults are proved total on every non-empty list of frames instead.
- Resolvers of the store: nothing registers one.
- Parsing of datapoint files, device configuration, command line and addresses, encoders and energy meters: an initial store and encoded payloads are given.
- Flow status, block size and separation time of Flow Control: the code does not look at them.
- Loss of start frames below the workers: the run theorems speak of the frames as enqueued, or with frames other than start frames lost; what a receiver makes of a stream without a start frame is in `IsoTpLoss.dfy`.
- A lone First Frame over DoIP, which the code reads as a Single Frame: excluded from `LenientAgrees`, since a strict assembler delivers nothing there; `LenientExact` gives what comes of it.
- DeviceConversation.ClosedLoop: a client that gives up is not a conversation in this sense; what happens then is in `ResponsesStayWhole` and `DeviceFlow.dfy`.
- DeviceObject.SimulatedDevice.Run: the frames put on the bus are a field of the device; sharing one `CANBus` object between devices is modelled in `Broadcast.dfy` only.
- Doip.DoIPServer.Session: the input is a finished byte sequence and the devices are values in a map, so other connections and CAN workers do not touch them meanwhile.
- BroadcastLoss.LossyEndToEnd: runs in which the interface drops a first frame, or with longer messages, are not followed to the listener; what comes of a lost first frame is in `CollectLoss.AnyLossExact`.
