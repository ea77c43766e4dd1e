# Kavach-NPU: verified model of the detection and enforcement core

Kavach-NPU is an endpoint-protection daemon written in Rust. An unprivileged
detector watches file writes, network flows and WSL2 guests, scores INT8 feature
tensors, and sends verdicts to a small privileged broker that suspends or kills
processes. This project models the parts of it that carry state, arithmetic or a
wire format, and proves what they promise over every input and every run.

`dafny verify dfyconfig.toml` checks the whole project.

## What is modelled

| file | system part |
|---|---|
| `ClockSync.dfy` | the challenge/response clock synchronizer, as an object whose ghost history explains its fields |
| `WslPath.dfy`, `Correlator.dfy` | `/mnt/<drive>` paths and the join of guest records with host file events |
| `GuestRecord.dfy`, `GuestWire.dfy` | guest write records and their length-prefixed frames |
| `VerdictWire.dfy` | verdicts and their 139-byte wire form |
| `Broker.dfy`, `PipeBroker.dfy` | the enforcement broker, its replay cache, and the two entry points that share it |
| `Base64.dfy` | the manifest's Base64 decoder and encoder |
| `Protobuf.dfy` | the protobuf writer behind the generated ONNX models, with a reader to judge it |
| `Entropy.dfy`, `SlidingWindow.dfy` | block-entropy statistics and the write-burst tracker |
| `Beacon.dfy`, `BeaconJitter.dfy` | the 32-packet flow window, the beacon rhythm test, and how much jitter it tolerates |
| `Quantization.dfy` | INT8 quantization, tensor packing and the three CPU head scorers |
| `TripwireHead.dfy` | the tracker's tensor through the quantizer to the head 1 score |
| `MachineInts.dfy`, `Wrappers.dfy`, `Sequences.dfy`, `BigEndian.dfy`, `Statistics.dfy` | shared definitions and lemmas |

Main results, in the system's terms:

- A High attribution is a statement about true time. With challenge answers from one
  guest clock at a fixed unknown offset, the single matching host event lies within the
  window plus the estimate's uncertainty plus one nanosecond of the real write, and
  within 300 ms whatever the uncertainty (`Correlator.HighMeans`); 300 ms is attained
  (`Correlator.HighAttained`), and so is the one nanosecond, which comes from the
  floored midpoints (`ClockSync.ErrorBoundAttained`). Records stamped by a second guest
  clock add exactly its difference. A well separated event is always rated High
  (`Correlator.HighGuaranteed`). The 50 ms gate never refuses an honest guest exactly
  while the held round trips are at most 50 ms + 1 ns (`ClockSync.HonestGateExactly`).
- The broker forgets safely. Its answers equal those of a broker that never forgets
  exactly when no purged nonce returns in time (`Broker.AgreementExactly`); with one
  expiry per request that is guaranteed for clock regressions up to 60 000 ms and for
  none larger (`Broker.PurgeUnobservableExactly`). For any two deadlines and any clock
  regression, a request id is never accepted twice exactly when the second deadline lies
  the regression before the end of the first one's retention
  (`Broker.NeverTwiceExactly`). While the clock falls back at most
  60 s and the deadline's retention does not wrap, no frame is enforced twice through
  either entry point, whatever its bytes (`PipeBroker.FrameEnforcedOnce`).
- Both wire formats are canonical: bytes are accepted exactly when they are the
  encoding of a valid value (`VerdictWire.WireCanonical`, `GuestWire.FrameCanonical`).
- Base64 round trips hold for every input, against definitions written from RFC 4648,
  and it is said exactly which texts carry the same bytes and which are encodings
  (`Base64.SameBytesExactly`, `Base64.ReencodesExactly`). A protobuf field tree is read
  back exactly when it fits its schema (`Protobuf.RoundTripExactly`), by a reader
  written from the Protocol Buffers encoding specification.
- All alternating files with two high blocks and lows up to a given bound are flagged
  exactly when the squared distance from that bound to 7.95 bits is at least 4.5, so
  for lows up to about 5.83 bits (`Entropy.AlternatingFlaggedExactly`). Longer files
  need less gap, and how much is known for each length (`Entropy.AlternatingByLength`).
- A beacon with any gaps between two bounds and at most six large payloads is flagged
  exactly when the lower bound is at least 500 ms and no split of the 31 gaps between
  the two bounds varies too much (`BeaconJitter.SteadyExactly`). Around any sleep
  that is a jitter of at most about 17.24 percent that keeps all gaps at 500 ms or more
  (`BeaconJitter.SleepExactly`). Every flagged window is strictly ordered.
- Whatever the clock does, the tracker holds a recorded event exactly while it meets
  every cutoff since its recording (`SlidingWindow.HeldExactly`).
- The ten slots of the tensor hold every event of the window exactly once, but not the
  events stamped with the evaluation time (`SlidingWindow.SlotsPartitionEvents`,
  `SlidingWindow.NewestLeavesNoTrace`).
- What is recommended, flagged and attributed is also stated without the model's own
  functions, from index sets and literal limits: `SlidingWindow.SuspensionExactly`,
  `Entropy.AnomalyExactly`, `Beacon.FlaggedExactly`, `Correlator.ClassifyAnswers`,
  `Broker.EvaluateExactly`.
- The CPU scorers equal the reference graph, and quantization moves a score by at
  most 1/254.

## Decisions

- Machine integers are mathematical integers in range. Casts and unchecked
  operations wrap as a release build does (`WrapU64`, `WrapI64`); a debug build
  panics there instead. Theorems that need a value not to wrap say so.
- Statistics, scores and quantization are in exact real arithmetic. The library
  square root is a parameter with its two defining properties.
- Clocks are parameters. A mutex-protected call is one step of a run.
- A Rust string is its UTF-8 bytes; validity is the grammar of RFC 3629, section 4.
- Fields a class mutates stay fields. Ghost fields hold the whole history (exchanges,
  host events, packets, written fields, tracker operations), and `Valid()` ties the real
  fields to it.
- The guest stamps records and challenge answers from two separate `Instant` origins
  (`audit_source.rs:21`, `main.rs:112`); their difference is a parameter of the theorems
  on High.
- Loops that one long Rust function runs in sequence are separate small methods here
  (`Entropy.Accumulate`, `Base64.EncodeGroup`, `SlidingWindow.WriteBurstTracker.Tally`).

Where code and documentation differ, the code is modelled:

- Clock uncertainty takes half the offset spread (`clock_sync.rs:138`); ADR 005 says
  the whole spread.
- Several matching host events give Medium (`correlator.rs:140`); ADR 005 says low.
  The match ignores operation, distribution id and `is_vmmem_process`.
- A verdict is still accepted at its deadline (`broker.rs:73`); `lib.rs:59` calls the
  deadline exclusive.
- Only accepted request ids enter the replay cache (`broker.rs:117`); `lib.rs:94`
  says accepted or rejected.
- Sleeps with 20 percent of jitter are advertised (`detector.rs:21`, Kavach-NPU's
  `README.md:81`), but some windows within 20 percent vary too much to be flagged
  (`BeaconJitter.TwentyPercentEscapes`).

Properties that turned out to be conditional, each with a concrete failing input and
the exact condition:

- a deadline in the last minute of the 64-bit range wraps its retention and is accepted
  twice (`Broker.WrappedRetentionForgets`); with a clock that falls back at most 60 s
  a verdict is accepted once exactly when it does not wrap (`Broker.VerdictOnceExactly`);
- a backslash in a Linux file name makes two guest files share a Windows path
  (`WslPath.BackslashCollides`, condition in `WslPath.TranslationCollisions`);
- eviction from the 1000-entry buffer can raise Medium to High
  (`Correlator.EvictionCanRaiseConfidence`; conditions in `Correlator.EvictionExactly`
  and, from the retained timestamps, `Correlator.EvictionByTimestamps`);
- the newest write of an evaluation is missing from the tensor once the clock has passed
  the first window (`SlidingWindow.EventAtNowInSlotExactly`);
- lows above about 5.83 bits let an alternating file escape (`Entropy.ShallowNotFlagged`,
  condition in `Entropy.AlternatingFlaggedExactly`, by length in
  `Entropy.AlternatingByLength`);
- jitter above about 17.24 percent lets a beacon escape
  (`BeaconJitter.TwentyPercentEscapes`, condition in `BeaconJitter.SleepExactly`);
- at scale zero only the code 0 survives dequantizing and quantizing
  (`Quantization.QuantizeOfDequantize`).

## Model

| member | source | states |
|---|---|---|
| `ClockSync.ClockSynchronizer.ProcessResponse` | crates/kavach-wsl/src/clock_sync.rs:70-150 | appends the exchange to the history and keeps samples, estimate and failure count equal to what the history means; accepted exactly when nonce, order and RTT checks pass, with the right error otherwise |
| `ClockSync.ClockSynchronizer.AcceptSample` | crates/kavach-wsl/src/clock_sync.rs:106-149 | the accepting half: bounded push, failure count reset, new estimate stored and returned |
| `ClockSync.ClockSynchronizer.EstimateFromSamples` | crates/kavach-wsl/src/clock_sync.rs:117-146 | the estimate of the held samples |
| `ClockSync.ClockSynchronizer.GetValidEstimate` | crates/kavach-wsl/src/clock_sync.rs:153-165 | returns the usable estimate of the history at that time, or nothing |
| `ClockSync.BufferedIsLastFive` | crates/kavach-wsl/src/clock_sync.rs:106-114 | after any history the held samples are the last five accepted |
| `ClockSync.FirstMinRttCorrect` | crates/kavach-wsl/src/clock_sync.rs:118-122 | the best sample is the earliest of the lowest round trips |
| `ClockSync.LastAcceptance` | crates/kavach-wsl/src/clock_sync.rs:76-115 | the failure count is the number of rejections since the last acceptance, whose sample is the newest held |
| `ClockSync.AcceptedStep` | crates/kavach-wsl/src/clock_sync.rs:76-115 | an exchange joins the accepted samples exactly when its nonces agree, it takes positive time up to 100 ms and the guest stamps are in order |
| `ClockSync.EstimateExactly` | crates/kavach-wsl/src/clock_sync.rs:117-146 | the estimate part by part: offset of the earliest lowest RTT among the last five, half that RTT plus half the distance of the extreme offsets, arrival and 90 s of validity |
| `ClockSync.AvailabilityExactly` | crates/kavach-wsl/src/clock_sync.rs:153-165 | after any history a usable estimate exists exactly when an exchange was accepted at most 90 s ago (the unchecked u64 sum included), fewer than three were rejected since and the uncertainty is at most 50 ms; its offset is that of the earliest lowest-RTT sample |
| `ClockSync.HonestSample` | crates/kavach-wsl/src/clock_sync.rs:90-104 | an honest sample's offset is at most half the RTT above the true offset and at most half the RTT rounded up below it |
| `ClockSync.OffsetAsymmetry` | crates/kavach-wsl/src/clock_sync.rs:100-104 | the error of an honest sample is half the difference of the way back and the way there, to half a nanosecond, for any two guest stamps |
| `ClockSync.OffsetModulo` | crates/kavach-wsl/src/clock_sync.rs:100-104 | the offset of any accepted exchange is the difference of the midpoints as an i64 |
| `ClockSync.EstimateErrorBound` | crates/kavach-wsl/src/clock_sync.rs:117-146 | in every honest run the stored estimate is within its own uncertainty, plus one nanosecond downwards, of the true offset |
| `ClockSync.OffsetErrorBound` | crates/kavach-wsl/src/clock_sync.rs:90-146 | in every honest run the stored offset is within 50 ms, half the longest accepted RTT, of the true one |
| `ClockSync.OffsetErrorAttained` | crates/kavach-wsl/src/clock_sync.rs:90-104 | for every true offset an honest exchange is off by 50 ms upwards and another one downwards |
| `ClockSync.ErrorBoundAttained` | crates/kavach-wsl/src/clock_sync.rs:100-104 | every odd RTT and every offset have an honest exchange that attains uncertainty + 1 |
| `ClockSync.HonestUncertainty` | crates/kavach-wsl/src/clock_sync.rs:117-138 | the uncertainty of an honest run never exceeds the longest RTT held |
| `ClockSync.HonestGateExactly` | crates/kavach-wsl/src/clock_sync.rs:158-160 | honest guests always pass the 50 ms gate exactly while held RTTs are at most 50 ms + 1 ns |
| `ClockSync.GateFailure` | crates/kavach-wsl/src/clock_sync.rs:138 | for every id and nonce, two honest exchanges one after the other, just above that limit, that the gate refuses |
| `WslPath.IsNormalizedMntPath` | crates/kavach-wsl/src/wire.rs:110-138 | accepts exactly the paths under /mnt/ with no empty, `.` or `..` component other than a trailing slash |
| `WslPath.NormalizedExactly` | crates/kavach-wsl/src/wire.rs:110-138 | the accepted paths by their bytes: under /mnt/, no piece behind a slash that is `.` or `..`, an empty one only at the end |
| `WslPath.SplitJoin` | crates/kavach-wsl/src/wire.rs:121 | splitting at slashes loses nothing and leaves no slash in a component |
| `WslPath.TranslateShape` | crates/kavach-wsl/src/correlator.rs:44-66 | translation succeeds exactly for a one-byte drive, and what it then yields |
| `WslPath.TranslateExactly` | crates/kavach-wsl/src/correlator.rs:44-66 | which paths translate and every byte of the translation |
| `WslPath.EqIgnoreCaseExactly` | crates/kavach-wsl/src/correlator.rs:125-127 | equal but for the case of ASCII letters |
| `WslPath.TranslationCollisions` | crates/kavach-wsl/src/correlator.rs:44-66 | two paths translate to the same Windows path ignoring case exactly when they agree ignoring case with backslashes read as slashes and the drive root given its slash |
| `WslPath.TranslationInjective` | crates/kavach-wsl/src/correlator.rs:44-66 | for backslash-free paths: exactly when they agree ignoring case, drive roots aside |
| `WslPath.BackslashCollides` | crates/kavach-wsl/src/correlator.rs:62 | two different normalized paths with one translation |
| `WslPath.TranslatedComponents` | crates/kavach-wsl/src/correlator.rs:56-65 | a backslash-free normalized path translates to the drive followed by its own components, with no `/`, `.` or `..` |
| `Correlator.WslCorrelator.constructor` | crates/kavach-wsl/src/correlator.rs:79-86 | empty logs and a window capped at 250 ms |
| `Correlator.WslCorrelator.RecordHostEvent` | crates/kavach-wsl/src/correlator.rs:94-99 | the buffer stays the last 1000 events of the log |
| `Correlator.WslCorrelator.Judge` | crates/kavach-wsl/src/correlator.rs:110-150 | confidence and delta of the record against the buffered events under the usable estimate |
| `Correlator.WslCorrelator.CorrelateGuestRecord` | crates/kavach-wsl/src/correlator.rs:102-170 | the attribution of a record: Low and 0 without a usable estimate or a match, High at one match and Medium at more, the delta the distance of the earliest match in whole milliseconds, enforcement exactly at High, and the record logged |
| `Correlator.ClassifyAnswers` | crates/kavach-wsl/src/correlator.rs:110-150 | the same from the buffered events alone, for every history, window and record |
| `Correlator.SingleMatch` | crates/kavach-wsl/src/correlator.rs:122-138 | one match is counted exactly when one buffered event alone has the path inside the window |
| `Correlator.HighMeans` | crates/kavach-wsl/src/correlator.rs:113-152 | what High implies about the true time of the write, for every honest history, every buffer and every difference between the guest's two clocks: within window + uncertainty + 1 ns, and within window + 50 ms, plus that difference |
| `Correlator.HighAttained` | crates/kavach-wsl/src/correlator.rs:113-152 | for every window, record and clock difference an honest exchange and one event give High at exactly window + 50 ms plus the difference |
| `Correlator.HighGuaranteed` | crates/kavach-wsl/src/correlator.rs:113-152 | a separated event near the true time yields High, the margins widened by the difference of the guest clocks |
| `Correlator.EvictionInvisible` | crates/kavach-wsl/src/correlator.rs:94-144 | with ordered host times and the window inside what is retained, the bounded buffer gives the unbounded log's confidence and delta |
| `Correlator.EvictionExactly` | crates/kavach-wsl/src/correlator.rs:94-144 | for any log, eviction leaves the confidence alone exactly when no evicted event matches or two retained ones do, and leaves confidence and delta alone exactly when no evicted event matches or two retained ones do and the first of them is as many milliseconds away as the first evicted match |
| `Correlator.EvictionByTimestamps` | crates/kavach-wsl/src/correlator.rs:94-144 | a full ordered buffer keeps the confidence of every ordered log it can be the end of exactly when its oldest event is before the window or two of its events match |
| `Correlator.EvictionCanRaiseConfidence` | crates/kavach-wsl/src/correlator.rs:94-144 | a log where eviction turns Medium into High |
| `GuestWire.ToFrame` | crates/kavach-wsl/src/wire.rs:142-192 | serializes exactly the records with a normalized path of at most 4096 bytes, to the documented layout, and its two errors |
| `GuestWire.DecodeOfEncode` | crates/kavach-wsl/src/wire.rs:195-369 | a record's frame decodes back to it exactly when major is 1, the sequence is positive and flags are zero |
| `GuestWire.EncodeOfDecode` | crates/kavach-wsl/src/wire.rs:195-369 | every frame that decodes re-encodes to the same bytes |
| `GuestWire.FrameCanonical` | crates/kavach-wsl/src/wire.rs:142-369 | frames and receivable records determine each other |
| `GuestWire.FramesPrefixFree` | crates/kavach-wsl/src/wire.rs:195-215 | no accepted frame is a proper prefix of another |
| `GuestWire.OperationCode` | crates/kavach-wsl/src/wire.rs:183 | the operation is byte 132 of a frame: 1 write, 2 rename, 3 delete |
| `GuestWire.PayloadRefusals` | crates/kavach-wsl/src/wire.rs:217-352 | which payloads are refused, why, and in what order |
| `GuestWire.FrameRefusals` | crates/kavach-wsl/src/wire.rs:195-215 | the refusals of whole frames by length and length prefix |
| `GuestRecord.ValidUtf8Exactly` | crates/kavach-wsl/src/wire.rs:345-346 | the valid strings are exactly the encodings of sequences of Unicode scalar values |
| `VerdictWire.ToWire` | crates/kavach-core/src/wire.rs:91-110 | fills a fresh 139-byte array with the documented layout |
| `VerdictWire.DecodeOfEncode` | crates/kavach-core/src/wire.rs:113-211 | a valid verdict decodes back from its bytes |
| `VerdictWire.EncodeOfDecode` | crates/kavach-core/src/wire.rs:113-211 | accepted bytes are the encoding of the valid verdict they decode to |
| `VerdictWire.EncodeInjective` | crates/kavach-core/src/wire.rs:91-110 | distinct verdicts have distinct bytes |
| `VerdictWire.WireCanonical` | crates/kavach-core/src/wire.rs:91-211 | bytes decode to a verdict exactly when the verdict is valid and they are its encoding |
| `VerdictWire.EncodeLayout` | crates/kavach-core/src/wire.rs:91-110 | where every field of a verdict stands, and the action codes 0 alert, 1 suspension, 2 kill |
| `VerdictWire.RefusalsExactly` | crates/kavach-core/src/wire.rs:113-211 | which slices are refused, why, and in what order |
| `BigEndian.BytesOf64` | crates/kavach-core/src/wire.rs:97-98 | eight bytes, the most significant first |
| `Broker.Evaluate` | crates/kavach-firewall/src/broker.rs:57-134 | accepted exactly when in time, unseen and authorized; when each of the replay, expiry and version errors is given; which action an acceptance is, with the verdict's own process and digest; a termination only with the opt-in and the evidence minimum |
| `Broker.EvaluateExactly` | crates/kavach-firewall/src/broker.rs:57-134 | each of the five refusals and each action exactly, from the fields the gates look at |
| `Broker.EnforcementBroker.PurgeExpiredReplayCache` | crates/kavach-firewall/src/broker.rs:137-140 | keeps exactly the nonces whose retention has not passed |
| `Broker.EnforcementBroker.EvaluateAndEnforce` | crates/kavach-firewall/src/broker.rs:57-134 | the answer and the new cache of one evaluation |
| `Broker.CacheTracksAcceptances` | crates/kavach-firewall/src/broker.rs:77-140 | while the brokers agree the cache holds exactly the accepted nonces no sweep has outlived |
| `Broker.AgreementExactly` | crates/kavach-firewall/src/broker.rs:57-140 | a run is answered as by a never-forgetting broker exactly when no purged nonce is presented again in time |
| `Broker.PurgeUnobservableExactly` | crates/kavach-firewall/src/broker.rs:57-140 | with one expiry per request this holds for all clocks regressing at most d exactly when d is at most 60 000 ms (or the model is degraded) |
| `Broker.LargeRegressForgets` | crates/kavach-firewall/src/broker.rs:137-140 | three in-time submissions of two requests, with a regression of 60 001 ms, on which the answers differ |
| `Broker.WrappedRetentionForgets` | crates/kavach-firewall/src/broker.rs:117 | every deadline within 60 s of the u64 end is accepted twice in a row |
| `Broker.NoSecondAcceptance` | crates/kavach-firewall/src/broker.rs:72-118 | an accepted request id is not accepted again, and in time is a replay, while the second deadline plus the clock's regression is at most the first retention |
| `Broker.NeverTwiceExactly` | crates/kavach-firewall/src/broker.rs:57-140 | for any two deadlines and any regression no run accepts an id under the first and then the second exactly when the second plus the regression is at most the retention of the first, or that is the last u64 |
| `Broker.SecondAcceptance` | crates/kavach-firewall/src/broker.rs:57-140 | the run that accepts twice in every other case |
| `Broker.VerdictOnceExactly` | crates/kavach-firewall/src/broker.rs:57-140 | under regressions of at most 60 s no run accepts a verdict twice exactly when its deadline's retention does not wrap |
| `PipeBroker.PipeBrokerServer.HandleFrame` | crates/kavach-sensors/src/pipe_broker.rs:111-118 | decodes, maps wire errors, and otherwise steps the shared broker |
| `PipeBroker.PipeVerdictDispatcher.Dispatch` | crates/kavach-sensors/src/pipe_broker.rs:37-45 | the in-memory branch steps the same broker |
| `PipeBroker.RefusedFrame` | crates/kavach-core/src/wire.rs:75-87 | a frame of the right size with another major version is a version mismatch, every other refused frame malformed |
| `PipeBroker.VerdictEnforcedOnce` | crates/kavach-sensors/src/pipe_broker.rs:37-118 | no verdict is enforced twice in any interleaving of frames and in-memory calls, while the clock falls back at most 60 s and the retention of its deadline does not wrap |
| `PipeBroker.FrameEnforcedOnce` | crates/kavach-sensors/src/pipe_broker.rs:111-118 | under the same two conditions no frame of any bytes is enforced twice, nor a frame and the verdict it carries |
| `Base64.DecodeBase64` | crates/kavach-core/src/manifest.rs:102-127 | computes the base-64-to-base-256 conversion of the trimmed, unpadded text although the u32 accumulator overflows, or the first invalid character |
| `Base64.DecodeByPayload` | crates/kavach-core/src/manifest.rs:102-127 | which texts are accepted, that the bytes depend on the sextets alone, and that there are floor(3k/4) of them |
| `Base64.SextetsByChar` | crates/kavach-core/src/manifest.rs:109-117 | the characters of a sextet: its letter, and `-` and `_` for the last two |
| `Base64.CharCodes` | crates/kavach-core/src/manifest.rs:130-158 | the letters as ASCII codes |
| `Base64.TolerableExactly` | crates/kavach-core/src/manifest.rs:103-117 | besides sextets exactly LF, CR, space and `=` are accepted inside |
| `Base64.TrimExactly` | crates/kavach-core/src/manifest.rs:103 | white space is cut at both ends and nothing else |
| `Base64.WhitespaceExactly` | crates/kavach-core/src/manifest.rs:103 | the 25 characters that count as white space |
| `Base64.BytesOfGroup` | crates/kavach-core/src/manifest.rs:108-126 | bit for bit, the bytes of two, three and four sextets |
| `Base64.SameBytesExactly` | crates/kavach-core/src/manifest.rs:102-127 | two accepted texts carry the same bytes exactly when they have equally many whole bytes and equal values without the leftover bits |
| `Base64.ReencodesExactly` | crates/kavach-core/src/manifest.rs:102-160 | a text is the encoding of what it decodes to exactly when it has standard characters, no lone sextet, zero leftover bits, full padding and nothing else |
| `Base64.EncodeBase64` | crates/kavach-core/src/manifest.rs:130-160 | computes the padded base-64 digits of the bytes read as one number |
| `Base64.EncodeGroup` | crates/kavach-core/src/manifest.rs:133-158 | the four characters of one group of one to three bytes |
| `Base64.EncodingOfThree` | crates/kavach-core/src/manifest.rs:133-158 | bit for bit, the four characters of three bytes |
| `Base64.EncodingOfTwo` | crates/kavach-core/src/manifest.rs:133-158 | the same for two bytes at the end, with one `=` |
| `Base64.EncodingOfOne` | crates/kavach-core/src/manifest.rs:133-158 | the same for one byte, with two; no bytes give no characters |
| `Base64.RoundTrip` | crates/kavach-core/src/manifest.rs:102-160 | decoding an encoding gives back every byte sequence |
| `Protobuf.ProtoWriter.WriteVarint` | crates/kavach-core/src/npu_backend.rs:157-163 | appends the base-128 varint |
| `Protobuf.ProtoWriter.WriteTag` | crates/kavach-core/src/npu_backend.rs:165-167 | appends the tag varint for every field number and every u8 wire type |
| `Protobuf.TagExactly` | crates/kavach-core/src/npu_backend.rs:165-167 | what field number and wire type a reader finds in a tag, and that they are the ones written exactly for wire types below 8 |
| `Protobuf.BitOrExactly` | crates/kavach-core/src/npu_backend.rs:165-167 | the bitwise or of a tag, bit by bit |
| `Protobuf.VarintExactly` | crates/kavach-core/src/npu_backend.rs:157-163 | a varint is its number in base 128, lowest digit first, no leading zero, the top bit set on all bytes but the last |
| `Protobuf.FieldBytes` | crates/kavach-core/src/npu_backend.rs:169-184 | the bytes of each kind of field: wire type 0 with two's complement, wire type 2 with a length |
| `Protobuf.ProtoWriter.WriteInt64` | crates/kavach-core/src/npu_backend.rs:169-172 | the bytes stay the encoding of the field list, one integer field longer |
| `Protobuf.ProtoWriter.WriteString` | crates/kavach-core/src/npu_backend.rs:174-178 | the same for a string or raw bytes |
| `Protobuf.ProtoWriter.WriteMessage` | tools/kavach-pack/src/onnx_builder.rs:39-43 | the same for a nested message |
| `Protobuf.VarintRoundTrip` | crates/kavach-core/src/npu_backend.rs:157-163 | a varint takes one to ten bytes and is read back whatever follows |
| `Protobuf.VarintPrefixFree` | crates/kavach-core/src/npu_backend.rs:157-163 | no varint is a proper prefix of another |
| `Protobuf.NegativeTakesTen` | tools/kavach-pack/src/onnx_builder.rs:28-31 | negative integers take ten bytes |
| `Protobuf.RoundTrip` | tools/kavach-pack/src/onnx_builder.rs:11-44 | every tree of fields that fits its schema is read back as exactly that tree |
| `Protobuf.ReadConforms` | tools/kavach-pack/src/onnx_builder.rs:11-44 | whatever bytes are read give a tree that fits the schema and that the writer spells in no more bytes |
| `Protobuf.RoundTripExactly` | tools/kavach-pack/src/onnx_builder.rs:11-44 | a tree is read back from its bytes exactly when it fits the schema, field numbers from 1 to 2^29 - 1 included |
| `Entropy.DifferentialEntropy` | crates/kavach-tripwire/src/entropy.rs:73-158 | computes the summary of the blocks |
| `Entropy.Accumulate` | crates/kavach-tripwire/src/entropy.rs:93-104 | sum, extremes and high count |
| `Entropy.SquaredDeviations` | crates/kavach-tripwire/src/entropy.rs:109-113 | squared deviations from the mean |
| `Entropy.CountTransitions` | crates/kavach-tripwire/src/entropy.rs:119-130 | jumps of at least 2 bits beside a suspicious block |
| `Entropy.AnomalyExactly` | crates/kavach-tripwire/src/entropy.rs:118-146 | anomalous exactly with 70 percent of high blocks, or two, a variance of at least 1 and 8 k / (n - 1) + variance at least 5.6, with k jumps of 2 bits beside a block of 7.5 |
| `Entropy.ScoreExactly` | crates/kavach-tripwire/src/entropy.rs:118-142 | the score is a sixteenth of that sum, at most 1, and zero without a high block or below variance 1 |
| `Entropy.SummaryShares` | crates/kavach-tripwire/src/entropy.rs:93-115 | number, mean, variance and share of high blocks |
| `Entropy.SummaryExtremes` | crates/kavach-tripwire/src/entropy.rs:93-104 | the extremes bound the blocks and are blocks, or 0 and 8; no blocks give zeros |
| `Entropy.AnomalyNeedsHighBlock` | crates/kavach-tripwire/src/entropy.rs:93-146 | an anomalous summary has maximum entropy at least 7.95 |
| `Entropy.NarrowRangeOnlySustained` | crates/kavach-tripwire/src/entropy.rs:139-146 | blocks spanning less than 2 bits score zero and are anomalous exactly when at least 70 percent are high |
| `Entropy.AlternatingFlagged` | crates/kavach-tripwire/src/entropy.rs:118-146 | an alternating sequence with two high blocks and a squared gap of at least 4.5 has transition ratio 1, variance at least 2/9 of the squared gap, score at least 0.5625, and is flagged |
| `Entropy.AlternatingFlaggedExactly` | crates/kavach-tripwire/src/entropy.rs:118-146 | all alternating sequences with two high blocks and lows at most `low` are flagged exactly when 2 (7.95 - low)^2 is at least 9 |
| `Entropy.ShallowNotFlagged` | crates/kavach-tripwire/src/entropy.rs:139-146 | for every other `low`, the sequence high, low, high has variance 2/9 of the squared gap and is not flagged |
| `Entropy.AlternatingByLength` | crates/kavach-tripwire/src/entropy.rs:118-146 | with h >= 2 high and l low blocks all alternating sequences are flagged exactly when h l gap^2 is at least (h + l)^2 |
| `Entropy.SingleHighNotFlagged` | crates/kavach-tripwire/src/entropy.rs:146 | an alternating sequence with one high block that is not flagged |
| `SlidingWindow.WriteBurstTracker.RecordEvent` | crates/kavach-tripwire/src/sliding_window.rs:77-80 | push, then purge at the given time; the held events stay what the history of operations leaves |
| `SlidingWindow.WriteBurstTracker.PurgeExpired` | crates/kavach-tripwire/src/sliding_window.rs:83-86 | every event with timestamp plus window at or after now stays as often as it was held, every other one goes, and the rest is the filtered list in its order; the operation joins the history |
| `SlidingWindow.RetainExactly` | crates/kavach-tripwire/src/sliding_window.rs:85 | filtering by a cutoff keeps the multiplicity of each event at or after it and drops all others |
| `SlidingWindow.RetainAppend` | crates/kavach-tripwire/src/sliding_window.rs:85 | filtering keeps the order: the parts of a log are filtered one after the other |
| `SlidingWindow.WriteBurstTracker.Tally` | crates/kavach-tripwire/src/sliding_window.rs:107-122 | the totals of a list of events |
| `SlidingWindow.WriteBurstTracker.BuildSlot` | crates/kavach-tripwire/src/sliding_window.rs:140-165 | the four features of a slot |
| `SlidingWindow.WriteBurstTracker.BuildTensor` | crates/kavach-tripwire/src/sliding_window.rs:126-166 | the ten slots of the window |
| `SlidingWindow.WriteBurstTracker.EvaluatePid` | crates/kavach-tripwire/src/sliding_window.rs:99-217 | the evaluation of a process over the held events |
| `SlidingWindow.OfPidExactly` | crates/kavach-tripwire/src/sliding_window.rs:100-101 | the events of a process are looked at as often as recorded, and no others |
| `SlidingWindow.OthersIgnored` | crates/kavach-tripwire/src/sliding_window.rs:99-217 | an event of another process, wherever it stands, changes nothing in an evaluation |
| `SlidingWindow.TotalsExactly` | crates/kavach-tripwire/src/sliding_window.rs:107-122 | the totals of a process from the raw events: counts of index sets, bytes, distinct paths, blocks in order |
| `SlidingWindow.EvaluationExactly` | crates/kavach-tripwire/src/sliding_window.rs:99-217 | an evaluation exists exactly for a process with an event, and holds its window, totals and summary |
| `SlidingWindow.SuspensionExactly` | crates/kavach-tripwire/src/sliding_window.rs:169-201 | suspension exactly when the raw events touch enough distinct paths and their blocks are anomalous, an alert otherwise; the evidence is the number of signs in both cases |
| `SlidingWindow.HighBurstSuspended` | crates/kavach-tripwire/src/sliding_window.rs:169-201 | a burst over enough files with 70 percent of high blocks is suspended |
| `SlidingWindow.AlternatingBurstSuspended` | crates/kavach-tripwire/src/sliding_window.rs:169-201 | an alternating burst over enough files, with enough gap, is suspended |
| `SlidingWindow.TensorExactly` | crates/kavach-tripwire/src/sliding_window.rs:126-166 | each row of the tensor is that of the events of the process stamped inside its slot |
| `SlidingWindow.EdgeExactly` | crates/kavach-tripwire/src/sliding_window.rs:127-132 | the slot edges are the tenths of the window, rounded down |
| `SlidingWindow.SlotFeaturesExactly` | crates/kavach-tripwire/src/sliding_window.rs:140-165 | which column holds which feature, and its cap |
| `SlidingWindow.HeldExactly` | crates/kavach-tripwire/src/sliding_window.rs:77-86 | for every clock the held events are, in order, the recorded ones that meet every cutoff since their recording |
| `SlidingWindow.WindowIsFilteredLog` | crates/kavach-tripwire/src/sliding_window.rs:77-86 | with a clock that does not go back the held events are the whole log filtered by the current cutoff |
| `SlidingWindow.SlotsPartitionWindow` | crates/kavach-tripwire/src/sliding_window.rs:127-138 | for every window length a time is in exactly one slot inside [start, start + window) and in none outside |
| `SlidingWindow.SlotsPartitionEvents` | crates/kavach-tripwire/src/sliding_window.rs:127-138 | the events of the ten slots together are, as a multiset, those inside [start, start + window) |
| `SlidingWindow.SlotHoldsExactly` | crates/kavach-tripwire/src/sliding_window.rs:134-138 | a slot holds exactly the listed events stamped inside it |
| `SlidingWindow.EventAtNowInSlotExactly` | crates/kavach-tripwire/src/sliding_window.rs:127-138 | a listed event stamped now is among the events of some slot exactly while now is below the window |
| `SlidingWindow.NewestLeavesNoTrace` | crates/kavach-tripwire/src/sliding_window.rs:126-166 | from then on the tensor with the newest event is the tensor without it |
| `SlidingWindow.SlotsConserve` | crates/kavach-tripwire/src/sliding_window.rs:131-154 | byte and rename counts of the slots add up to those inside the window |
| `SlidingWindow.SuspensionIsCorroborated` | crates/kavach-tripwire/src/sliding_window.rs:169-201 | a recommended suspension carries three pieces of evidence, four with three renames |
| `TripwireHead.SlotFeaturesNormalized` | crates/kavach-tripwire/src/sliding_window.rs:156-165 | every slot feature is between 0 and 1 |
| `TripwireHead.TensorNormalized` | crates/kavach-tripwire/src/sliding_window.rs:126-166 | the tensor of every evaluation is ten rows of four features in [0, 1] |
| `TripwireHead.HeadScoreError` | crates/kavach-core/src/tensor.rs:24-55 | the INT8 score of every evaluation is within 1/254 of the score of its unquantized features |
| `Beacon.RollingFlow.RecordPacket` | crates/kavach-beacon/src/flow.rs:84-91 | the window stays the last 32 packets of the log and reports when it is full |
| `Beacon.GapsAndCounts` | crates/kavach-beacon/src/detector.rs:45-66 | gaps, direction counts and small-payload count |
| `Beacon.EvaluateBeaconRhythm` | crates/kavach-beacon/src/detector.rs:36-126 | evaluates exactly the full windows, to the detection of their packets |
| `Beacon.FlaggedExactly` | crates/kavach-beacon/src/detector.rs:36-104 | flagged exactly when the gaps are rhythmic (mean at least 500 ms, variance at most (0.175 mean) squared) and 5 (31 m + s M) is at least 124 M, for m and M packets in the rarer and the commoner direction and s small payloads |
| `Beacon.GapsExactly` | crates/kavach-beacon/src/detector.rs:50-55 | the gap before each packet in milliseconds, zero for a clock that went back |
| `Beacon.SymmetryExactly` | crates/kavach-beacon/src/detector.rs:93-102 | the symmetry from those counts |
| `Beacon.DeviationExactly` | crates/kavach-beacon/src/detector.rs:72-83 | mean and standard deviation of the gaps and their quotient |
| `Beacon.ScoresExactly` | crates/kavach-beacon/src/detector.rs:85-105 | jitter score, symmetry and the weighted confidence |
| `BeaconJitter.SteadyExactly` | crates/kavach-beacon/src/detector.rs:50-105 | every window with gaps between a and b nanoseconds and at most six large payloads is flagged exactly when a is at least 500 ms and no split of the gaps between a and b exceeds the permitted variation |
| `BeaconJitter.SleepExactly` | crates/kavach-beacon/src/detector.rs:21-105 | for every sleep whose window fits the u64 clock: all windows within d of it are flagged exactly when sleep - d is at least 500 ms and 936 d^2 is at most 0.030625 (31 sleep - 5 d)^2 |
| `BeaconJitter.SleepByPercent` | crates/kavach-beacon/src/detector.rs:21-105 | hence always with 17 percent of jitter while the gaps stay at 500 ms or more, and with 18 percent not |
| `BeaconJitter.SleepFrom600` | crates/kavach-beacon/src/detector.rs:21-105 | from 600 ms on 14 percent, or a sixth, is always flagged |
| `BeaconJitter.TwentyPercentEscapes` | crates/kavach-beacon/src/detector.rs:21-105 | a window within 20 percent of 10 s that is not flagged |
| `Beacon.FlaggedMeansOrdered` | crates/kavach-beacon/src/detector.rs:50-105 | in a flagged window every gap is strictly between zero and twice the mean, so timestamps strictly increase |
| `Quantization.QuantizeOfDequantize` | crates/kavach-core/src/tensor.rs:24-33 | an INT8 value survives dequantizing and quantizing exactly when the scale is not zero or the value is 0 |
| `Quantization.RoundExactly` | crates/kavach-core/src/tensor.rs:24-26 | rounding is to the nearest integer, halves away from zero |
| `Quantization.DequantizeOfQuantize` | crates/kavach-core/src/tensor.rs:24-33 | at every nonzero scale an unclamped value comes back within half a step and a clamped one is at the end of the range; at scale zero every value comes back as zero |
| `Quantization.FromF32Matrix` | crates/kavach-core/src/tensor.rs:47-55 | every cell is the quantized feature, for every scale |
| `Quantization.AsBytes` | crates/kavach-core/src/tensor.rs:58-68 | row-major two's-complement bytes from which every value is recovered |
| `Quantization.NpuEngine.RunIoInference` | crates/kavach-core/src/npu_backend.rs:743-761 | the CPU score is the reference graph's score, and the clamped (7 C0 + 3 C3) / 12700 for the column sums C0 and C3 |
| `Quantization.NpuEngine.RunNetInference` | crates/kavach-core/src/npu_backend.rs:764-779 | the same for the network head, with C0 / 4064 |
| `Quantization.NpuEngine.RunAuditInference` | crates/kavach-core/src/npu_backend.rs:782-797 | the same for the audit head, with C0 / 2032 |
| `Quantization.QuantizedScoreError` | crates/kavach-core/src/npu_backend.rs:272-325 | quantizing features in [-1, 1] moves the score of any convex head by at most 1/254 |
| `Quantization.ScoreErrorAttained` | crates/kavach-core/src/tensor.rs:24-27 | for every number of rows, a matrix on which the score moves by exactly 1/254 |

## Left out

- Windows service, WFP driver calls, ETW consumers, hardware probing, ONNX Runtime sessions, the command line and PowerShell: foreign calls and I/O.
- SHA-256, Ed25519, serde and TOML parsing: library code; digests are opaque byte strings and the evidence digests of the evaluations are not computed.
- Shannon entropy and the log10 feature of the flow tensor: transcendental functions; block entropies are given reals.
- IEEE rounding: scores and slot edges are exact, so `WriteBurstTracker` slot edges for windows not divisible by ten may differ by one millisecond from the floating-point ones.
- Infinite and NaN floats and a scale of negative zero: values and scales are reals. A zero scale divides to the infinity of the value's sign, or to the NaN that casts to 0.
- Sorting of the distinct file names in an evaluation: they are a set here.
- The live named-pipe branch of `dispatch` and the broker's own `VerdictDispatcher` check: I/O and three branches.
- ONNX schema conformance of the generated models: only the byte writer and the head arithmetic are modelled.
- Config bounds, allowlist matching, the rule registry, the event-sequence tracker, backoff and guest record construction: range checks, table lookups, a gap counter, a capped doubling and field copies.
