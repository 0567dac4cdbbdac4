# JNW2 link, contention and transport core in Dafny

This project models four pieces of the Java Network Workbench 2 (JNW2), a
teaching network simulator, and proves properties of them.

- **Bit stuffing** (`bitstuffing.dfy`, module `BitStuffing`). These are the
  data-link frame transparency routines `stuff` and `unstuff`. `stuff`
  inserts a 0 after every five consecutive 1s, and `unstuff` removes the bit
  that follows five consecutive 1s. The two Java loops are methods over
  `seq<bool>`, proved equal to left-to-right scan functions (`StuffSpec`,
  `UnstuffSpec`). The properties proved include:
  - the round trip;
  - no six ones after stuffing;
  - the length bounds;
  - fixed points;
  - streaming;
  - the run-by-run transparency rule;
  - the four test vectors of the class's own test driver.
- **Go-Back-N window arithmetic** (`gobackn.dfy`, module `GoBackN`). These are
  the sequence-number helpers of the Go-Back-N ARQ:
  - `LTwindow`, `INwindow`, `windowFull`;
  - `framesRemainUnacked`, `incrementSNmax`;
  - `updateSNmin`, `updateRN`, `acceptFrame`.

  They are modelled as written, over Java `byte`s. The counter range
  DL_WINDOW_MAX and the window DL_WINDOW_FRAMES are parameters. Each Java
  helper maps to one Dafny member, as written:
  - `LTwindow` → `GoBackN.LtWindow` (GoBackN.java:186-191);
  - `INwindow` → `GoBackN.InWindow` (GoBackN.java:204-213);
  - `windowFull` → `GoBackN.WindowFull` (GoBackN.java:222-231);
  - `framesRemainUnacked` → `GoBackN.FramesRemainUnacked` (GoBackN.java:241-248);
  - `incrementSNmax` → `GoBackN.IncrementSNmax` (GoBackN.java:256-260), with
    Java's `%` as `GoBackN.JavaRem` and the `(byte)` cast as `GoBackN.ToByte`;
  - `updateSNmin` → `GoBackN.UpdateSNmin` (GoBackN.java:267-274);
  - `updateRN` → `GoBackN.UpdateRN` (GoBackN.java:281-290);
  - `acceptFrame` → `GoBackN.AcceptFrame` (GoBackN.java:298-309).

  The reference definition is `GoBackN.Distance`. The corrected definitions
  that the Findings rows prove things about are:
  - `GoBackN.FramesOutstanding` (SNmin != SNmax);
  - `GoBackN.NextSN` ((SN + 1) mod M);
  - `GoBackN.AcceptInWindow` (SN in [RN, RN + W) mod M).

  The lemmas in the table relate each as-written helper to these. Three
  helpers do not do what their documentation says; see "## Findings".
  `updateRN` returns the received SN, so on the expected frame (SN == RN)
  it leaves RN in place, while the receive algorithm described at
  GoBackN.java:170-172 increments RN modulo M (`UpdateRNOnExpectedFrame`).
  `UpdateRNStaysInWindow` therefore includes a move of zero. The caller is
  not part of this model, so this is recorded here, not as a finding.
- **Binary exponential backoff** (`backoff.dfy`, module `Contention`). This is
  the `Backoff` class of the contention LAN, with its fields. It keeps the
  try count and the slot range 2^min(n,10) - 1. It returns a rounded random
  draw in that range, or -1 after sixteen tries. The class invariant ties
  the slot range to the try count.
- **Reliable transport send event** (`sendsegments.dfy`, module `Transport`).
  This is `SendSegments.sendRtlSegments`, in four steps:
  1. Resend on a NACK, and measure the round-trip time (RTT).
  2. Send new segments while the congestion window has room.
  3. Retransmit segments whose acknowledgement timed out.
  4. Send FIN once the whole message is acknowledged.

  The class holds the saved-segment array, the send-time array and the
  counters, and logs every `sendNewSegment` call in a ghost log. Each step
  is a method proved against a function on the state. The lemmas state what
  each step does to send times, `lastCharSent`, `rtt`, `finSentTicks` and
  the log.

Where the comments in `SendSegments.java` and its code differ, the model
follows the code. Step 1's comment (lines 48-62) asks for a resend when a
segment's age exceeds twice the RTT. The code (lines 107-108) instead
compares only for a non-null slot whose send time is positive: it resends
when the age of the previous slot's send time exceeds twice the age of
this slot's send time. For slot 0, when its send time is positive, that
reads the send time of slot -1, so the Java method throws on a NACK; with
a send time of 0 or less the comparison is skipped and nothing is thrown.
The model keeps the comparison as written, and ends the event with the
outcome `IndexOutOfBounds` in exactly the throwing cases (`NackOutOfBounds`,
`SendRtlAborts`). A corrected Step 1 that does not compare slot 0 is
defined beside it (`NackFromGuarded`, see "## Findings"). Step 2's comment
(lines 64-68) caps the window at `sendEmailLength - 1`, but the code
(lines 123-124) caps it at `sendEmailLength`; the model uses the code's cap.

## Model

| member | source | states |
|---|---|---|
| BitStuffing.Stuff | BitStuffing.java:20-76 | the loop (output index `aux`, growing bound `leng`) returns exactly the stuffing of its input: a 0 after every fifth consecutive 1 |
| BitStuffing.Unstuff | BitStuffing.java:84-132 | the loop returns exactly the unstuffing of its input: after every fifth consecutive 1 the next bit is skipped unread |
| BitStuffing.RoundTrip | BitStuffing.java:78-84 | unstuff(stuff(x)) == x for every bit sequence x |
| BitStuffing.UnstuffStuffFrom | BitStuffing.java:38-127 | the round trip holds mid-frame too, whatever number of ones (below five) precedes the input |
| BitStuffing.StuffFromRunsAtMost5 | BitStuffing.java:43-67 | the stuffed output never has a run of more than five ones, counting the ones before it |
| BitStuffing.StuffNoSixOnes | BitStuffing.java:14-18 | stuff(x) contains no six consecutive ones, so the flag 01111110 cannot occur inside a frame |
| BitStuffing.StuffFromLength | BitStuffing.java:46-53 | the output is longer by exactly the number of inserted zeros, at most one per five input bits (counting the ones that precede the input) |
| BitStuffing.StuffLength | BitStuffing.java:29-70 | \|x\| <= \|stuff(x)\| <= \|x\| + \|x\|/5 |
| BitStuffing.ShortRunsFixedFrom | BitStuffing.java:38-127 | a sequence whose runs of ones stay below five is unchanged by both scans |
| BitStuffing.ShortRunsFixed | BitStuffing.java:38-127 | a frame with no five consecutive ones is a fixed point of both stuff and unstuff |
| BitStuffing.EmptyFrame | BitStuffing.java:29-38 | both operations map the empty frame to the empty frame |
| BitStuffing.UnstuffDropsUncheckedBit | BitStuffing.java:107-113 | unstuff does not check the bit it drops: six ones lose their sixth one without any error |
| BitStuffing.UnstuffTrailingFiveOnes | BitStuffing.java:101-113 | a frame a (empty or ending in 0) followed by five ones unstuffs to unstuff(a) followed by the five ones: a final run of five drops nothing and raises no error |
| BitStuffing.StuffAppend | BitStuffing.java:38-70 | stuffing streams: stuff(a + b) is stuff(a) followed by the stuffing of b, continuing with the ones left over from a |
| BitStuffing.UnstuffAppend | BitStuffing.java:101-127 | unstuffing a + b, with a ending in 0, is unstuff(a) followed by unstuff(b) |
| BitStuffing.OnesAfterZero | BitStuffing.java:63-67 | after a zero the stuffing counter is back at 0 |
| BitStuffing.StuffCutAfterZero | BitStuffing.java:63-67 | a frame cut after a zero stuffs as its two pieces do |
| BitStuffing.UnstuffCutAfterZero | BitStuffing.java:120-124 | a stuffed frame cut after a zero unstuffs as its two pieces do |
| BitStuffing.StuffOnes | BitStuffing.java:43-60 | fewer than five ones in a row are copied, and the ones counter grows by their number |
| BitStuffing.StuffRunThenZero | BitStuffing.java:57-67 | a run of fewer than five ones closed by a zero passes unchanged, and the scan restarts |
| BitStuffing.StuffFullRun | BitStuffing.java:46-56 | five ones in a row are followed by an inserted zero, and the scan restarts |
| BitStuffing.UnstuffOnes | BitStuffing.java:104-117 | fewer than five ones in a row are read as they are, and the counter grows by their number |
| BitStuffing.UnstuffRunThenZero | BitStuffing.java:114-124 | a run of fewer than five ones closed by a zero is read unchanged, and the scan restarts |
| BitStuffing.UnstuffFullRun | BitStuffing.java:107-113 | after five ones the next bit, whatever it is, is dropped, and the scan restarts |
| BitStuffing.StuffVector1 | BitStuffing.java:167 | 101101110111101111101111110 stuffs to 10110111011110111110011111010 (followed by any further bits) |
| BitStuffing.UnstuffVector1 | BitStuffing.java:167 | 10110111011110111110011111010 unstuffs to 101101110111101111101111110 |
| BitStuffing.StuffVector2 | BitStuffing.java:168 | 1111100000 stuffs to 11111000000 |
| BitStuffing.UnstuffVector2 | BitStuffing.java:168 | 11111000000 unstuffs to 1111100000 |
| BitStuffing.StuffVector3 | BitStuffing.java:169 | 11110111101 is left unchanged by stuff |
| BitStuffing.UnstuffVector3 | BitStuffing.java:169 | 11110111101 is left unchanged by unstuff |
| BitStuffing.StuffVector4 | BitStuffing.java:170 | 111111111111 stuffs to 11111011111011 |
| BitStuffing.UnstuffVector4 | BitStuffing.java:170 | 11111011111011 unstuffs to 111111111111 |
| GoBackN.LtWindowIsDistanceBelow | GoBackN.java:186-191 | LTwindow(a, b) holds exactly when the forward distance from a to b modulo M is below W |
| GoBackN.InWindowIsDistanceAtMost | GoBackN.java:204-213 | INwindow(a, b) holds exactly when that distance is at most W |
| GoBackN.LtAndInWindowDiffer | GoBackN.java:186-213 | LTwindow implies INwindow, and they differ exactly when the distance equals W |
| GoBackN.WindowFullIsNotLtWindow | GoBackN.java:222-231 | windowFull is the negation of LTwindow for every pair of bytes |
| GoBackN.WindowFullIsDistanceAtLeast | GoBackN.java:215-231 | the window is full exactly when W or more frames are outstanding, and never when SNmin == SNmax |
| GoBackN.FramesRemainUnackedMisses | GoBackN.java:241-248 | as written: false for (0, n) with n frames outstanding, true for (n, n) with none outstanding |
| GoBackN.FramesOutstandingIsDistancePositive | GoBackN.java:233-240 | corrected test SNmin != SNmax: frames are outstanding exactly when the forward distance is positive |
| GoBackN.IncrementSNmaxIsIdentity | GoBackN.java:256-260 | as written, `(byte)(SNmax++ % M)` returns SNmax itself, which differs from SNmax + 1 mod M when M > 1 |
| GoBackN.NextSNAddsOneFrame | GoBackN.java:250-255 | the corrected increment (SNmax + 1) mod M adds exactly one outstanding frame |
| GoBackN.CumulativeAckShrinksWindow | GoBackN.java:262-274 | SNmin := updateSNmin(r), with r inside the window, leaves outstanding exactly the frames from r on |
| GoBackN.UpdateRNStaysInWindow | GoBackN.java:276-290 | after an accepted frame, RN := updateRN(SN) moves RN forward by fewer than W |
| GoBackN.UpdateRNOnExpectedFrame | GoBackN.java:281-290 | on the expected frame SN == RN, which acceptFrame accepts, updateRN leaves RN unchanged, which differs from the incremented RN (RN + 1 mod M) whenever M > 1 |
| GoBackN.AcceptFrameWithinModularWindow | GoBackN.java:298-309 | acceptFrame accepts SN == RN, rejects SN < RN, and never accepts a number outside the modular window |
| GoBackN.AcceptFrameAgreesWithoutWrap | GoBackN.java:298-309 | while RN + W <= M, acceptFrame agrees with the modular window test |
| GoBackN.AcceptFrameMissesWrappedWindow | GoBackN.java:307-308 | with M = 8, W = 4, RN = 6, acceptFrame rejects SN 0 and 1, which lie in the window |
| GoBackN.AcceptInWindowIsWindowFromRN | GoBackN.java:292-305 | the corrected test accepts exactly RN, RN+1, ..., RN+W-1 taken mod M |
| GoBackN.AcceptFrameExample | GoBackN.java:298-309 | with M = 8, W = 4, RN = 2, both tests accept exactly SN 2 to 5 |
| Contention.RoundedDraw | Backoff.java:72 | Math.round(draw * maxSlots) for a draw in [0, 1]: the integer nearest, halves up, lying in [0, maxSlots] |
| Contention.RoundedDrawBounds | Backoff.java:68-72 | the rounding brackets draw * maxSlots + 1/2 and stays within [0, maxSlots] |
| Contention.SlotLimitSchedule | Backoff.java:43-49 | the range is 2^n - 1 on tries 1 to 10 and 2^10 - 1 = 1023 after, never above 1023 |
| Contention.NextMaxSlotsFollowsSchedule | Backoff.java:58-64 | the three branches (and no branch on the 16th try) keep maxBackoffSlots on that schedule |
| Contention.Backoff.constructor | Backoff.java:35-42 | count 0, no slots, seed 100 * interfaceNumber + 1 |
| Contention.Backoff.BinaryExponentialBackoff | Backoff.java:51-73 | count + 1; range follows the branches and the schedule; FAIL exactly after 16 tries, else the rounded draw in [0, range] |
| Contention.Backoff.ZeroBackoffCount | Backoff.java:78-82 | count and range are reset to 0, keeping the invariant |
| Contention.Backoff.GetBackoffCount | Backoff.java:88-91 | returns the try count |
| Contention.Backoff.GetMaxBackoffSlots | Backoff.java:97-100 | returns the range, which lies in [0, 1023] |
| Transport.WindowEnd | SendSegments.java:122-124 | the window end is the smaller of sendWindowStart + cwnd - 1 and sendEmailLength |
| Transport.NackFromLaterCompletes | SendSegments.java:105-114 | from slot 1 on, Step 1 cannot throw |
| Transport.NackOutOfBounds | SendSegments.java:107 | Step 1 throws exactly when slot 0 is non-null with a positive send time |
| Transport.NackFromGuardedAgrees | SendSegments.java:105-114 | the corrected Step 1 (slot 0 not compared) equals Step 1 as written whenever that completes, keeps the send times of earlier slots, and only appends data segments of slots from i on to the log |
| Transport.NackGuardedCompletes | SendSegments.java:105-114 | the corrected Step 1 always completes, never resends or re-stamps slot 0, and agrees with the code wherever the code does not throw |
| Transport.NackFromIdle | SendSegments.java:105-114 | with no non-null slot left, Step 1 changes nothing |
| Transport.NackRttOfLastSlot | SendSegments.java:112 | after Step 1, rtt is the age of the highest non-null slot's send time, taken after its resend |
| Transport.NackChanges | SendSegments.java:105-114 | Step 1 re-stamps only non-null slots, only with now; logs only their data; keeps lastCharSent and finSentTicks |
| Transport.NackKeepsTimesPast | SendSegments.java:102-118 | Step 1 keeps send times in the past and rtt non-negative, and leaves null slots' times alone |
| Transport.NackKeepsUnsent | SendSegments.java:109-110 | Step 1 re-stamps only the slots it resends: the send time of every slot not resent stays |
| Transport.SendFromStops | SendSegments.java:127-143 | the loop stops only at the window end, a negative index or a non-positive payload, and sends nothing once the window is used up; rtt and finSentTicks stay; a send time changes only to now, and only for a non-null slot |
| Transport.SendFromKeepsUnsent | SendSegments.java:141-142 | Step 2 stamps only the slots it sends: the send time of every slot not sent in this step stays |
| Transport.SendFromLog | SendSegments.java:129-138 | the loop sends only non-null slots, each with a positive payload |
| Transport.SendFromAdvance | SendSegments.java:139 | lastCharSent grows by exactly the total payload of the segments sent |
| Transport.SendFromStamps | SendSegments.java:142 | each segment sent in Step 2 has its send time set to now |
| Transport.SendFromMonotone | SendSegments.java:127-143 | lastCharSent never decreases in Step 2 |
| Transport.TimeoutFromTicks | SendSegments.java:148-155 | exactly the timed-out non-null slots are re-stamped now; rtt, lastCharSent, finSentTicks stay |
| Transport.TimeoutFromSendsTimedOut | SendSegments.java:148-155 | Step 3 sends only timed-out slots, in increasing order, each once |
| Transport.TimeoutFromSendsAll | SendSegments.java:148-155 | Step 3 sends every timed-out slot |
| Transport.TimeoutLeavesNoStaleSlot | SendSegments.java:148-155 | after Step 3 no non-null slot is older than rtt |
| Transport.SentSegmentNotRetransmitted | SendSegments.java:127-155 | a segment sent in Step 2 is not retransmitted by Step 3 of the same event |
| Transport.FinSentExactlyWhenDone | SendSegments.java:167-175 | FIN is sent in CLOSE_WAIT, urgent, and finSentTicks is stamped, exactly when sendWindowStart >= sendEmailLength |
| Transport.SendRtlAborts | SendSegments.java:102-118 | the event throws exactly when the reply is a NACK and slot 0 is non-null with a positive send time |
| Transport.SendRtlKeepsTimes | SendSegments.java:40-177 | a completed event keeps send times in the past, rtt >= 0, no stale non-null slot, and lastCharSent not decreased |
| Transport.SendRtlFin | SendSegments.java:158-175 | a completed event sends FIN, last, exactly when everything is acknowledged, and stamps finSentTicks |
| Transport.SendSegments.constructor | SendSegments.java:27-33 | the sender starts with the given slots, send times and window constants, counters at 0 and nothing sent (the state the superclass is taken to set up) |
| Transport.SendSegments.SendNewSegment | SendSegments.java:133-138 | each call appends one transmission to the log and changes nothing else |
| Transport.SendSegments.ResendNacked | SendSegments.java:102-118 | the Step 1 loop yields exactly NackFrom's state, or throws with the state unchanged |
| Transport.SendSegments.SendWindow | SendSegments.java:120-143 | the Step 2 loop yields exactly SendFrom's state for the computed window end |
| Transport.SendSegments.ResendTimedOut | SendSegments.java:145-155 | the Step 3 loop yields exactly TimeoutFrom's state |
| Transport.SendSegments.SendFin | SendSegments.java:166-175 | Step 4 yields exactly FinStep's state |
| Transport.SendSegments.SendRtlSegments | SendSegments.java:40-177 | the whole event yields SendRtl's state, or throws exactly when SendRtl aborts |

## Findings

| source | as written | input that shows it | evidently intended | confidence | as-written member | corrected member |
|---|---|---|---|---|---|---|
| GoBackN.java:259 | `(byte)(SNmax++ % DL_WINDOW_MAX)`: the post-increment yields the old value, so the result is SNmax itself | any SNmax in [0, M) with M > 1, e.g. SNmax = 3, M = 8 gives 3 | (SNmax + 1) mod M | high, not executed | GoBackN.IncrementSNmaxIsIdentity | GoBackN.NextSNAddsOneFrame |
| GoBackN.java:247 | `SNmin != 0 && SNmax != 0` | SNmin = 0, SNmax = 3 (three frames outstanding) gives false; SNmin = SNmax = 5 (none) gives true | frames are outstanding when SNmin != SNmax | high, not executed | GoBackN.FramesRemainUnackedMisses | GoBackN.FramesOutstandingIsDistancePositive |
| SendSegments.java:107 | `segmentSendTicks[i - 1]` is read for every non-null slot with a positive send time, including i = 0 | a NACK reply while slot 0 is unacknowledged with send time 5: the read of index -1 throws and the event ends | slot 0, having no slot before it, is not compared; Step 1 completes on every buffer | medium, not executed | Transport.NackOutOfBounds | Transport.NackGuardedCompletes |
| GoBackN.java:307-308 | RN <= SN < RN + W in plain integers, with no wraparound | M = 8, W = 4, RN = 6, SN = 0: in the window {6, 7, 0, 1} but rejected | SN lies in [RN, RN + W) modulo M | medium, not executed | GoBackN.AcceptFrameMissesWrappedWindow | GoBackN.AcceptInWindowIsWindowFromRN |

## Left out

- Bit sequences are `seq<bool>`. The `BitSequence` class (its growth on `setValue`, `size`, `equals`) is not part of this model.
- The `main` test drivers print results. Only BitStuffing's four vectors are kept, as lemmas. Each vector lemma is stated for the frame followed by any further bits, written as its runs of ones; with no further bits it is the driver's check.
- GoBackN: the ARQ state machine, timers, frame building and the test driver are not modelled, only the helpers at lines 186-309. DL_WINDOW_MAX and DL_WINDOW_FRAMES are parameters with 0 < W <= M.
- GoBackN.LtWindowIsDistanceBelow (and the other distance lemmas): stated for numbers inside [0, M), the only values the helpers are given. Outside that range the helpers are modelled as written, but nothing is proved about them.
- Contention.Backoff.BinaryExponentialBackoff: the random float from `RandomNumber` is a parameter drawNum / drawDen in [0, 1]. The generator and its state are not modelled, and floating-point rounding is exact rational rounding.
- Contention.Backoff.BinaryExponentialBackoff: backoffCount is unbounded. Java's `int` would wrap after 2^31 - 1 tries without a reset.
- Contention.Pow2 stands for `(int)Math.pow(2, n)`, which is exact for the exponents 0 to 10 used here.
- Transport: the superclass `Segments` (buffers, headers, addresses, `sequenceNumberToBufferIndex`, `getCongestionWindowSize`) and the simulation clock are not part of this model. They become the parameters `indexOf`, `cwnd` and `now`.
- Transport.SendSegments.SendWindow: requires `indexOf` never to return an index past the array. Java would throw there; the superclass mapping that decides it is not modelled.
- Transport.PayloadSize: `getPayloadSize(null)` is taken to be 0, so an acknowledged slot stops the Step 2 loop.
- Transport.SendSegments.ResendNacked: rtt is an unbounded integer. Java narrows the `long` difference with `(int)`.
- `sendNewSegment` is modelled only as a log entry: the slot (or FIN), the next send state and the urgent flag. Building and transmitting the segment is left out.
- Message contents are reduced to each saved segment's payload size.
- `updateCongestionWindowSize` has an empty body in the source, so there is nothing to model.
- Transport.SendSegments.constructor: the Java constructor only calls the superclass constructor, which is not part of this model. Taking the slot and send-time arrays and the window constants as parameters, and starting lastCharSent, rtt and finSentTicks at 0, are assumptions about that superclass. In particular the model assumes, as its class invariant `Valid`, that the send-time array is exactly as long as the slot array.
- BellmanFordRouting.java and DijkstraRouting.java are not part of this model.
