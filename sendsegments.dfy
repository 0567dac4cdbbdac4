/**
  One send event of the reliable transport layer: the sender resends
  segments a NACK reports lost, sends new segments while the congestion
  window has room, retransmits segments whose acknowledgement timed out,
  and sends FIN once the whole message is acknowledged.

  The saved segments form an array of slots, null once acknowledged; each
  slot has a send time in `ticks`. Transmissions are appended to a ghost
  log; the simulation clock, the congestion window size and the mapping from
  sequence numbers to slots are parameters.
 */
module Transport {

  datatype Option<T> = None | Some(value: T)

  /** A slot of savedSendSegments: null once acknowledged, else a segment with its payload size. */
  datatype Slot = Acked | Saved(payloadSize: int)

  /** getPayloadSize; a null slot counts as no payload. */
  function PayloadSize(s: Slot): int {
    if s.Saved? then s.payloadSize else 0
  }

  /** The send state handed to sendNewSegment with each segment. */
  datatype SendState = TlSending | CloseWait

  datatype Segment = DataSegment(slot: nat) | FinSegment

  /** One call of sendNewSegment. */
  datatype Transmission = Transmission(segment: Segment, nextState: SendState, urgent: bool)

  /** A saved data segment, sent in state TL_SENDING and not urgent. */
  function DataSent(slot: nat): Transmission {
    Transmission(DataSegment(slot), TlSending, false)
  }

  /** The FIN segment, sent in state CLOSE_WAIT and urgent. */
  const FinSent := Transmission(FinSegment, CloseWait, true)

  /** The reply segment the event carries, if any: its size and its syn, fin and ack flags. */
  datatype Reply = NoReply | Reply(size: int, syn: int, fin: int, ack: int)

  /** Step 1 runs for a non-empty reply that carries an ack and neither syn nor fin. */
  predicate IsNack(reply: Reply) {
    reply.Reply? && reply.size > 0 && reply.syn == 0 && reply.fin == 0 && reply.ack == 1
  }

  /** Everything a send event may change: send times, lastCharSent, rtt, finSentTicks and the log. */
  datatype Snapshot = Snapshot(ticks: seq<int>, lastCharSent: int, rtt: int, finSentTicks: int, log: seq<Transmission>)

  // ---------------------------------------------------------------------
  // Step 1: resend on NACK and measure the round-trip time.
  // ---------------------------------------------------------------------

  /**
    Slot i (non-null) in Step 1: resent and re-stamped when it was sent
    (tick > 0) and the slot before it was sent more than twice as long ago;
    then rtt becomes the age of slot i's (possibly new) send time.
   */
  function NackSlot(saved: seq<Slot>, s: Snapshot, i: nat, now: int): (r: Snapshot)
    requires |s.ticks| == |saved| && i < |saved|
    requires i > 0 || s.ticks[i] <= 0
    ensures |r.ticks| == |saved|
  {
    var resend := s.ticks[i] > 0 && now - s.ticks[i - 1] > 2 * (now - s.ticks[i]);
    var ticks := if resend then s.ticks[i := now] else s.ticks;
    var log := if resend then s.log + [DataSent(i)] else s.log;
    s.(ticks := ticks, rtt := now - ticks[i], log := log)
  }

  /**
    Step 1 from slot i on. None when slot 0 is non-null with a positive
    send time: the test then reads the send time of slot -1, and the Java
    method ends with an index-out-of-bounds exception.
   */
  function NackFrom(saved: seq<Slot>, s: Snapshot, i: nat, now: int): (r: Option<Snapshot>)
    requires |s.ticks| == |saved| && i <= |saved|
    ensures r.Some? ==> |r.value.ticks| == |saved| && |s.log| <= |r.value.log|
    decreases |saved| - i
  {
    if i == |saved| then Some(s)
    else if saved[i].Acked? then NackFrom(saved, s, i + 1, now)
    else if i == 0 && s.ticks[i] > 0 then None
    else NackFrom(saved, NackSlot(saved, s, i, now), i + 1, now)
  }

  /**
    Slot i in the corrected Step 1: slot 0 has no slot before it to compare
    with, so it is never resent and only its age is measured; later slots
    are handled as written.
   */
  function NackSlotGuarded(saved: seq<Slot>, s: Snapshot, i: nat, now: int): (r: Snapshot)
    requires |s.ticks| == |saved| && i < |saved|
    ensures |r.ticks| == |saved|
  {
    if i == 0 then s.(rtt := now - s.ticks[0]) else NackSlot(saved, s, i, now)
  }

  /** The corrected Step 1 from slot i on: it never fails. */
  function NackFromGuarded(saved: seq<Slot>, s: Snapshot, i: nat, now: int): (r: Snapshot)
    requires |s.ticks| == |saved| && i <= |saved|
    ensures |r.ticks| == |saved|
    decreases |saved| - i
  {
    if i == |saved| then s
    else if saved[i].Acked? then NackFromGuarded(saved, s, i + 1, now)
    else NackFromGuarded(saved, NackSlotGuarded(saved, s, i, now), i + 1, now)
  }

  // ---------------------------------------------------------------------
  // Step 2: send new segments while the window has room.
  // ---------------------------------------------------------------------

  /** The last sequence number the window allows: sendWindowStart + cwnd - 1, capped at sendEmailLength. */
  function WindowEnd(sendWindowStart: int, cwnd: int, sendEmailLength: int): (e: int)
    ensures e <= sendWindowStart + cwnd - 1 && e <= sendEmailLength
    ensures e == sendWindowStart + cwnd - 1 || e == sendEmailLength
  {
    var e := sendWindowStart + cwnd - 1;
    if e > sendEmailLength then sendEmailLength else e
  }

  /** One round of the Step 2 loop: slot `index` is sent and stamped, and lastCharSent advances by its payload. */
  function SendOne(saved: seq<Slot>, s: Snapshot, index: nat, now: int): (r: Snapshot)
    requires |s.ticks| == |saved| && index < |saved|
    ensures |r.ticks| == |saved|
  {
    s.(ticks := s.ticks[index := now],
       lastCharSent := s.lastCharSent + PayloadSize(saved[index]),
       log := s.log + [DataSent(index)])
  }

  /**
    The Step 2 loop: while lastCharSent < windowEnd, send the slot holding
    sequence number lastCharSent + 1 and advance lastCharSent by its
    payload; stop at a negative slot index or a payload that is not positive.
   */
  function SendFrom(saved: seq<Slot>, indexOf: int -> int, windowEnd: int, s: Snapshot, now: int): (r: Snapshot)
    requires |s.ticks| == |saved|
    requires forall n :: indexOf(n) < |saved|
    ensures |r.ticks| == |saved| && |s.log| <= |r.log|
    decreases windowEnd - s.lastCharSent
  {
    if s.lastCharSent >= windowEnd then s
    else
      var index := indexOf(s.lastCharSent + 1);
      if index < 0 then s
      else
        if PayloadSize(saved[index]) <= 0 then s
        else SendFrom(saved, indexOf, windowEnd, SendOne(saved, s, index, now), now)
  }

  // ---------------------------------------------------------------------
  // Step 3: retransmit segments whose acknowledgement timed out.
  // ---------------------------------------------------------------------

  /** A non-null slot sent more than rtt ticks ago. */
  predicate TimedOut(saved: seq<Slot>, ticks: seq<int>, rtt: int, j: int, now: int)
    requires |ticks| == |saved|
  {
    0 <= j < |saved| && saved[j].Saved? && now - ticks[j] > rtt
  }

  /** Step 3 from slot i on: each timed-out slot is resent and re-stamped. */
  function TimeoutFrom(saved: seq<Slot>, s: Snapshot, i: nat, now: int): (r: Snapshot)
    requires |s.ticks| == |saved| && i <= |saved|
    ensures |r.ticks| == |saved| && |s.log| <= |r.log|
    decreases |saved| - i
  {
    if i == |saved| then s
    else if TimedOut(saved, s.ticks, s.rtt, i, now) then
      TimeoutFrom(saved, s.(ticks := s.ticks[i := now], log := s.log + [DataSent(i)]), i + 1, now)
    else TimeoutFrom(saved, s, i + 1, now)
  }

  // ---------------------------------------------------------------------
  // Step 4: FIN once everything is acknowledged; the whole event.
  // ---------------------------------------------------------------------

  function FinStep(sendWindowStart: int, sendEmailLength: int, s: Snapshot, now: int): Snapshot {
    if sendWindowStart >= sendEmailLength then s.(finSentTicks := now, log := s.log + [FinSent])
    else s
  }

  /** The four steps of one send event; None when Step 1 ends with the exception. */
  function SendRtl(saved: seq<Slot>, sendWindowStart: int, sendEmailLength: int, cwnd: int,
                   indexOf: int -> int, reply: Reply, s: Snapshot, now: int): Option<Snapshot>
    requires |s.ticks| == |saved|
    requires forall n :: indexOf(n) < |saved|
  {
    var afterNack := if IsNack(reply) then NackFrom(saved, s, 0, now) else Some(s);
    if afterNack.None? then None
    else
      var afterSend := SendFrom(saved, indexOf, WindowEnd(sendWindowStart, cwnd, sendEmailLength), afterNack.value, now);
      var afterTimeout := TimeoutFrom(saved, afterSend, 0, now);
      Some(FinStep(sendWindowStart, sendEmailLength, afterTimeout, now))
  }

  // ---------------------------------------------------------------------
  // Properties.
  // ---------------------------------------------------------------------

  /** `after` is `before` followed only by data transmissions of non-null slots. */
  predicate AppendsData(saved: seq<Slot>, before: seq<Transmission>, after: seq<Transmission>) {
    |before| <= |after| && after[..|before|] == before &&
    forall m | |before| <= m < |after| ::
      after[m].segment.DataSegment? && after[m] == DataSent(after[m].segment.slot) &&
      after[m].segment.slot < |saved| && saved[after[m].segment.slot].Saved?
  }

  /** From slot 1 on Step 1 cannot fail. */
  lemma {:induction false} NackFromLaterCompletes(saved: seq<Slot>, s: Snapshot, i: nat, now: int)
    requires |s.ticks| == |saved| && 1 <= i <= |saved|
    ensures NackFrom(saved, s, i, now).Some?
    decreases |saved| - i
  {
    if i < |saved| {
      if saved[i].Acked? {
        NackFromLaterCompletes(saved, s, i + 1, now);
      } else {
        NackFromLaterCompletes(saved, NackSlot(saved, s, i, now), i + 1, now);
      }
    }
  }

  /** Step 1 ends with the exception exactly when slot 0 is non-null and has a positive send time. */
  lemma NackOutOfBounds(saved: seq<Slot>, s: Snapshot, now: int)
    requires |s.ticks| == |saved|
    ensures NackFrom(saved, s, 0, now).None? <==> |saved| > 0 && saved[0].Saved? && s.ticks[0] > 0
  {
    if |saved| > 0 {
      if saved[0].Acked? {
        NackFromLaterCompletes(saved, s, 1, now);
      } else if s.ticks[0] <= 0 {
        NackFromLaterCompletes(saved, NackSlot(saved, s, 0, now), 1, now);
      }
    }
  }

  /**
    The corrected Step 1 does what the code does whenever the code
    completes, and keeps the send times of the slots before i.
   */
  lemma {:induction false} NackFromGuardedAgrees(saved: seq<Slot>, s: Snapshot, i: nat, now: int)
    requires |s.ticks| == |saved| && i <= |saved|
    ensures NackFrom(saved, s, i, now).Some? ==> NackFrom(saved, s, i, now).value == NackFromGuarded(saved, s, i, now)
    ensures forall j | 0 <= j < i :: NackFromGuarded(saved, s, i, now).ticks[j] == s.ticks[j]
    ensures var r := NackFromGuarded(saved, s, i, now);
      && |s.log| <= |r.log| && r.log[..|s.log|] == s.log
      && forall m | |s.log| <= m < |r.log| :: r.log[m].segment.DataSegment? && i <= r.log[m].segment.slot
    decreases |saved| - i
  {
    if i < |saved| {
      if saved[i].Acked? {
        NackFromGuardedAgrees(saved, s, i + 1, now);
      } else {
        var next := NackSlotGuarded(saved, s, i, now);
        NackFromGuardedAgrees(saved, next, i + 1, now);
        if i > 0 || s.ticks[i] <= 0 {
          assert next == NackSlot(saved, s, i, now);
        }
      }
    }
  }

  /**
    The corrected Step 1 completes on every buffer, never resends or
    re-stamps slot 0, and gives the code's result wherever the code does
    not fail.
   */
  lemma NackGuardedCompletes(saved: seq<Slot>, s: Snapshot, now: int)
    requires |s.ticks| == |saved|
    ensures NackFrom(saved, s, 0, now).Some? ==> NackFrom(saved, s, 0, now).value == NackFromGuarded(saved, s, 0, now)
    ensures |saved| > 0 ==> NackFromGuarded(saved, s, 0, now).ticks[0] == s.ticks[0]
    ensures var r := NackFromGuarded(saved, s, 0, now);
      forall m | |s.log| <= m < |r.log| :: r.log[m] != DataSent(0)
  {
    NackFromGuardedAgrees(saved, s, 0, now);
    if |saved| > 0 {
      var first := if saved[0].Acked? then s else NackSlotGuarded(saved, s, 0, now);
      assert NackFromGuarded(saved, s, 0, now) == NackFromGuarded(saved, first, 1, now);
      NackFromGuardedAgrees(saved, first, 1, now);
    }
  }

  /** With no non-null slot from i on, Step 1 changes nothing. */
  lemma {:induction false} NackFromIdle(saved: seq<Slot>, s: Snapshot, i: nat, now: int)
    requires |s.ticks| == |saved| && i <= |saved|
    requires forall j | i <= j < |saved| :: saved[j].Acked?
    ensures NackFrom(saved, s, i, now) == Some(s)
    decreases |saved| - i
  {
    if i < |saved| {
      NackFromIdle(saved, s, i + 1, now);
    }
  }

  /**
    After Step 1, rtt is the age of the send time of the highest non-null
    slot k, measured after any resend of k.
   */
  lemma {:induction false} NackRttOfLastSlot(saved: seq<Slot>, s: Snapshot, i: nat, now: int, k: nat)
    requires |s.ticks| == |saved| && i <= k < |saved|
    requires saved[k].Saved? && forall j | k < j < |saved| :: saved[j].Acked?
    requires NackFrom(saved, s, i, now).Some?
    ensures NackFrom(saved, s, i, now).value.rtt == now - NackFrom(saved, s, i, now).value.ticks[k]
    decreases |saved| - i
  {
    if saved[i].Acked? {
      NackRttOfLastSlot(saved, s, i + 1, now, k);
    } else if i == k {
      NackFromIdle(saved, NackSlot(saved, s, i, now), i + 1, now);
    } else {
      NackRttOfLastSlot(saved, NackSlot(saved, s, i, now), i + 1, now, k);
    }
  }

  /**
    Step 1 re-stamps only non-null slots and only with `now`, appends only
    data transmissions of non-null slots, and leaves lastCharSent and
    finSentTicks alone; with every slot null, rtt is left alone too.
   */
  lemma {:induction false} NackChanges(saved: seq<Slot>, s: Snapshot, i: nat, now: int)
    requires |s.ticks| == |saved| && i <= |saved|
    requires NackFrom(saved, s, i, now).Some?
    ensures var r := NackFrom(saved, s, i, now).value;
      && |r.ticks| == |saved|
      && r.lastCharSent == s.lastCharSent && r.finSentTicks == s.finSentTicks
      && (forall j | 0 <= j < |saved| :: r.ticks[j] == s.ticks[j] || (saved[j].Saved? && r.ticks[j] == now))
      && AppendsData(saved, s.log, r.log)
      && ((forall j | i <= j < |saved| :: saved[j].Acked?) ==> r.rtt == s.rtt)
    decreases |saved| - i
  {
    if i < |saved| {
      if saved[i].Acked? {
        NackChanges(saved, s, i + 1, now);
      } else {
        var s1 := NackSlot(saved, s, i, now);
        NackChanges(saved, s1, i + 1, now);
        var r := NackFrom(saved, s, i, now).value;
        assert r.log[..|s1.log|] == s1.log;
        assert r.log[..|s.log|] == s1.log[..|s.log|];
      }
    }
  }

  /** Step 1 re-stamps only the slots it resends: every other send time stays. */
  lemma {:induction false} NackKeepsUnsent(saved: seq<Slot>, s: Snapshot, i: nat, now: int)
    requires |s.ticks| == |saved| && i <= |saved|
    requires NackFrom(saved, s, i, now).Some?
    ensures var r := NackFrom(saved, s, i, now).value;
      forall j | 0 <= j < |saved| && DataSent(j) !in r.log[|s.log|..] :: r.ticks[j] == s.ticks[j]
    decreases |saved| - i
  {
    if i < |saved| {
      if saved[i].Acked? {
        NackKeepsUnsent(saved, s, i + 1, now);
      } else {
        var s1 := NackSlot(saved, s, i, now);
        NackKeepsUnsent(saved, s1, i + 1, now);
        NackChanges(saved, s1, i + 1, now);
        var r := NackFrom(saved, s, i, now).value;
        assert r.log[|s.log|..] == s1.log[|s.log|..] + r.log[|s1.log|..] by {
          assert r.log[..|s1.log|] == s1.log;
        }
        if s1.ticks[i] != s.ticks[i] {
          assert s1.log[|s.log|..] == [DataSent(i)];
        }
      }
    }
  }

  /** Total payload of the data transmissions in a log. */
  function PayloadTotal(saved: seq<Slot>, log: seq<Transmission>): int {
    if |log| == 0 then 0
    else
      var seg := log[0].segment;
      (if seg.DataSegment? && seg.slot < |saved| then PayloadSize(saved[seg.slot]) else 0)
      + PayloadTotal(saved, log[1..])
  }

  /**
    The Step 2 loop stops only at the window end, a negative slot index or
    a payload that is not positive; it sends nothing when the window is
    already used up; rtt and finSentTicks stay, and only a non-null slot's
    send time can change, to `now`.
   */
  lemma {:induction false} SendFromStops(saved: seq<Slot>, indexOf: int -> int, windowEnd: int, s: Snapshot, now: int)
    requires |s.ticks| == |saved|
    requires forall n :: indexOf(n) < |saved|
    ensures var r := SendFrom(saved, indexOf, windowEnd, s, now);
      && r.rtt == s.rtt && r.finSentTicks == s.finSentTicks
      && (s.lastCharSent >= windowEnd ==> r == s)
      && (r.lastCharSent >= windowEnd || indexOf(r.lastCharSent + 1) < 0
          || PayloadSize(saved[indexOf(r.lastCharSent + 1)]) <= 0)
      && (forall j | 0 <= j < |saved| :: r.ticks[j] == s.ticks[j] || (saved[j].Saved? && r.ticks[j] == now))
    decreases windowEnd - s.lastCharSent
  {
    if s.lastCharSent < windowEnd {
      var index := indexOf(s.lastCharSent + 1);
      if index >= 0 && PayloadSize(saved[index]) > 0 {
        var s1 := SendOne(saved, s, index, now);
        SendFromStops(saved, indexOf, windowEnd, s1, now);
      }
    }
  }

  /**
    The Step 2 loop appends only data transmissions of non-null slots,
    each of a positive payload.
   */
  lemma {:induction false} SendFromLog(saved: seq<Slot>, indexOf: int -> int, windowEnd: int, s: Snapshot, now: int)
    requires |s.ticks| == |saved|
    requires forall n :: indexOf(n) < |saved|
    ensures var r := SendFrom(saved, indexOf, windowEnd, s, now);
      && AppendsData(saved, s.log, r.log)
      && (forall m | |s.log| <= m < |r.log| :: PayloadSize(saved[r.log[m].segment.slot]) > 0)
    decreases windowEnd - s.lastCharSent
  {
    if s.lastCharSent < windowEnd {
      var index := indexOf(s.lastCharSent + 1);
      if index >= 0 && PayloadSize(saved[index]) > 0 {
        var s1 := SendOne(saved, s, index, now);
        SendFromLog(saved, indexOf, windowEnd, s1, now);
        var r := SendFrom(saved, indexOf, windowEnd, s1, now);
        assert r.log[..|s1.log|] == s1.log;
        assert r.log[..|s.log|] == s1.log[..|s.log|];
      }
    }
  }

  /** The Step 2 loop stamps only the slots it sends: every other send time stays. */
  lemma {:induction false} SendFromKeepsUnsent(saved: seq<Slot>, indexOf: int -> int, windowEnd: int, s: Snapshot, now: int)
    requires |s.ticks| == |saved|
    requires forall n :: indexOf(n) < |saved|
    ensures var r := SendFrom(saved, indexOf, windowEnd, s, now);
      forall j | 0 <= j < |saved| && DataSent(j) !in r.log[|s.log|..] :: r.ticks[j] == s.ticks[j]
    decreases windowEnd - s.lastCharSent
  {
    if s.lastCharSent < windowEnd {
      var index := indexOf(s.lastCharSent + 1);
      if index >= 0 && PayloadSize(saved[index]) > 0 {
        var s1 := SendOne(saved, s, index, now);
        SendFromKeepsUnsent(saved, indexOf, windowEnd, s1, now);
        SendFromLog(saved, indexOf, windowEnd, s1, now);
        var r := SendFrom(saved, indexOf, windowEnd, s1, now);
        assert r.log[|s.log|..] == [DataSent(index)] + r.log[|s1.log|..] by {
          assert r.log[..|s1.log|] == s1.log;
        }
      }
    }
  }

  /** In the Step 2 loop lastCharSent grows by exactly the payloads of the segments sent. */
  lemma {:induction false} SendFromAdvance(saved: seq<Slot>, indexOf: int -> int, windowEnd: int, s: Snapshot, now: int)
    requires |s.ticks| == |saved|
    requires forall n :: indexOf(n) < |saved|
    ensures var r := SendFrom(saved, indexOf, windowEnd, s, now);
      r.lastCharSent == s.lastCharSent + PayloadTotal(saved, r.log[|s.log|..])
    decreases windowEnd - s.lastCharSent
  {
    if s.lastCharSent < windowEnd {
      var index := indexOf(s.lastCharSent + 1);
      if index >= 0 && PayloadSize(saved[index]) > 0 {
        var s1 := SendOne(saved, s, index, now);
        SendFromAdvance(saved, indexOf, windowEnd, s1, now);
        SendFromLog(saved, indexOf, windowEnd, s1, now);
        var r := SendFrom(saved, indexOf, windowEnd, s1, now);
        assert r.log[|s.log|..] == [DataSent(index)] + r.log[|s1.log|..] by {
          assert r.log[..|s1.log|] == s1.log;
        }
      }
    }
  }

  /** Every transmission after position `start` of the log is of a data segment whose send time is `now`. */
  predicate StampedAfter(saved: seq<Slot>, start: nat, r: Snapshot, now: int)
    requires |r.ticks| == |saved|
  {
    forall m | start <= m < |r.log| ::
      r.log[m].segment.DataSegment? && r.log[m].segment.slot < |saved| && r.ticks[r.log[m].segment.slot] == now
  }

  /** Every segment the Step 2 loop sends has its send time set to `now`. */
  lemma {:induction false} SendFromStamps(saved: seq<Slot>, indexOf: int -> int, windowEnd: int, s: Snapshot, now: int)
    requires |s.ticks| == |saved|
    requires forall n :: indexOf(n) < |saved|
    ensures StampedAfter(saved, |s.log|, SendFrom(saved, indexOf, windowEnd, s, now), now)
    decreases windowEnd - s.lastCharSent
  {
    if s.lastCharSent < windowEnd {
      var index := indexOf(s.lastCharSent + 1);
      if index >= 0 && PayloadSize(saved[index]) > 0 {
        var s1 := SendOne(saved, s, index, now);
        var r := SendFrom(saved, indexOf, windowEnd, s1, now);
        assert r == SendFrom(saved, indexOf, windowEnd, s, now);
        SendFromStamps(saved, indexOf, windowEnd, s1, now);
        forall m | |s.log| <= m < |r.log|
          ensures r.log[m].segment.DataSegment? && r.log[m].segment.slot < |saved| && r.ticks[r.log[m].segment.slot] == now
        {
          if m == |s.log| {
            SendFromStops(saved, indexOf, windowEnd, s1, now);
            SendFromLog(saved, indexOf, windowEnd, s1, now);
            assert r.log[m] == DataSent(index) by {
              assert r.log[..|s1.log|] == s1.log;
              assert s1.log[m] == DataSent(index);
            }
            assert r.ticks[index] == now;
          }
        }
      }
    }
  }

  /** lastCharSent never decreases in Step 2. */
  lemma SendFromMonotone(saved: seq<Slot>, indexOf: int -> int, windowEnd: int, s: Snapshot, now: int)
    requires |s.ticks| == |saved|
    requires forall n :: indexOf(n) < |saved|
    ensures SendFrom(saved, indexOf, windowEnd, s, now).lastCharSent >= s.lastCharSent
  {
    SendFromLog(saved, indexOf, windowEnd, s, now);
    SendFromAdvance(saved, indexOf, windowEnd, s, now);
    var r := SendFrom(saved, indexOf, windowEnd, s, now);
    PayloadTotalPositive(saved, r.log[|s.log|..]);
  }

  /** A log of data transmissions of slots with positive payloads has a non-negative total. */
  lemma {:induction false} PayloadTotalPositive(saved: seq<Slot>, log: seq<Transmission>)
    requires forall m | 0 <= m < |log| ::
      log[m].segment.DataSegment? && log[m].segment.slot < |saved| && PayloadSize(saved[log[m].segment.slot]) > 0
    ensures PayloadTotal(saved, log) >= 0
    ensures |log| > 0 ==> PayloadTotal(saved, log) > 0
  {
    if |log| > 0 {
      PayloadTotalPositive(saved, log[1..]);
    }
  }

  /**
    Step 3 from slot i: exactly the timed-out slots at or above i are
    re-stamped `now`; no other send time changes, and rtt, lastCharSent
    and finSentTicks stay.
   */
  lemma {:induction false} TimeoutFromTicks(saved: seq<Slot>, s: Snapshot, i: nat, now: int)
    requires |s.ticks| == |saved| && i <= |saved|
    ensures var r := TimeoutFrom(saved, s, i, now);
      && r.rtt == s.rtt && r.lastCharSent == s.lastCharSent && r.finSentTicks == s.finSentTicks
      && (forall j | 0 <= j < |saved| ::
            r.ticks[j] == if i <= j && TimedOut(saved, s.ticks, s.rtt, j, now) then now else s.ticks[j])
    decreases |saved| - i
  {
    if i < |saved| {
      if TimedOut(saved, s.ticks, s.rtt, i, now) {
        var s1 := s.(ticks := s.ticks[i := now], log := s.log + [DataSent(i)]);
        TimeoutFromTicks(saved, s1, i + 1, now);
        forall j | 0 <= j < |saved| && i < j
          ensures TimedOut(saved, s1.ticks, s1.rtt, j, now) == TimedOut(saved, s.ticks, s.rtt, j, now)
        {
        }
      } else {
        TimeoutFromTicks(saved, s, i + 1, now);
      }
    }
  }

  /**
    Step 3 from slot i sends only timed-out slots at or above i, in
    increasing slot order, so each at most once.
   */
  lemma {:induction false} TimeoutFromSendsTimedOut(saved: seq<Slot>, s: Snapshot, i: nat, now: int)
    requires |s.ticks| == |saved| && i <= |saved|
    ensures var r := TimeoutFrom(saved, s, i, now);
      && AppendsData(saved, s.log, r.log)
      && (forall m | |s.log| <= m < |r.log| ::
            i <= r.log[m].segment.slot && TimedOut(saved, s.ticks, s.rtt, r.log[m].segment.slot, now))
      && (forall m, n | |s.log| <= m < n < |r.log| :: r.log[m].segment.slot < r.log[n].segment.slot)
    decreases |saved| - i
  {
    if i < |saved| {
      if TimedOut(saved, s.ticks, s.rtt, i, now) {
        var s1 := s.(ticks := s.ticks[i := now], log := s.log + [DataSent(i)]);
        TimeoutFromSendsTimedOut(saved, s1, i + 1, now);
        var r := TimeoutFrom(saved, s, i, now);
        assert r == TimeoutFrom(saved, s1, i + 1, now);
        assert r.log[..|s1.log|] == s1.log;
        assert r.log[..|s.log|] == s1.log[..|s.log|];
        assert r.log[|s.log|] == DataSent(i);
      } else {
        TimeoutFromSendsTimedOut(saved, s, i + 1, now);
      }
    }
  }

  /** Step 3 from slot i sends every timed-out slot at or above i. */
  lemma {:induction false} TimeoutFromSendsAll(saved: seq<Slot>, s: Snapshot, i: nat, now: int)
    requires |s.ticks| == |saved| && i <= |saved|
    ensures var r := TimeoutFrom(saved, s, i, now);
      forall j | i <= j < |saved| && TimedOut(saved, s.ticks, s.rtt, j, now) :: DataSent(j) in r.log[|s.log|..]
    decreases |saved| - i
  {
    if i < |saved| {
      var r := TimeoutFrom(saved, s, i, now);
      if TimedOut(saved, s.ticks, s.rtt, i, now) {
        var s1 := s.(ticks := s.ticks[i := now], log := s.log + [DataSent(i)]);
        TimeoutFromSendsAll(saved, s1, i + 1, now);
        TimeoutFromSendsTimedOut(saved, s1, i + 1, now);
        assert r == TimeoutFrom(saved, s1, i + 1, now);
        forall j | i <= j < |saved| && TimedOut(saved, s.ticks, s.rtt, j, now)
          ensures DataSent(j) in r.log[|s.log|..]
        {
          if j == i {
            assert r.log[|s.log|..][0] == r.log[|s.log|] == s1.log[|s.log|];
          } else {
            assert TimedOut(saved, s1.ticks, s1.rtt, j, now);
            assert r.log[|s1.log|..] == r.log[|s.log|..][1..];
          }
        }
      } else {
        TimeoutFromSendsAll(saved, s, i + 1, now);
      }
    }
  }

  /**
    After Step 3 no non-null slot is older than rtt (given rtt >= 0), and
    the send times of null slots are untouched.
   */
  lemma TimeoutLeavesNoStaleSlot(saved: seq<Slot>, s: Snapshot, now: int)
    requires |s.ticks| == |saved| && s.rtt >= 0
    ensures var r := TimeoutFrom(saved, s, 0, now);
      && (forall j | 0 <= j < |saved| && saved[j].Saved? :: now - r.ticks[j] <= r.rtt)
      && (forall j | 0 <= j < |saved| && saved[j].Acked? :: r.ticks[j] == s.ticks[j])
  {
    TimeoutFromTicks(saved, s, 0, now);
  }

  /** With rtt >= 0, no segment sent in Step 2 is retransmitted in Step 3 of the same event. */
  lemma SentSegmentNotRetransmitted(saved: seq<Slot>, indexOf: int -> int, windowEnd: int, s: Snapshot, now: int)
    requires |s.ticks| == |saved| && s.rtt >= 0
    requires forall n :: indexOf(n) < |saved|
    ensures var s2 := SendFrom(saved, indexOf, windowEnd, s, now);
      var s3 := TimeoutFrom(saved, s2, 0, now);
      forall m | |s.log| <= m < |s2.log| :: s2.log[m] !in s3.log[|s2.log|..]
  {
    var s2 := SendFrom(saved, indexOf, windowEnd, s, now);
    var s3 := TimeoutFrom(saved, s2, 0, now);
    SendFromStamps(saved, indexOf, windowEnd, s, now);
    SendFromStops(saved, indexOf, windowEnd, s, now);
    TimeoutFromSendsTimedOut(saved, s2, 0, now);
    forall m | |s.log| <= m < |s2.log|
      ensures s2.log[m] !in s3.log[|s2.log|..]
    {
      var slot := s2.log[m].segment.slot;
      assert !TimedOut(saved, s2.ticks, s2.rtt, slot, now);
      var added := s3.log[|s2.log|..];
      assert forall k | 0 <= k < |added| :: added[k] == s3.log[|s2.log| + k] && added[k].segment.slot != slot;
    }
  }

  /** Step 4 sends FIN and stamps finSentTicks exactly when sendWindowStart >= sendEmailLength. */
  lemma FinSentExactlyWhenDone(sendWindowStart: int, sendEmailLength: int, s: Snapshot, now: int)
    ensures var r := FinStep(sendWindowStart, sendEmailLength, s, now);
      && (sendWindowStart >= sendEmailLength <==> |r.log| == |s.log| + 1)
      && (sendWindowStart >= sendEmailLength ==> r.log == s.log + [FinSent] && r.finSentTicks == now)
      && (sendWindowStart < sendEmailLength ==> r == s)
      && r.ticks == s.ticks && r.lastCharSent == s.lastCharSent && r.rtt == s.rtt
  {
  }

  /**
    Step 1 keeps send times in the past and rtt non-negative: a re-stamped
    slot gets `now`, and rtt becomes the age of a send time.
   */
  lemma NackKeepsTimesPast(saved: seq<Slot>, s: Snapshot, now: int)
    requires |s.ticks| == |saved| && s.rtt >= 0
    requires forall j | 0 <= j < |saved| :: s.ticks[j] <= now
    requires NackFrom(saved, s, 0, now).Some?
    ensures var r := NackFrom(saved, s, 0, now).value;
      && r.rtt >= 0
      && (forall j | 0 <= j < |saved| :: r.ticks[j] <= now)
      && (forall j | 0 <= j < |saved| && saved[j].Acked? :: r.ticks[j] == s.ticks[j])
  {
    NackChanges(saved, s, 0, now);
    if exists k :: 0 <= k < |saved| && saved[k].Saved? {
      var k := LastSaved(saved);
      NackRttOfLastSlot(saved, s, 0, now, k);
    }
  }

  /** The whole event ends with the exception exactly when Step 1 runs and slot 0 is non-null with a positive send time. */
  lemma SendRtlAborts(saved: seq<Slot>, sendWindowStart: int, sendEmailLength: int, cwnd: int,
                      indexOf: int -> int, reply: Reply, s: Snapshot, now: int)
    requires |s.ticks| == |saved|
    requires forall n :: indexOf(n) < |saved|
    ensures SendRtl(saved, sendWindowStart, sendEmailLength, cwnd, indexOf, reply, s, now).None?
            <==> IsNack(reply) && |saved| > 0 && saved[0].Saved? && s.ticks[0] > 0
  {
    NackOutOfBounds(saved, s, now);
  }

  /**
    A completed event, started with all send times in the past and
    rtt >= 0, leaves every send time in the past, rtt >= 0, every non-null
    slot sent at most rtt ticks ago, null slots with their send times, and
    lastCharSent not decreased.
   */
  lemma SendRtlKeepsTimes(saved: seq<Slot>, sendWindowStart: int, sendEmailLength: int, cwnd: int,
                          indexOf: int -> int, reply: Reply, s: Snapshot, now: int)
    requires |s.ticks| == |saved|
    requires forall n :: indexOf(n) < |saved|
    requires forall j | 0 <= j < |saved| :: s.ticks[j] <= now
    requires s.rtt >= 0
    requires SendRtl(saved, sendWindowStart, sendEmailLength, cwnd, indexOf, reply, s, now).Some?
    ensures var r := SendRtl(saved, sendWindowStart, sendEmailLength, cwnd, indexOf, reply, s, now).value;
      && |r.ticks| == |saved|
      && r.rtt >= 0
      && (forall j | 0 <= j < |saved| :: r.ticks[j] <= now)
      && (forall j | 0 <= j < |saved| && saved[j].Saved? :: now - r.ticks[j] <= r.rtt)
      && (forall j | 0 <= j < |saved| && saved[j].Acked? :: r.ticks[j] == s.ticks[j])
      && r.lastCharSent >= s.lastCharSent
  {
    var s1 := if IsNack(reply) then NackFrom(saved, s, 0, now).value else s;
    if IsNack(reply) {
      NackKeepsTimesPast(saved, s, now);
      NackChanges(saved, s, 0, now);
    }
    var windowEnd := WindowEnd(sendWindowStart, cwnd, sendEmailLength);
    var s2 := SendFrom(saved, indexOf, windowEnd, s1, now);
    SendFromStops(saved, indexOf, windowEnd, s1, now);
    SendFromMonotone(saved, indexOf, windowEnd, s1, now);
    TimeoutFromTicks(saved, s2, 0, now);
  }

  /**
    A completed event sends FIN, as its last transmission, exactly when
    sendWindowStart >= sendEmailLength, and then stamps finSentTicks.
   */
  lemma SendRtlFin(saved: seq<Slot>, sendWindowStart: int, sendEmailLength: int, cwnd: int,
                   indexOf: int -> int, reply: Reply, s: Snapshot, now: int)
    requires |s.ticks| == |saved|
    requires forall n :: indexOf(n) < |saved|
    requires SendRtl(saved, sendWindowStart, sendEmailLength, cwnd, indexOf, reply, s, now).Some?
    ensures var r := SendRtl(saved, sendWindowStart, sendEmailLength, cwnd, indexOf, reply, s, now).value;
      && |s.log| <= |r.log|
      && (sendWindowStart >= sendEmailLength <==> FinSent in r.log[|s.log|..])
      && (sendWindowStart >= sendEmailLength ==> r.log[|r.log| - 1] == FinSent && r.finSentTicks == now)
  {
    var s1 := if IsNack(reply) then NackFrom(saved, s, 0, now).value else s;
    var windowEnd := WindowEnd(sendWindowStart, cwnd, sendEmailLength);
    var s2 := SendFrom(saved, indexOf, windowEnd, s1, now);
    SendFromLog(saved, indexOf, windowEnd, s1, now);
    var s3 := TimeoutFrom(saved, s2, 0, now);
    TimeoutFromSendsTimedOut(saved, s2, 0, now);
    if IsNack(reply) {
      NackChanges(saved, s, 0, now);
      AppendsDataTrans(saved, s.log, s1.log, s2.log);
    }
    AppendsDataTrans(saved, s.log, s2.log, s3.log);
    if sendWindowStart < sendEmailLength {
      var added := s3.log[|s.log|..];
      assert forall m | 0 <= m < |added| :: added[m] == s3.log[|s.log| + m] && added[m] != FinSent;
    } else {
      var r := FinStep(sendWindowStart, sendEmailLength, s3, now);
      assert r.log[|s.log|..][|r.log| - 1 - |s.log|] == FinSent;
    }
  }

  /** Appending data twice appends data. */
  lemma AppendsDataTrans(saved: seq<Slot>, a: seq<Transmission>, b: seq<Transmission>, c: seq<Transmission>)
    requires AppendsData(saved, a, b) && AppendsData(saved, b, c)
    ensures AppendsData(saved, a, c)
  {
    assert c[..|a|] == c[..|b|][..|a|];
  }

  /** The highest non-null slot, when there is one. */
  function LastSaved(saved: seq<Slot>): (k: nat)
    requires exists k :: 0 <= k < |saved| && saved[k].Saved?
    ensures k < |saved| && saved[k].Saved?
    ensures forall j | k < j < |saved| :: saved[j].Acked?
  {
    if saved[|saved| - 1].Saved? then |saved| - 1
    else
      var k :| 0 <= k < |saved| && saved[k].Saved?;
      assert k < |saved| - 1;
      LastSaved(saved[..|saved| - 1])
  }

  // ---------------------------------------------------------------------
  // The sender.
  // ---------------------------------------------------------------------

  /** How a send event ended. */
  datatype Outcome = Completed | IndexOutOfBounds

  /** The sending side of the one transport connection. */
  class SendSegments {
    const saved: array<Slot>
    const ticks: array<int>
    const sendWindowStart: int
    const sendEmailLength: int
    var lastCharSent: int
    var rtt: int
    var finSentTicks: int
    /** Every call of sendNewSegment, in order. */
    ghost var sent: seq<Transmission>

    /** One send time per saved segment. */
    predicate Valid()
      reads this
    {
      ticks.Length == saved.Length
    }

    ghost function State(): Snapshot
      reads this, ticks
    {
      Snapshot(ticks[..], lastCharSent, rtt, finSentTicks, sent)
    }

    /** The state the superclass sets up before the first send event. */
    constructor (slots: array<Slot>, times: array<int>, windowStart: int, emailLength: int)
      requires times.Length == slots.Length
      ensures Valid()
      ensures saved == slots && ticks == times && sendWindowStart == windowStart && sendEmailLength == emailLength
      ensures lastCharSent == 0 && rtt == 0 && finSentTicks == 0 && sent == []
    {
      saved := slots;
      ticks := times;
      sendWindowStart := windowStart;
      sendEmailLength := emailLength;
      lastCharSent := 0;
      rtt := 0;
      finSentTicks := 0;
      sent := [];
    }

    /** sendNewSegment: the transmission is appended to the log; nothing else changes. */
    method SendNewSegment(t: Transmission)
      modifies this
      ensures lastCharSent == old(lastCharSent) && rtt == old(rtt) && finSentTicks == old(finSentTicks)
      ensures sent == old(sent) + [t]
    {
      sent := sent + [t];
    }

    /** Step 1, proved against NackFrom. */
    method ResendNacked(now: int) returns (outcome: Outcome)
      requires Valid()
      modifies this, ticks
      ensures outcome == Completed <==> NackFrom(saved[..], old(State()), 0, now).Some?
      ensures outcome == Completed ==> State() == NackFrom(saved[..], old(State()), 0, now).value
      ensures outcome == IndexOutOfBounds ==> State() == old(State())
    {
      ghost var slots := saved[..];
      ghost var target := NackFrom(slots, State(), 0, now);
      var i := 0;
      while i < saved.Length
        invariant 0 <= i <= saved.Length
        invariant saved[..] == slots
        invariant NackFrom(slots, State(), i, now) == target
        invariant i == 0 ==> State() == old(State())
      {
        if saved[i].Saved? {
          if ticks[i] > 0 {
            if i == 0 {
              // the send time of slot i - 1 does not exist
              return IndexOutOfBounds;
            }
          }
          ghost var next := NackSlot(slots, State(), i, now);
          assert NackFrom(slots, next, i + 1, now) == target;
          if ticks[i] > 0 {
            if now - ticks[i - 1] > 2 * (now - ticks[i]) {
              SendNewSegment(DataSent(i));
              ticks[i] := now;
            }
          }
          rtt := now - ticks[i];
          assert ticks[..] == next.ticks;
          assert State() == next;
        }
        i := i + 1;
      }
      return Completed;
    }

    /** Step 2, proved against SendFrom. */
    method SendWindow(now: int, cwnd: int, indexOf: int -> int)
      requires Valid()
      requires forall n :: indexOf(n) < saved.Length
      modifies this, ticks
      ensures State() == SendFrom(saved[..], indexOf, WindowEnd(sendWindowStart, cwnd, sendEmailLength), old(State()), now)
    {
      var windowEnd := sendWindowStart + cwnd - 1;
      if windowEnd > sendEmailLength {
        windowEnd := sendEmailLength;
      }
      ghost var slots := saved[..];
      ghost var target := SendFrom(slots, indexOf, windowEnd, State(), now);
      while lastCharSent < windowEnd
        invariant saved[..] == slots
        invariant SendFrom(slots, indexOf, windowEnd, State(), now) == target
        decreases windowEnd - lastCharSent
      {
        var index := indexOf(lastCharSent + 1);
        if index < 0 {
          break;
        }
        var segment := saved[index];
        if PayloadSize(segment) <= 0 {
          break;
        }
        ghost var before := State();
        ghost var next := SendOne(slots, before, index, now);
        assert SendFrom(slots, indexOf, windowEnd, next, now) == target;
        SendNewSegment(DataSent(index));
        lastCharSent := lastCharSent + PayloadSize(segment);
        ticks[index] := now;
        assert ticks[..] == next.ticks;
        assert State() == next;
      }
    }

    /** Step 3, proved against TimeoutFrom. */
    method ResendTimedOut(now: int)
      requires Valid()
      modifies this, ticks
      ensures State() == TimeoutFrom(saved[..], old(State()), 0, now)
    {
      for i := 0 to saved.Length
        invariant TimeoutFrom(saved[..], State(), i, now) == TimeoutFrom(saved[..], old(State()), 0, now)
      {
        if saved[i].Saved? {
          if now - ticks[i] > rtt {
            SendNewSegment(DataSent(i));
            ticks[i] := now;
          }
        }
      }
    }

    /** Step 4, proved against FinStep. */
    method SendFin(now: int)
      requires Valid()
      modifies this
      ensures State() == FinStep(sendWindowStart, sendEmailLength, old(State()), now)
    {
      if sendWindowStart >= sendEmailLength {
        SendNewSegment(FinSent);
        finSentTicks := now;
      }
    }

    /**
      sendRtlSegments: the four steps, proved against SendRtl. The saved
      slots, sendWindowStart and sendEmailLength are never written.
     */
    method SendRtlSegments(reply: Reply, now: int, cwnd: int, indexOf: int -> int) returns (outcome: Outcome)
      requires Valid()
      requires forall n :: indexOf(n) < saved.Length
      modifies this, ticks
      ensures outcome == Completed
              <==> SendRtl(saved[..], sendWindowStart, sendEmailLength, cwnd, indexOf, reply, old(State()), now).Some?
      ensures outcome == Completed
              ==> State() == SendRtl(saved[..], sendWindowStart, sendEmailLength, cwnd, indexOf, reply, old(State()), now).value
      ensures outcome == IndexOutOfBounds ==> State() == old(State())
    {
      if reply.Reply? {
        if reply.size > 0 {
          if reply.syn == 0 && reply.fin == 0 && reply.ack == 1 {
            outcome := ResendNacked(now);
            if outcome == IndexOutOfBounds {
              return;
            }
          }
        }
      }
      SendWindow(now, cwnd, indexOf);
      ResendTimedOut(now);
      SendFin(now);
      outcome := Completed;
    }
  }
}
