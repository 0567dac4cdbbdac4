/**
  Sliding-window arithmetic of the Go-Back-N data-link ARQ.

  Sequence numbers are Java `byte`s taken modulo the counter range
  DL_WINDOW_MAX (here `windowMax`, M); at most DL_WINDOW_FRAMES (here
  `windowFrames`, W) frames may be outstanding. Both constants are
  parameters, with 0 < W <= M. The helpers are modelled as written; where
  the code differs from what its documentation promises, the promised
  behaviour is a separate definition and a lemma shows the difference.
 */
module GoBackN {

  import opened Arithmetic

  /** Java's `byte`. */
  type Byte = x: int | -128 <= x < 128

  /** The window constants the helpers are used with. */
  predicate ValidWindow(windowMax: int, windowFrames: int) {
    0 < windowFrames <= windowMax
  }

  /** A sequence number of the counter range [0, M). */
  predicate InRange(windowMax: int, n: int) {
    0 <= n < windowMax
  }

  /**
    Reference definition: how many sequence numbers lie from `a` (included)
    up to `b` (excluded), counting forward with wraparound modulo M.
   */
  function Distance(windowMax: int, a: int, b: int): (d: int)
    requires windowMax > 0
    ensures 0 <= d < windowMax
  {
    (b - a) % windowMax
  }

  // ---------------------------------------------------------------------
  // The helpers, as written.
  // ---------------------------------------------------------------------

  /** LTwindow: the range from nMin to nMax is smaller than the window. */
  predicate LtWindow(windowMax: int, windowFrames: int, nMin: Byte, nMax: Byte) {
    var testMax := if nMin > nMax then nMax + windowMax else nMax;
    testMax - nMin < windowFrames
  }

  /** INwindow: the range from nMin to nMax is within the window (may equal it). */
  predicate InWindow(windowMax: int, windowFrames: int, nMin: Byte, nMax: Byte) {
    var testMax := if nMin > nMax then nMax + windowMax else nMax;
    testMax - nMin <= windowFrames
  }

  /** windowFull: the range from snMin to snMax has reached the window. */
  predicate WindowFull(windowMax: int, windowFrames: int, snMin: Byte, snMax: Byte) {
    var testMax := if snMin > snMax then snMax + windowMax else snMax;
    testMax - snMin >= windowFrames
  }

  /** framesRemainUnacked as written: both ends are non-zero. */
  predicate FramesRemainUnacked(snMin: Byte, snMax: Byte) {
    snMin != 0 && snMax != 0
  }

  /** Java's `%` on int: the remainder takes the sign of the dividend. */
  function JavaRem(a: int, b: int): (r: int)
    requires b > 0
    ensures a >= 0 ==> 0 <= r < b
    ensures a < 0 ==> -b < r <= 0
  {
    if a >= 0 then a % b else -((-a) % b)
  }

  /** Java's narrowing cast `(byte)`: keeps the low eight bits, two's complement. */
  function ToByte(x: int): (b: Byte)
    ensures (x - b) % 256 == 0
    ensures -128 <= x < 128 ==> b == x
  {
    (x + 128) % 256 - 128
  }

  /**
    incrementSNmax as written: `(byte)(SNmax++ % DL_WINDOW_MAX)`. The
    post-increment yields the value from before the increment, so the
    remainder is taken of `snMax` itself.
   */
  function IncrementSNmax(windowMax: int, snMax: Byte): Byte
    requires windowMax > 0
  {
    ToByte(JavaRem(snMax, windowMax))
  }

  /** updateSNmin: the acknowledged number becomes the new lower end. */
  function UpdateSNmin(newSNmin: Byte): Byte {
    newSNmin
  }

  /** updateRN: the received sequence number becomes the new RN. */
  function UpdateRN(receivedSN: Byte): Byte {
    receivedSN
  }

  /** acceptFrame as written: RN <= SN < RN + W in plain integers, with no wraparound. */
  predicate AcceptFrame(windowFrames: int, receivedSN: Byte, interfaceRN: Byte) {
    var windowEnd := interfaceRN + windowFrames;
    receivedSN >= interfaceRN && receivedSN < windowEnd
  }

  // ---------------------------------------------------------------------
  // What the documentation promises, where the code differs.
  // ---------------------------------------------------------------------

  /** Frames are outstanding exactly when the two ends differ. */
  predicate FramesOutstanding(snMin: Byte, snMax: Byte) {
    snMin != snMax
  }

  /** The next sequence number, modulo M. */
  function NextSN(windowMax: int, sn: int): (r: int)
    requires windowMax > 0
    ensures InRange(windowMax, r)
  {
    (sn + 1) % windowMax
  }

  /** The number `k` places after `n`, modulo M. */
  function Forward(windowMax: int, n: int, k: int): (r: int)
    requires windowMax > 0
    ensures InRange(windowMax, r)
  {
    (n + k) % windowMax
  }

  /** A frame is accepted when its number lies in [RN, RN + W) modulo M. */
  predicate AcceptInWindow(windowMax: int, windowFrames: int, receivedSN: Byte, interfaceRN: Byte)
    requires windowMax > 0
  {
    Distance(windowMax, interfaceRN, receivedSN) < windowFrames
  }

  // ---------------------------------------------------------------------
  // Properties.
  // ---------------------------------------------------------------------

  /** For numbers of the counter range, the forward distance is the plain difference, wrapped once. */
  lemma DistanceUnwrapped(windowMax: int, a: int, b: int)
    requires InRange(windowMax, a) && InRange(windowMax, b)
    ensures Distance(windowMax, a, b) == if a > b then b + windowMax - a else b - a
  {
    var d := b - a;
    var k := if a > b then d + windowMax else d;
    assert 0 <= k < windowMax;
    assert d == windowMax * (if a > b then -1 else 0) + k;
    ModUnique(d, windowMax, if a > b then -1 else 0, k);
  }

  /** Euclidean remainder is the unique r in [0, m) with x == m * q + r. */
  lemma ModUnique(x: int, m: int, q: int, r: int)
    requires m > 0 && 0 <= r < m && x == m * q + r
    ensures x % m == r
  {
    var q', r' := x / m, x % m;
    assert x == m * q' + r';
    if q' < q {
      MulGap(m, q', q);
    } else if q' > q {
      MulGap(m, q, q');
    }
  }

  /** LTwindow holds exactly when fewer than W numbers lie between its arguments. */
  lemma LtWindowIsDistanceBelow(windowMax: int, windowFrames: int, a: Byte, b: Byte)
    requires ValidWindow(windowMax, windowFrames) && InRange(windowMax, a) && InRange(windowMax, b)
    ensures LtWindow(windowMax, windowFrames, a, b) <==> Distance(windowMax, a, b) < windowFrames
  {
    DistanceUnwrapped(windowMax, a, b);
  }

  /** INwindow holds exactly when at most W numbers lie between its arguments. */
  lemma InWindowIsDistanceAtMost(windowMax: int, windowFrames: int, a: Byte, b: Byte)
    requires ValidWindow(windowMax, windowFrames) && InRange(windowMax, a) && InRange(windowMax, b)
    ensures InWindow(windowMax, windowFrames, a, b) <==> Distance(windowMax, a, b) <= windowFrames
  {
    DistanceUnwrapped(windowMax, a, b);
  }

  /** LTwindow implies INwindow, and the two differ exactly when the distance is W. */
  lemma LtAndInWindowDiffer(windowMax: int, windowFrames: int, a: Byte, b: Byte)
    requires ValidWindow(windowMax, windowFrames) && InRange(windowMax, a) && InRange(windowMax, b)
    ensures LtWindow(windowMax, windowFrames, a, b) ==> InWindow(windowMax, windowFrames, a, b)
    ensures LtWindow(windowMax, windowFrames, a, b) != InWindow(windowMax, windowFrames, a, b)
            <==> Distance(windowMax, a, b) == windowFrames
  {
    LtWindowIsDistanceBelow(windowMax, windowFrames, a, b);
    InWindowIsDistanceAtMost(windowMax, windowFrames, a, b);
  }

  /** windowFull is the negation of LTwindow, for every pair of bytes. */
  lemma WindowFullIsNotLtWindow(windowMax: int, windowFrames: int, a: Byte, b: Byte)
    ensures WindowFull(windowMax, windowFrames, a, b) == !LtWindow(windowMax, windowFrames, a, b)
  {
  }

  /** The window is full exactly when W or more numbers are outstanding; it is never full when empty. */
  lemma WindowFullIsDistanceAtLeast(windowMax: int, windowFrames: int, a: Byte, b: Byte)
    requires ValidWindow(windowMax, windowFrames) && InRange(windowMax, a) && InRange(windowMax, b)
    ensures WindowFull(windowMax, windowFrames, a, b) <==> Distance(windowMax, a, b) >= windowFrames
    ensures !WindowFull(windowMax, windowFrames, a, a)
  {
    DistanceUnwrapped(windowMax, a, b);
  }

  /** The corrected test: frames are outstanding exactly when the forward distance is not zero. */
  lemma FramesOutstandingIsDistancePositive(windowMax: int, a: Byte, b: Byte)
    requires InRange(windowMax, a) && InRange(windowMax, b)
    ensures FramesOutstanding(a, b) <==> Distance(windowMax, a, b) > 0
    ensures !FramesOutstanding(0, 0)
  {
    DistanceUnwrapped(windowMax, a, b);
  }

  /**
    framesRemainUnacked as written agrees on the idle state (0, 0) but
    answers false when frames 0 .. n-1 are outstanding from SNmin = 0, and
    true when SNmin = SNmax != 0 and nothing is outstanding.
   */
  lemma FramesRemainUnackedMisses(windowMax: int, n: Byte)
    requires InRange(windowMax, n) && n != 0
    ensures !FramesRemainUnacked(0, 0) && !FramesOutstanding(0, 0)
    ensures !FramesRemainUnacked(0, n) && Distance(windowMax, 0, n) == n
    ensures FramesRemainUnacked(n, n) && Distance(windowMax, n, n) == 0
  {
    DistanceUnwrapped(windowMax, 0, n);
    DistanceUnwrapped(windowMax, n, n);
  }

  /** incrementSNmax as written returns its argument: it never advances SNmax. */
  lemma IncrementSNmaxIsIdentity(windowMax: int, sn: Byte)
    requires InRange(windowMax, sn)
    ensures IncrementSNmax(windowMax, sn) == sn
    ensures windowMax > 1 ==> IncrementSNmax(windowMax, sn) != NextSN(windowMax, sn)
  {
    ModUnique(sn, windowMax, 0, sn);
    if windowMax > 1 {
      if sn + 1 < windowMax {
        ModUnique(sn + 1, windowMax, 0, sn + 1);
      } else {
        ModUnique(sn + 1, windowMax, 1, 0);
      }
    }
  }

  /** The corrected increment adds one outstanding frame to a window that is not yet wrapped around. */
  lemma NextSNAddsOneFrame(windowMax: int, snMin: int, snMax: int)
    requires InRange(windowMax, snMin) && InRange(windowMax, snMax)
    requires Distance(windowMax, snMin, snMax) < windowMax - 1
    ensures Distance(windowMax, snMin, NextSN(windowMax, snMax)) == Distance(windowMax, snMin, snMax) + 1
  {
    var next := NextSN(windowMax, snMax);
    if snMax + 1 < windowMax {
      ModUnique(snMax + 1, windowMax, 0, snMax + 1);
    } else {
      ModUnique(snMax + 1, windowMax, 1, 0);
    }
    DistanceUnwrapped(windowMax, snMin, snMax);
    DistanceUnwrapped(windowMax, snMin, next);
  }

  /**
    A cumulative acknowledgement: when the acknowledged number r lies
    between SNmin and SNmax, SNmin := updateSNmin(r) leaves exactly the
    frames from r on outstanding.
   */
  lemma CumulativeAckShrinksWindow(windowMax: int, snMin: Byte, r: Byte, snMax: Byte)
    requires InRange(windowMax, snMin) && InRange(windowMax, r) && InRange(windowMax, snMax)
    requires Distance(windowMax, snMin, r) <= Distance(windowMax, snMin, snMax)
    ensures Distance(windowMax, UpdateSNmin(r), snMax)
            == Distance(windowMax, snMin, snMax) - Distance(windowMax, snMin, r)
  {
    DistanceUnwrapped(windowMax, snMin, r);
    DistanceUnwrapped(windowMax, snMin, snMax);
    DistanceUnwrapped(windowMax, r, snMax);
  }

  /** After a frame is accepted, updateRN moves RN forward by fewer than W numbers. */
  lemma UpdateRNStaysInWindow(windowMax: int, windowFrames: int, sn: Byte, rn: Byte)
    requires ValidWindow(windowMax, windowFrames) && InRange(windowMax, sn) && InRange(windowMax, rn)
    requires AcceptFrame(windowFrames, sn, rn)
    ensures Distance(windowMax, rn, UpdateRN(sn)) < windowFrames
  {
    DistanceUnwrapped(windowMax, rn, sn);
  }

  /**
    On the frame it expects (SN == RN), which acceptFrame always accepts,
    updateRN leaves RN where it was, whereas the receive algorithm
    increments RN modulo M after releasing such a frame.
   */
  lemma UpdateRNOnExpectedFrame(windowMax: int, windowFrames: int, rn: Byte)
    requires ValidWindow(windowMax, windowFrames) && InRange(windowMax, rn)
    ensures AcceptFrame(windowFrames, rn, rn) && UpdateRN(rn) == rn
    ensures windowMax > 1 ==> UpdateRN(rn) != NextSN(windowMax, rn)
  {
    if windowMax > 1 {
      if rn + 1 < windowMax {
        ModUnique(rn + 1, windowMax, 0, rn + 1);
      } else {
        ModUnique(rn + 1, windowMax, 1, 0);
      }
    }
  }

  /**
    acceptFrame as written accepts SN = RN, rejects every SN below RN, and
    never accepts a number the modular window rejects.
   */
  lemma AcceptFrameWithinModularWindow(windowMax: int, windowFrames: int, sn: Byte, rn: Byte)
    requires ValidWindow(windowMax, windowFrames) && InRange(windowMax, sn) && InRange(windowMax, rn)
    ensures AcceptFrame(windowFrames, rn, rn)
    ensures sn < rn ==> !AcceptFrame(windowFrames, sn, rn)
    ensures AcceptFrame(windowFrames, sn, rn) ==> AcceptInWindow(windowMax, windowFrames, sn, rn)
  {
    DistanceUnwrapped(windowMax, rn, sn);
  }

  /** The corrected test accepts exactly the W numbers RN, RN + 1, ..., RN + W - 1, taken modulo M. */
  lemma AcceptInWindowIsWindowFromRN(windowMax: int, windowFrames: int, sn: Byte, rn: Byte)
    requires ValidWindow(windowMax, windowFrames) && InRange(windowMax, sn) && InRange(windowMax, rn)
    ensures AcceptInWindow(windowMax, windowFrames, sn, rn)
            <==> exists k :: 0 <= k < windowFrames && sn == Forward(windowMax, rn, k)
  {
    DistanceUnwrapped(windowMax, rn, sn);
    var d := Distance(windowMax, rn, sn);
    ForwardUnwrapped(windowMax, rn, d);
    if exists k :: 0 <= k < windowFrames && sn == Forward(windowMax, rn, k) {
      var k :| 0 <= k < windowFrames && sn == Forward(windowMax, rn, k);
      ForwardUnwrapped(windowMax, rn, k);
    }
  }

  /** Within one turn of the counter, moving forward wraps at most once. */
  lemma ForwardUnwrapped(windowMax: int, n: int, k: int)
    requires InRange(windowMax, n) && 0 <= k < windowMax
    ensures Forward(windowMax, n, k) == if n + k < windowMax then n + k else n + k - windowMax
  {
    if n + k < windowMax {
      ModUnique(n + k, windowMax, 0, n + k);
    } else {
      ModUnique(n + k, windowMax, 1, n + k - windowMax);
    }
  }

  /** While the window [RN, RN + W) does not reach past M - 1, the written and the modular tests agree. */
  lemma AcceptFrameAgreesWithoutWrap(windowMax: int, windowFrames: int, sn: Byte, rn: Byte)
    requires ValidWindow(windowMax, windowFrames) && InRange(windowMax, sn) && InRange(windowMax, rn)
    requires rn + windowFrames <= windowMax
    ensures AcceptFrame(windowFrames, sn, rn) <==> AcceptInWindow(windowMax, windowFrames, sn, rn)
  {
    DistanceUnwrapped(windowMax, rn, sn);
  }

  /**
    Near the top of the range the written test rejects in-window numbers:
    with M = 8, W = 4 and RN = 6, the window is {6, 7, 0, 1} but frame 0 is refused.
   */
  lemma AcceptFrameMissesWrappedWindow()
    ensures AcceptInWindow(8, 4, 0, 6) && !AcceptFrame(4, 0, 6)
    ensures AcceptInWindow(8, 4, 1, 6) && !AcceptFrame(4, 1, 6)
  {
  }

  /** With M = 8, W = 4 and RN = 2, numbers 2 to 5 are accepted and 6, 7, 0, 1 are rejected, by both tests. */
  lemma AcceptFrameExample(sn: Byte)
    requires InRange(8, sn)
    ensures AcceptFrame(4, sn, 2) <==> 2 <= sn <= 5
    ensures AcceptInWindow(8, 4, sn, 2) <==> 2 <= sn <= 5
  {
    DistanceUnwrapped(8, 2, sn);
  }
}
