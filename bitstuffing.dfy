/**
  Zero-bit insertion ("bit stuffing") for data-link frames, the transparency
  rule of ISO/IEC 13239 (HDLC): the sender inserts a 0 after every fifth
  consecutive 1, so that the flag pattern 01111110 never appears inside a
  frame body, and the receiver removes it again.

  A bit sequence is a `seq<bool>` (true is a 1 bit). Both operations build a
  fresh sequence and leave their argument as it was.
 */
module BitStuffing {

  type Bits = seq<bool>

  /** Length of the run of ones after which a zero is inserted. */
  const RunLimit := 5

  // ---------------------------------------------------------------------
  // Specification: left-to-right scans that carry the number of ones
  // emitted (stuffing) or read (unstuffing) since the last zero.
  // ---------------------------------------------------------------------

  /** Stuffing of `bits` when `ones` consecutive ones immediately precede it. */
  function StuffFrom(bits: Bits, ones: nat): Bits
    requires ones < RunLimit
    decreases |bits|
  {
    if bits == [] then []
    else if bits[0] then
      if ones + 1 == RunLimit then [true, false] + StuffFrom(bits[1..], 0)
      else [true] + StuffFrom(bits[1..], ones + 1)
    else [false] + StuffFrom(bits[1..], 0)
  }

  /** The stuffed form of a whole frame. */
  function StuffSpec(bits: Bits): Bits {
    StuffFrom(bits, 0)
  }

  /** What is left of `s` after dropping its first `n` elements (nothing if `n` runs past the end). */
  function Drop(s: Bits, n: nat): (r: Bits)
    ensures |r| == if n <= |s| then |s| - n else 0
  {
    if n <= |s| then s[n..] else []
  }

  /**
    Unstuffing of `bits` when `ones` consecutive ones immediately precede it:
    the bit after a fifth consecutive one is dropped without being looked at.
   */
  function UnstuffFrom(bits: Bits, ones: nat): Bits
    requires ones < RunLimit
    decreases |bits|
  {
    if bits == [] then []
    else if bits[0] then
      if ones + 1 == RunLimit then [true] + UnstuffFrom(Drop(bits, 2), 0)
      else [true] + UnstuffFrom(bits[1..], ones + 1)
    else [false] + UnstuffFrom(bits[1..], 0)
  }

  /** The unstuffed form of a whole frame. */
  function UnstuffSpec(bits: Bits): Bits {
    UnstuffFrom(bits, 0)
  }

  /** Number of zeros stuffing inserts into `bits` when `ones` ones precede it. */
  function InsertedZeros(bits: Bits, ones: nat): nat
    requires ones < RunLimit
    decreases |bits|
  {
    if bits == [] then 0
    else if bits[0] then
      if ones + 1 == RunLimit then 1 + InsertedZeros(bits[1..], 0)
      else InsertedZeros(bits[1..], ones + 1)
    else InsertedZeros(bits[1..], 0)
  }

  /**
    Every run of ones in `s` is at most `limit` long, given that `ones`
    ones come right before `s`.
   */
  predicate RunsAtMost(s: Bits, ones: nat, limit: nat)
    decreases |s|
  {
    ones <= limit &&
    (s == [] || if s[0] then RunsAtMost(s[1..], ones + 1, limit) else RunsAtMost(s[1..], 0, limit))
  }

  /** The `n` bits of `s` starting at `i` include a zero. */
  predicate ZeroWithin(s: Bits, i: nat, n: nat)
    requires i + n <= |s|
  {
    false in s[i..i + n]
  }

  /** No `n` consecutive positions of `s` are all ones. */
  predicate NoRunOf(s: Bits, n: nat) {
    forall i: nat | i + n <= |s| :: ZeroWithin(s, i, n)
  }

  // ---------------------------------------------------------------------
  // One step of each scan, as the loops take it.
  // ---------------------------------------------------------------------

  /** Stuffing from position `i` emits the bits for `bits[i]`, then goes on from `i + 1`. */
  lemma StuffFromStep(bits: Bits, i: nat, ones: nat)
    requires i < |bits| && ones < RunLimit
    ensures StuffFrom(bits[i..], ones) ==
      if bits[i] then
        if ones + 1 == RunLimit then [true, false] + StuffFrom(bits[i + 1..], 0)
        else [true] + StuffFrom(bits[i + 1..], ones + 1)
      else [false] + StuffFrom(bits[i + 1..], 0)
  {
    assert bits[i..][1..] == bits[i + 1..];
  }

  /** Unstuffing from position `i` emits `bits[i]`, then goes on past it (and past the bit it skips). */
  lemma UnstuffFromStep(bits: Bits, i: nat, ones: nat)
    requires i < |bits| && ones < RunLimit
    ensures UnstuffFrom(Drop(bits, i), ones) ==
      if bits[i] then
        if ones + 1 == RunLimit then [true] + UnstuffFrom(Drop(bits, i + 2), 0)
        else [true] + UnstuffFrom(Drop(bits, i + 1), ones + 1)
      else [false] + UnstuffFrom(Drop(bits, i + 1), 0)
  {
    assert Drop(bits, i)[1..] == Drop(bits, i + 1);
    assert Drop(Drop(bits, i), 2) == Drop(bits, i + 2);
  }

  lemma AppendOne(done: Bits, b: bool, rest: Bits)
    ensures done + [b] + rest == done + ([b] + rest)
  {
  }

  lemma AppendTwo(done: Bits, b: bool, c: bool, rest: Bits)
    ensures done + [b] + [c] + rest == done + ([b, c] + rest)
  {
    assert [b] + [c] == [b, c];
  }

  // ---------------------------------------------------------------------
  // The operations, as the loops they are.
  // ---------------------------------------------------------------------

  /**
    Inserts a 0 after every five consecutive 1s. `i` walks the input, `aux`
    the output, and `leng` grows by one per inserted bit so that the loop
    guard `aux < leng` admits every input bit exactly once.
   */
  method Stuff(bitFrame: Bits) returns (bitFrame2: Bits)
    ensures bitFrame2 == StuffSpec(bitFrame)
  {
    var leng := |bitFrame|;
    var counter := 0;
    var aux := 0;
    var i := 0;
    bitFrame2 := [];
    while aux < leng
      invariant 0 <= i <= |bitFrame| && counter < RunLimit
      invariant aux == |bitFrame2|
      invariant aux - i == leng - |bitFrame|
      invariant bitFrame2 + StuffFrom(bitFrame[i..], counter) == StuffSpec(bitFrame)
      decreases leng - aux
    {
      var value := bitFrame[i];
      StuffFromStep(bitFrame, i, counter);
      ghost var done := bitFrame2;
      if value {
        counter := counter + 1;
        if counter == RunLimit {
          bitFrame2 := bitFrame2 + [true];
          aux := aux + 1;
          bitFrame2 := bitFrame2 + [false];
          leng := leng + 1;
          counter := 0;
          AppendTwo(done, true, false, StuffFrom(bitFrame[i + 1..], counter));
        } else {
          bitFrame2 := bitFrame2 + [true];
          AppendOne(done, true, StuffFrom(bitFrame[i + 1..], counter));
        }
      } else {
        bitFrame2 := bitFrame2 + [false];
        counter := 0;
        AppendOne(done, false, StuffFrom(bitFrame[i + 1..], counter));
      }
      aux := aux + 1;
      i := i + 1;
    }
    assert bitFrame[i..] == [];
  }

  /**
    Removes the bit that follows every five consecutive 1s. After a fifth
    1 the index is advanced once more, skipping the next bit unread.
   */
  method Unstuff(bitFrame: Bits) returns (bitFrame2: Bits)
    ensures bitFrame2 == UnstuffSpec(bitFrame)
  {
    var leng := |bitFrame|;
    var counter := 0;
    var i := 0;
    bitFrame2 := [];
    while i < leng
      invariant 0 <= i <= leng + 1 && counter < RunLimit
      invariant bitFrame2 + UnstuffFrom(Drop(bitFrame, i), counter) == UnstuffSpec(bitFrame)
    {
      var value := bitFrame[i];
      UnstuffFromStep(bitFrame, i, counter);
      ghost var done := bitFrame2;
      if value {
        counter := counter + 1;
        if counter == RunLimit {
          bitFrame2 := bitFrame2 + [true];
          i := i + 1;
          counter := 0;
          AppendOne(done, true, UnstuffFrom(Drop(bitFrame, i + 1), counter));
        } else {
          bitFrame2 := bitFrame2 + [true];
          AppendOne(done, true, UnstuffFrom(Drop(bitFrame, i + 1), counter));
        }
      } else {
        bitFrame2 := bitFrame2 + [false];
        counter := 0;
        AppendOne(done, false, UnstuffFrom(Drop(bitFrame, i + 1), counter));
      }
      i := i + 1;
    }
    assert Drop(bitFrame, i) == [];
  }

  // ---------------------------------------------------------------------
  // Properties.
  // ---------------------------------------------------------------------

  /** Unstuffing undoes stuffing, whatever run of ones precedes the input. */
  lemma {:induction false} UnstuffStuffFrom(x: Bits, ones: nat)
    requires ones < RunLimit
    ensures UnstuffFrom(StuffFrom(x, ones), ones) == x
    decreases |x|
  {
    if x != [] {
      var s := StuffFrom(x, ones);
      if x[0] && ones + 1 == RunLimit {
        var rest := StuffFrom(x[1..], 0);
        assert s == [true, false] + rest;
        assert Drop(s, 2) == rest;
        UnstuffStuffFrom(x[1..], 0);
      } else if x[0] {
        assert s[1..] == StuffFrom(x[1..], ones + 1);
        UnstuffStuffFrom(x[1..], ones + 1);
      } else {
        assert s[1..] == StuffFrom(x[1..], 0);
        UnstuffStuffFrom(x[1..], 0);
      }
    }
  }

  /** Round trip: unstuff(stuff(x)) == x for every finite bit sequence. */
  lemma RoundTrip(x: Bits)
    ensures UnstuffSpec(StuffSpec(x)) == x
  {
    UnstuffStuffFrom(x, 0);
  }

  /** Stuffing preceded by `ones` ones never lets a run of ones grow past five. */
  lemma {:induction false} StuffFromRunsAtMost5(x: Bits, ones: nat)
    requires ones < RunLimit
    ensures RunsAtMost(StuffFrom(x, ones), ones, RunLimit)
    decreases |x|
  {
    if x != [] {
      var s := StuffFrom(x, ones);
      if x[0] && ones + 1 == RunLimit {
        StuffFromRunsAtMost5(x[1..], 0);
        var rest := StuffFrom(x[1..], 0);
        assert s[1..] == [false] + rest;
        assert s[1..][1..] == rest;
      } else if x[0] {
        StuffFromRunsAtMost5(x[1..], ones + 1);
        assert s[1..] == StuffFrom(x[1..], ones + 1);
      } else {
        StuffFromRunsAtMost5(x[1..], 0);
        assert s[1..] == StuffFrom(x[1..], 0);
      }
    }
  }

  /**
    The run predicate, read as windows: with `ones` ones before `s` and runs
    of at most `limit`, no `limit + 1` consecutive bits of `s` are all ones,
    and a zero comes within the first `limit + 1 - ones` bits.
   */
  lemma {:induction false} RunsAtMostNoWindow(s: Bits, ones: nat, limit: nat)
    requires RunsAtMost(s, ones, limit)
    ensures NoRunOf(s, limit + 1)
    ensures limit + 1 - ones <= |s| ==> false in s[..limit + 1 - ones]
    decreases |s|
  {
    if s != [] {
      var n := limit + 1;
      var next := if s[0] then ones + 1 else 0;
      RunsAtMostNoWindow(s[1..], next, limit);
      forall i: nat | i + n <= |s|
        ensures ZeroWithin(s, i, n)
      {
        if i > 0 {
          assert ZeroWithin(s[1..], i - 1, n);
          ZeroInShiftedSlice(s, i, n);
        } else if s[0] {
          assert s[1..][..n - next] == s[1..n - ones];
          ZeroInSubslice(s, 0, n, 1, n - ones);
        } else {
          assert s[i..i + n][0] == false;
        }
      }
      if n - ones <= |s| {
        if s[0] {
          assert s[1..][..n - next] == s[1..n - ones];
          ZeroInSubslice(s, 0, n - ones, 1, n - ones);
        } else {
          assert s[..n - ones][0] == false;
        }
      }
    }
  }

  /** A zero in a window of `s[1..]` is a zero in the same window of `s`, one place on. */
  lemma ZeroInShiftedSlice(s: Bits, i: nat, n: nat)
    requires 1 <= i && i + n <= |s|
    requires false in s[1..][i - 1..i - 1 + n]
    ensures false in s[i..i + n]
  {
    var k :| 0 <= k < n && s[1..][i - 1..i - 1 + n][k] == false;
    assert s[i..i + n][k] == false;
  }

  /** A zero inside a slice is a zero inside every slice around it. */
  lemma ZeroInSubslice(s: Bits, lo: nat, hi: nat, lo': nat, hi': nat)
    requires lo <= lo' <= hi' <= hi <= |s|
    requires false in s[lo'..hi']
    ensures false in s[lo..hi]
  {
    var k :| 0 <= k < hi' - lo' && s[lo'..hi'][k] == false;
    assert s[lo..hi][lo' - lo + k] == false;
  }

  /** The window reading of the run predicate, the other way round. */
  lemma {:induction false} NoWindowRunsAtMost(s: Bits, ones: nat, limit: nat)
    requires ones <= limit
    requires NoRunOf(s, limit + 1)
    requires limit + 1 - ones <= |s| ==> false in s[..limit + 1 - ones]
    ensures RunsAtMost(s, ones, limit)
    decreases |s|
  {
    if s != [] {
      var n := limit + 1;
      var next := if s[0] then ones + 1 else 0;
      if s[0] && n - ones <= |s| {
        assert s[..n - ones] == [s[0]] + s[1..][..n - next];
      }
      forall i: nat | i + n <= |s[1..]|
        ensures ZeroWithin(s[1..], i, n)
      {
        assert ZeroWithin(s, i + 1, n);
        assert s[1..][i..i + n] == s[i + 1..i + 1 + n];
      }
      if !s[0] && n <= |s[1..]| {
        assert ZeroWithin(s, 1, n);
        assert s[1..][..n] == s[1..n + 1];
      }
      NoWindowRunsAtMost(s[1..], next, limit);
    }
  }

  /** stuff(x) never contains six consecutive ones. */
  lemma StuffNoSixOnes(x: Bits)
    ensures NoRunOf(StuffSpec(x), RunLimit + 1)
  {
    StuffFromRunsAtMost5(x, 0);
    RunsAtMostNoWindow(StuffSpec(x), 0, RunLimit);
  }

  /** Stuffing adds exactly the inserted zeros, at most one per five input bits (counting the preceding ones). */
  lemma {:induction false} StuffFromLength(x: Bits, ones: nat)
    requires ones < RunLimit
    ensures |StuffFrom(x, ones)| == |x| + InsertedZeros(x, ones)
    ensures InsertedZeros(x, ones) <= (|x| + ones) / RunLimit
    decreases |x|
  {
    if x != [] {
      if x[0] && ones + 1 == RunLimit {
        StuffFromLength(x[1..], 0);
      } else if x[0] {
        StuffFromLength(x[1..], ones + 1);
      } else {
        StuffFromLength(x[1..], 0);
      }
    }
  }

  /** |x| <= |stuff(x)| <= |x| + |x| / 5. */
  lemma StuffLength(x: Bits)
    ensures |StuffSpec(x)| == |x| + InsertedZeros(x, 0)
    ensures |x| <= |StuffSpec(x)| <= |x| + |x| / RunLimit
  {
    StuffFromLength(x, 0);
  }

  /** With runs of ones shorter than five, stuffing and unstuffing change nothing. */
  lemma {:induction false} ShortRunsFixedFrom(s: Bits, ones: nat)
    requires RunsAtMost(s, ones, RunLimit - 1)
    ensures StuffFrom(s, ones) == s
    ensures UnstuffFrom(s, ones) == s
    decreases |s|
  {
    if s != [] {
      var next := if s[0] then ones + 1 else 0;
      ShortRunsFixedFrom(s[1..], next);
      assert s == [s[0]] + s[1..];
    }
  }

  /** A frame with no five consecutive ones is a fixed point of both operations. */
  lemma ShortRunsFixed(s: Bits)
    requires NoRunOf(s, RunLimit)
    ensures StuffSpec(s) == s && UnstuffSpec(s) == s
  {
    if RunLimit <= |s| {
      assert ZeroWithin(s, 0, RunLimit);
      assert s[..RunLimit] == s[0..RunLimit];
    }
    NoWindowRunsAtMost(s, 0, RunLimit - 1);
    ShortRunsFixedFrom(s, 0);
  }

  /** Both operations map the empty frame to the empty frame. */
  lemma EmptyFrame()
    ensures StuffSpec([]) == [] && UnstuffSpec([]) == []
  {
  }

  /**
    Unstuffing does not check the bit it drops: six ones (as in the flag
    01111110) lose their sixth one instead of being reported.
   */
  lemma UnstuffDropsUncheckedBit()
    ensures UnstuffSpec([true, true, true, true, true, true]) == [true, true, true, true, true]
    ensures UnstuffSpec([true, true, true, true, true, true, false]) == [true, true, true, true, true, false]
  {
  }

  /** The number of ones stuffing has just emitted after `a`, when `ones` preceded it. */
  function OnesAfter(a: Bits, ones: nat): (r: nat)
    requires ones < RunLimit
    ensures r < RunLimit
    decreases |a|
  {
    if a == [] then ones
    else if a[0] then
      if ones + 1 == RunLimit then OnesAfter(a[1..], 0) else OnesAfter(a[1..], ones + 1)
    else OnesAfter(a[1..], 0)
  }

  /** Stuffing is a streaming transformation: a frame may be stuffed piece by piece. */
  lemma {:induction false} StuffAppend(a: Bits, b: Bits, ones: nat)
    requires ones < RunLimit
    ensures StuffFrom(a + b, ones) == StuffFrom(a, ones) + StuffFrom(b, OnesAfter(a, ones))
    decreases |a|
  {
    if a != [] {
      assert (a + b)[1..] == a[1..] + b;
      var next := if a[0] && ones + 1 < RunLimit then ones + 1 else 0;
      StuffAppend(a[1..], b, next);
    } else {
      assert a + b == b;
    }
  }

  /** Unstuffing may be done piece by piece, cutting after a zero. */
  lemma {:induction false} UnstuffAppend(a: Bits, b: Bits, ones: nat)
    requires ones < RunLimit
    requires a != [] && !a[|a| - 1]
    ensures UnstuffFrom(a + b, ones) == UnstuffFrom(a, ones) + UnstuffFrom(b, 0)
    decreases |a|
  {
    assert (a + b)[1..] == a[1..] + b;
    if a[0] && ones + 1 == RunLimit {
      assert Drop(a + b, 2) == Drop(a, 2) + b;
      if Drop(a, 2) != [] {
        UnstuffAppend(Drop(a, 2), b, 0);
      } else {
        assert Drop(a, 2) + b == b;
      }
    } else if |a| > 1 {
      var next := if a[0] then ones + 1 else 0;
      UnstuffAppend(a[1..], b, next);
    } else {
      assert a[1..] + b == b;
    }
  }

  /** After a zero the stuffing scan starts afresh. */
  lemma {:induction false} OnesAfterZero(a: Bits, ones: nat)
    requires ones < RunLimit
    requires a != [] && !a[|a| - 1]
    ensures OnesAfter(a, ones) == 0
    decreases |a|
  {
    if |a| > 1 {
      var next := if a[0] && ones + 1 < RunLimit then ones + 1 else 0;
      OnesAfterZero(a[1..], next);
    }
  }

  /** A frame cut right after a zero stuffs as its two pieces do. */
  lemma StuffCutAfterZero(a: Bits, b: Bits)
    requires a != [] && !a[|a| - 1]
    ensures StuffSpec(a + b) == StuffSpec(a) + StuffSpec(b)
  {
    StuffAppend(a, b, 0);
    OnesAfterZero(a, 0);
  }

  /** A stuffed frame cut right after a zero unstuffs as its two pieces do. */
  lemma UnstuffCutAfterZero(a: Bits, b: Bits)
    requires a != [] && !a[|a| - 1]
    ensures UnstuffSpec(a + b) == UnstuffSpec(a) + UnstuffSpec(b)
  {
    UnstuffAppend(a, b, 0);
  }

  // ---------------------------------------------------------------------
  // The transparency rule, run by run.
  // ---------------------------------------------------------------------

  /** `k` ones. */
  function Ones(k: nat): (r: Bits)
    ensures |r| == k
  {
    if k == 0 then [] else [true] + Ones(k - 1)
  }

  /** Fewer than five ones in a row are copied as they are; the count of ones goes up by their number. */
  lemma {:induction false} StuffOnes(k: nat, ones: nat, rest: Bits)
    requires ones + k < RunLimit
    ensures StuffFrom(Ones(k) + rest, ones) == Ones(k) + StuffFrom(rest, ones + k)
    decreases k
  {
    if k > 0 {
      var s := Ones(k) + rest;
      assert s == [true] + (Ones(k - 1) + rest);
      assert s[0] && s[1..] == Ones(k - 1) + rest;
      StuffOnes(k - 1, ones + 1, rest);
      assert [true] + (Ones(k - 1) + StuffFrom(rest, ones + k)) == Ones(k) + StuffFrom(rest, ones + k);
    } else {
      assert Ones(k) + rest == rest;
      assert Ones(k) + StuffFrom(rest, ones) == StuffFrom(rest, ones);
    }
  }

  /** A run of fewer than five ones closed by a zero comes out unchanged, and the scan restarts. */
  lemma StuffRunThenZero(k: nat, rest: Bits)
    requires k < RunLimit
    ensures StuffFrom(Ones(k) + [false] + rest, 0) == Ones(k) + [false] + StuffFrom(rest, 0)
  {
    StuffOnes(k, 0, [false] + rest);
    assert Ones(k) + [false] + rest == Ones(k) + ([false] + rest);
    assert ([false] + rest)[1..] == rest;
  }

  /** Five ones in a row are followed by an inserted zero, and the scan restarts. */
  lemma StuffFullRun(rest: Bits)
    ensures StuffFrom(Ones(RunLimit) + rest, 0) == Ones(RunLimit) + [false] + StuffFrom(rest, 0)
  {
    StuffOnes(RunLimit - 1, 0, [true] + rest);
    assert Ones(RunLimit) + rest == Ones(RunLimit - 1) + ([true] + rest) by {
      assert Ones(RunLimit) == Ones(RunLimit - 1) + [true] by {
        assert Ones(1) == [true];
      }
    }
    assert ([true] + rest)[1..] == rest;
  }

  /** Fewer than five ones in a row are read as they are; the count of ones goes up by their number. */
  lemma {:induction false} UnstuffOnes(k: nat, ones: nat, rest: Bits)
    requires ones + k < RunLimit
    ensures UnstuffFrom(Ones(k) + rest, ones) == Ones(k) + UnstuffFrom(rest, ones + k)
    decreases k
  {
    if k > 0 {
      var s := Ones(k) + rest;
      assert s == [true] + (Ones(k - 1) + rest);
      assert s[0] && s[1..] == Ones(k - 1) + rest;
      UnstuffOnes(k - 1, ones + 1, rest);
      assert [true] + (Ones(k - 1) + UnstuffFrom(rest, ones + k)) == Ones(k) + UnstuffFrom(rest, ones + k);
    } else {
      assert Ones(k) + rest == rest;
      assert Ones(k) + UnstuffFrom(rest, ones) == UnstuffFrom(rest, ones);
    }
  }

  /** A run of fewer than five ones closed by a zero is read unchanged, and the scan restarts. */
  lemma UnstuffRunThenZero(k: nat, rest: Bits)
    requires k < RunLimit
    ensures UnstuffFrom(Ones(k) + [false] + rest, 0) == Ones(k) + [false] + UnstuffFrom(rest, 0)
  {
    UnstuffOnes(k, 0, [false] + rest);
    assert Ones(k) + [false] + rest == Ones(k) + ([false] + rest);
    assert ([false] + rest)[1..] == rest;
  }

  /** After five ones in a row the next bit, whatever it is, is dropped, and the scan restarts. */
  lemma UnstuffFullRun(b: bool, rest: Bits)
    ensures UnstuffFrom(Ones(RunLimit) + [b] + rest, 0) == Ones(RunLimit) + UnstuffFrom(rest, 0)
  {
    UnstuffOnes(RunLimit - 1, 0, [true, b] + rest);
    assert Ones(RunLimit) + [b] + rest == Ones(RunLimit - 1) + ([true, b] + rest) by {
      assert Ones(RunLimit) == Ones(RunLimit - 1) + [true] by {
        assert Ones(1) == [true];
      }
    }
    assert Drop([true, b] + rest, 2) == rest;
  }

  /**
    A run of five ones at the very end of a frame, after a zero or alone,
    comes back unchanged from unstuffing, without error: the bit it would
    drop is not there.
   */
  lemma UnstuffTrailingFiveOnes(a: Bits)
    requires a == [] || !a[|a| - 1]
    ensures UnstuffSpec(a + Ones(RunLimit)) == UnstuffSpec(a) + Ones(RunLimit)
  {
    UnstuffOnes(RunLimit - 1, 0, [true]);
    assert Ones(RunLimit) == Ones(RunLimit - 1) + [true] by {
      assert Ones(1) == [true];
    }
    if a == [] {
      assert a + Ones(RunLimit) == Ones(RunLimit);
    } else {
      UnstuffCutAfterZero(a, Ones(RunLimit));
    }
  }

  // The four vectors of the test driver in BitStuffing.java, lines 167-170,
  // with 1 written as true and 0 as false. Each is stated for the frame
  // followed by arbitrary further bits `rest`; with `rest` empty it is the
  // driver's own comparison. Each is proved run by run, from the back, with
  // the rules above.

  /**
    Test vector 1 of the BitStuffing test driver: 101101110111101111101111110, read as the runs
    10 110 1110 11110 11111 0 11111 10, stuffs to 10110111011110111110011111010, followed by the stuffing of `rest`.
   */
  lemma StuffVector1(rest: Bits)
    ensures StuffSpec(Ones(1) + [false] + (Ones(2) + [false] + (Ones(3) + [false] + (Ones(4) + [false] + (Ones(RunLimit) + (Ones(0) + [false] + (Ones(RunLimit) + (Ones(1) + [false] + rest))))))))
         == Ones(1) + [false] + (Ones(2) + [false] + (Ones(3) + [false] + (Ones(4) + [false] + (Ones(RunLimit) + [false] + (Ones(0) + [false] + (Ones(RunLimit) + [false] + (Ones(1) + [false] + StuffSpec(rest))))))))
  {
    StuffRunThenZero(1, rest);
    var r7 := Ones(1) + [false] + rest;
    StuffFullRun(r7);
    var r6 := Ones(RunLimit) + r7;
    StuffRunThenZero(0, r6);
    var r5 := Ones(0) + [false] + r6;
    StuffFullRun(r5);
    var r4 := Ones(RunLimit) + r5;
    StuffRunThenZero(4, r4);
    var r3 := Ones(4) + [false] + r4;
    StuffRunThenZero(3, r3);
    var r2 := Ones(3) + [false] + r3;
    StuffRunThenZero(2, r2);
    var r1 := Ones(2) + [false] + r2;
    StuffRunThenZero(1, r1);
  }

  /**
    Test vector 1 of the BitStuffing test driver, from its stuffed column: 10110111011110111110011111010, read as the runs
    10 110 1110 11110 111110 0 111110 10, unstuffs to 101101110111101111101111110, followed by the unstuffing of `rest`.
   */
  lemma UnstuffVector1(rest: Bits)
    ensures UnstuffSpec(Ones(1) + [false] + (Ones(2) + [false] + (Ones(3) + [false] + (Ones(4) + [false] + (Ones(RunLimit) + [false] + (Ones(0) + [false] + (Ones(RunLimit) + [false] + (Ones(1) + [false] + rest))))))))
         == Ones(1) + [false] + (Ones(2) + [false] + (Ones(3) + [false] + (Ones(4) + [false] + (Ones(RunLimit) + (Ones(0) + [false] + (Ones(RunLimit) + (Ones(1) + [false] + UnstuffSpec(rest))))))))
  {
    UnstuffRunThenZero(1, rest);
    var r7 := Ones(1) + [false] + rest;
    UnstuffFullRun(false, r7);
    var r6 := Ones(RunLimit) + [false] + r7;
    UnstuffRunThenZero(0, r6);
    var r5 := Ones(0) + [false] + r6;
    UnstuffFullRun(false, r5);
    var r4 := Ones(RunLimit) + [false] + r5;
    UnstuffRunThenZero(4, r4);
    var r3 := Ones(4) + [false] + r4;
    UnstuffRunThenZero(3, r3);
    var r2 := Ones(3) + [false] + r3;
    UnstuffRunThenZero(2, r2);
    var r1 := Ones(2) + [false] + r2;
    UnstuffRunThenZero(1, r1);
  }

  /**
    Test vector 2 of the BitStuffing test driver: 1111100000, read as the runs
    11111 0 0 0 0 0, stuffs to 11111000000, followed by the stuffing of `rest`.
   */
  lemma StuffVector2(rest: Bits)
    ensures StuffSpec(Ones(RunLimit) + (Ones(0) + [false] + (Ones(0) + [false] + (Ones(0) + [false] + (Ones(0) + [false] + (Ones(0) + [false] + rest))))))
         == Ones(RunLimit) + [false] + (Ones(0) + [false] + (Ones(0) + [false] + (Ones(0) + [false] + (Ones(0) + [false] + (Ones(0) + [false] + StuffSpec(rest))))))
  {
    StuffRunThenZero(0, rest);
    var r5 := Ones(0) + [false] + rest;
    StuffRunThenZero(0, r5);
    var r4 := Ones(0) + [false] + r5;
    StuffRunThenZero(0, r4);
    var r3 := Ones(0) + [false] + r4;
    StuffRunThenZero(0, r3);
    var r2 := Ones(0) + [false] + r3;
    StuffRunThenZero(0, r2);
    var r1 := Ones(0) + [false] + r2;
    StuffFullRun(r1);
  }

  /**
    Test vector 2 of the BitStuffing test driver, from its stuffed column: 11111000000, read as the runs
    111110 0 0 0 0 0, unstuffs to 1111100000, followed by the unstuffing of `rest`.
   */
  lemma UnstuffVector2(rest: Bits)
    ensures UnstuffSpec(Ones(RunLimit) + [false] + (Ones(0) + [false] + (Ones(0) + [false] + (Ones(0) + [false] + (Ones(0) + [false] + (Ones(0) + [false] + rest))))))
         == Ones(RunLimit) + (Ones(0) + [false] + (Ones(0) + [false] + (Ones(0) + [false] + (Ones(0) + [false] + (Ones(0) + [false] + UnstuffSpec(rest))))))
  {
    UnstuffRunThenZero(0, rest);
    var r5 := Ones(0) + [false] + rest;
    UnstuffRunThenZero(0, r5);
    var r4 := Ones(0) + [false] + r5;
    UnstuffRunThenZero(0, r4);
    var r3 := Ones(0) + [false] + r4;
    UnstuffRunThenZero(0, r3);
    var r2 := Ones(0) + [false] + r3;
    UnstuffRunThenZero(0, r2);
    var r1 := Ones(0) + [false] + r2;
    UnstuffFullRun(false, r1);
  }

  /**
    Test vector 3 of the BitStuffing test driver: 11110111101, read as the runs
    11110 11110 1, stuffs to 11110111101, followed by the stuffing of `rest`, the scan going on with 1 ones already counted.
   */
  lemma StuffVector3(rest: Bits)
    ensures StuffSpec(Ones(4) + [false] + (Ones(4) + [false] + (Ones(1) + rest)))
         == Ones(4) + [false] + (Ones(4) + [false] + (Ones(1) + (StuffFrom(rest, 1))))
  {
    StuffOnes(1, 0, rest);
    var r2 := Ones(1) + rest;
    StuffRunThenZero(4, r2);
    var r1 := Ones(4) + [false] + r2;
    StuffRunThenZero(4, r1);
  }

  /**
    Test vector 3 of the BitStuffing test driver, from its stuffed column: 11110111101, read as the runs
    11110 11110 1, unstuffs to 11110111101, followed by the unstuffing of `rest`, the scan going on with 1 ones already counted.
   */
  lemma UnstuffVector3(rest: Bits)
    ensures UnstuffSpec(Ones(4) + [false] + (Ones(4) + [false] + (Ones(1) + rest)))
         == Ones(4) + [false] + (Ones(4) + [false] + (Ones(1) + (UnstuffFrom(rest, 1))))
  {
    UnstuffOnes(1, 0, rest);
    var r2 := Ones(1) + rest;
    UnstuffRunThenZero(4, r2);
    var r1 := Ones(4) + [false] + r2;
    UnstuffRunThenZero(4, r1);
  }

  /**
    Test vector 4 of the BitStuffing test driver: 111111111111, read as the runs
    11111 11111 11, stuffs to 11111011111011, followed by the stuffing of `rest`, the scan going on with 2 ones already counted.
   */
  lemma StuffVector4(rest: Bits)
    ensures StuffSpec(Ones(RunLimit) + (Ones(RunLimit) + (Ones(2) + rest)))
         == Ones(RunLimit) + [false] + (Ones(RunLimit) + [false] + (Ones(2) + (StuffFrom(rest, 2))))
  {
    StuffOnes(2, 0, rest);
    var r2 := Ones(2) + rest;
    StuffFullRun(r2);
    var r1 := Ones(RunLimit) + r2;
    StuffFullRun(r1);
  }

  /**
    Test vector 4 of the BitStuffing test driver, from its stuffed column: 11111011111011, read as the runs
    111110 111110 11, unstuffs to 111111111111, followed by the unstuffing of `rest`, the scan going on with 2 ones already counted.
   */
  lemma UnstuffVector4(rest: Bits)
    ensures UnstuffSpec(Ones(RunLimit) + [false] + (Ones(RunLimit) + [false] + (Ones(2) + rest)))
         == Ones(RunLimit) + (Ones(RunLimit) + (Ones(2) + (UnstuffFrom(rest, 2))))
  {
    UnstuffOnes(2, 0, rest);
    var r2 := Ones(2) + rest;
    UnstuffFullRun(false, r2);
    var r1 := Ones(RunLimit) + [false] + r2;
    UnstuffFullRun(false, r1);
  }
}
