/** The per-player score history of the buzzer game, as values.

    A player keeps a fixed ring of ten reaction durations (nanoseconds),
    zeroed at creation, and overwrites the slot under a cursor that wraps
    from 9 back to 0. This module describes what that ring holds after any
    sequence of writes, and proves that its sum, the ranking key of the
    game, is the sum of the ten most recent writes, missing ones counting
    as zero. */
module History {

  /** Number of slots in a player's score ring. */
  const Slots := 10

  /** The ring as a fresh player has it: every slot zero. */
  function Zeros(): (z: seq<int>)
    ensures |z| == Slots && forall i :: 0 <= i < Slots ==> z[i] == 0
  {
    seq(Slots, _ => 0)
  }

  /** Sum of a sequence of durations, adding from the front. */
  function Sum(s: seq<int>): int
    decreases |s|
  {
    if s == [] then 0 else Sum(s[..|s| - 1]) + s[|s| - 1]
  }

  /** The ring after writing the durations of `h` in order, starting from
      `Zeros()` with the cursor at slot 0: the n-th write (from 0) lands in
      slot n % 10. */
  function Ring(h: seq<int>): (r: seq<int>)
    ensures |r| == Slots
    decreases |h|
  {
    if h == [] then Zeros()
    else Ring(h[..|h| - 1])[(|h| - 1) % 10 := h[|h| - 1]]
  }

  /** A write lands in the slot numbered by how many writes came before
      it, modulo ten, and changes no other slot. */
  lemma RingStep(h: seq<int>, d: int)
    ensures Ring(h + [d]) == Ring(h)[|h| % 10 := d]
  {
    assert (h + [d])[..|h|] == h;
  }

  /** The slot after slot `n % 10`, wrapping from the last slot to the
      first, is slot `(n + 1) % 10`. */
  lemma NextSlot(n: nat)
    ensures (n + 1) % 10 == if n % 10 + 1 >= Slots then 0 else n % 10 + 1
  {
  }

  /** Write number `i` of the history `h` preceded by `Slots` zeros: the
      zeros stand for the slots a fresh player starts with. */
  function Padded(h: seq<int>, i: int): int
    requires 0 <= i < |h| + Slots
  {
    if i < Slots then 0 else h[i - Slots]
  }

  /** The ten most recent writes of `h`, oldest first, padded in front
      with zeros when fewer than ten writes have happened. */
  function Window(h: seq<int>): (w: seq<int>)
    ensures |w| == Slots
    ensures forall k :: 0 <= k < Slots ==> w[k] == Padded(h, |h| + k)
  {
    seq(Slots, k requires 0 <= k < Slots => Padded(h, |h| + k))
  }

  lemma {:induction false} SumConcat(a: seq<int>, b: seq<int>)
    ensures Sum(a + b) == Sum(a) + Sum(b)
    decreases |b|
  {
    if b == [] {
      assert a + b == a;
    } else {
      SumConcat(a, b[..|b| - 1]);
      assert (a + b)[..|a + b| - 1] == a + b[..|b| - 1];
    }
  }

  /** Slot `i % 10` holds write number `i` of the zero-padded history,
      for every `i` in the current window. */
  lemma {:induction false} RingAt(h: seq<int>, i: int)
    requires |h| <= i < |h| + Slots
    ensures Ring(h)[i % 10] == Padded(h, i)
    decreases |h|
  {
    if h != [] {
      var prev := h[..|h| - 1];
      if i != |prev| + Slots {
        DistinctSlots(|prev|, i);
        RingAt(prev, i);
      }
    }
  }

  /** Ten consecutive writes land in ten different slots. */
  lemma DistinctSlots(a: int, b: int)
    requires a < b < a + Slots
    ensures a % 10 != b % 10
  {
  }

  /** The slot under the cursor holds the oldest entry of the window: it
      is the one the next write overwrites. */
  lemma OldestUnderCursor(h: seq<int>)
    ensures Ring(h)[|h| % 10] == Window(h)[0]
  {
    RingAt(h, |h|);
  }

  lemma {:induction false} SumUpdate(s: seq<int>, j: int, d: int)
    requires 0 <= j < |s|
    ensures Sum(s[j := d]) == Sum(s) - s[j] + d
    decreases |s|
  {
    var n := |s| - 1;
    if j < n {
      SumUpdate(s[..n], j, d);
      assert s[j := d][..n] == s[..n][j := d];
    } else {
      assert s[j := d][..n] == s[..n];
    }
  }

  /** The ranking key: summing the ring gives the sum of the ten most
      recent writes, zero-initialised slots included. Each write adds the
      new duration and takes away exactly the entry that drops out of the
      window. */
  lemma {:induction false} RingSum(h: seq<int>)
    ensures Sum(Ring(h)) == Sum(Window(h))
    decreases |h|
  {
    if h == [] {
      assert Window(h) == Zeros();
    } else {
      var prev, d := h[..|h| - 1], h[|h| - 1];
      var before, slot, w := Ring(prev), |prev| % 10, Window(prev);
      assert Ring(h) == before[slot := d];
      assert Window(h) == w[1..] + [d] by {
        assert h == prev + [d];
        WindowShift(prev, d);
      }
      RingSum(prev);
      OldestUnderCursor(prev);
      SumUpdate(before, slot, d);
      SumHead(w);
      SumConcat(w[1..], [d]);
    }
  }

  lemma SumHead(s: seq<int>)
    requires s != []
    ensures Sum(s) == s[0] + Sum(s[1..])
  {
    SumConcat([s[0]], s[1..]);
    assert [s[0]] + s[1..] == s;
    assert [s[0]][..0] == [];
  }

  /** Before ten writes the sum is exactly the sum of everything written:
      the untouched slots still hold zero. */
  lemma EarlySum(h: seq<int>)
    requires |h| < Slots
    ensures Sum(Ring(h)) == Sum(h)
  {
    RingSum(h);
    var w, n := Window(h), Slots - |h|;
    assert w == w[..n] + h;
    SumConcat(w[..n], h);
    ZeroPrefix(w, n);
  }

  lemma {:induction false} ZeroPrefix(w: seq<int>, n: nat)
    requires n <= |w|
    requires forall k :: 0 <= k < n ==> w[k] == 0
    ensures Sum(w[..n]) == 0
  {
    if n > 0 {
      ZeroPrefix(w, n - 1);
      assert w[..n][..n - 1] == w[..n - 1];
    }
  }

  /** From the tenth write on, the sum is exactly the sum of the ten most
      recent writes: nothing older survives. */
  lemma LateSum(h: seq<int>)
    requires |h| >= Slots
    ensures Sum(Ring(h)) == Sum(h[|h| - Slots..])
  {
    RingSum(h);
    WindowFull(h);
  }

  lemma WindowFull(h: seq<int>)
    requires |h| >= Slots
    ensures Window(h) == h[|h| - Slots..]
  {
    var w, recent := Window(h), h[|h| - Slots..];
    forall k | 0 <= k < Slots
      ensures w[k] == recent[k]
    {
    }
    assert |w| == |recent|;
  }

  /** An eleventh write replaces the oldest of the ten: writing `d` drops
      the first entry of the window and appends `d`. */
  lemma WindowShift(h: seq<int>, d: int)
    ensures Window(h + [d]) == Window(h)[1..] + [d]
  {
    var before, after := Window(h), Window(h + [d]);
    forall k | 0 <= k < Slots
      ensures after[k] == (before[1..] + [d])[k]
    {
      if k < Slots - 1 {
        assert after[k] == before[k + 1];
      }
    }
  }

  lemma {:induction false} SumLess(a: seq<int>, b: seq<int>)
    requires |a| == |b| > 0
    requires forall i :: 0 <= i < |a| ==> a[i] <= b[i]
    requires a[|a| - 1] < b[|b| - 1]
    ensures Sum(a) < Sum(b)
    decreases |a|
  {
    var n := |a|;
    if n > 1 {
      SumNoMore(a[..n - 1], b[..n - 1]);
    }
  }

  lemma {:induction false} SumNoMore(a: seq<int>, b: seq<int>)
    requires |a| == |b|
    requires forall i :: 0 <= i < |a| ==> a[i] <= b[i]
    ensures Sum(a) <= Sum(b)
    decreases |a|
  {
    if a != [] {
      SumNoMore(a[..|a| - 1], b[..|b| - 1]);
    }
  }

  /** A player whose every reaction was no slower than the other's, write
      for write, and strictly faster in the latest one, has the strictly
      smaller ranking key. In particular a player who always responds
      beats one who always forfeits. */
  lemma FasterRanksLower(a: seq<int>, b: seq<int>)
    requires |a| == |b| > 0
    requires forall i :: 0 <= i < |a| ==> a[i] <= b[i]
    requires a[|a| - 1] < b[|b| - 1]
    ensures Sum(Ring(a)) < Sum(Ring(b))
  {
    RingSum(a);
    RingSum(b);
    WindowLess(a, b);
  }

  lemma WindowLess(a: seq<int>, b: seq<int>)
    requires |a| == |b| > 0
    requires forall i :: 0 <= i < |a| ==> a[i] <= b[i]
    requires a[|a| - 1] < b[|b| - 1]
    ensures Sum(Window(a)) < Sum(Window(b))
  {
    var wa, wb := Window(a), Window(b);
    forall k | 0 <= k < Slots
      ensures wa[k] <= wb[k]
    {
      if |a| + k >= Slots {
        assert wa[k] == a[|a| + k - Slots] && wb[k] == b[|a| + k - Slots];
      }
    }
    SumLess(wa, wb);
  }
}
