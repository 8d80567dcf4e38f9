/**
 * `TimeHistory<T, SIZE>` (`D3D12/Graphics/Profiler.h`): a fixed ring of the
 * last SIZE timing samples with a running entry count. Samples are modelled
 * as natural numbers; `Samples` is the ghost list of every sample added.
 */
module TimeHistory {
  import opened Common

  /** The value ring slot `slot` holds after `samples` were added in order to
      a zero-initialised ring of `size` slots. */
  function SlotValue(samples: seq<nat>, size: nat, slot: nat): nat
    requires size > 0
  {
    if samples == [] then 0
    else if (|samples| - 1) % size == slot then samples[|samples| - 1]
    else SlotValue(samples[..|samples| - 1], size, slot)
  }

  /** Two indices less than `n` apart but not equal land in different slots. */
  lemma DistinctSlots(a: nat, b: nat, n: nat)
    requires n > 0 && a < b < a + n
    ensures a % n != b % n
  {
    var q, r := a / n, a % n;
    assert a == q * n + r;
    var d := b - a;
    if r + d < n {
      ModOfMultiplePlus(q, r + d, n);
      assert b % n == r + d;
    } else {
      ModOfMultiplePlus(q + 1, r + d - n, n);
      assert (q + 1) * n == q * n + n;
      assert b % n == r + d - n;
    }
  }

  /** The ring holds the most recent `min(|samples|, size)` samples: sample
      `k` of that window is in slot `k % size`. */
  lemma {:induction false} WindowInRing(samples: seq<nat>, size: nat, k: nat)
    requires size > 0
    requires |samples| - Min(|samples|, size) <= k < |samples|
    ensures SlotValue(samples, size, k % size) == samples[k]
  {
    var last := |samples| - 1;
    if k < last {
      DistinctSlots(k, last, size);
      WindowInRing(samples[..last], size, k);
    }
  }

  /** Before the ring wraps, slot `k` holds sample `k`. */
  lemma SlotBeforeWrap(samples: seq<nat>, size: nat, k: nat)
    requires k < |samples| <= size
    ensures SlotValue(samples, size, k) == samples[k]
  {
    ModOfMultiplePlus(0, k, size);
    WindowInRing(samples, size, k);
  }

  /** Before the ring wraps, its first `|samples|` slots are the samples in
      order. */
  lemma RingBeforeWrap(ring: seq<nat>, samples: seq<nat>)
    requires |samples| <= |ring|
    requires forall j :: 0 <= j < |ring| ==> ring[j] == SlotValue(samples, |ring|, j)
    ensures ring[..|samples|] == samples
  {
    forall k | 0 <= k < |samples|
      ensures ring[k] == samples[k]
    {
      SlotBeforeWrap(samples, |ring|, k);
    }
  }

  /** `Sum(slots)`: what `GetAverage` adds up. */
  function Sum(s: seq<nat>): nat {
    if s == [] then 0 else Sum(s[..|s| - 1]) + s[|s| - 1]
  }

  /** The slot `GetLast` reads as written: the next slot to be written. */
  function LastSlotAsWritten(entries: nat, size: nat): (slot: nat)
    requires size > 0
    ensures slot < size
  {
    entries % size
  }

  /** The slot of the newest sample. */
  function LastSlot(entries: nat, size: nat): (slot: nat)
    requires size > 0 && entries > 0
    ensures slot < size
  {
    (entries - 1) % size
  }

  /** The newest sample is in `LastSlot`. */
  lemma LastSlotHoldsNewest(samples: seq<nat>, size: nat)
    requires size > 0 && |samples| > 0
    ensures SlotValue(samples, size, LastSlot(|samples|, size)) == samples[|samples| - 1]
  {}

  /** With two slots and one sample of 5, the slot `GetLast` reads as written
      still holds the initial 0. */
  lemma GetLastAsWrittenMissesNewest()
    ensures SlotValue([5], 2, LastSlotAsWritten(1, 2)) == 0
    ensures SlotValue([5], 2, LastSlot(1, 2)) == 5
  {}

  /** Once the ring has wrapped, `GetHistory`'s offset (and `GetLast` as
      written) names the oldest sample kept; before that it names the first
      unwritten slot. */
  lemma HistoryOffsetIsOldest(samples: seq<nat>, size: nat)
    requires size > 0
    ensures |samples| >= size ==>
              SlotValue(samples, size, |samples| % size) == samples[|samples| - size]
    ensures |samples| < size ==> |samples| % size == |samples| && SlotValue(samples, size, |samples|) == 0
  {
    if |samples| >= size {
      var k := |samples| - size;
      WindowInRing(samples, size, k);
      ModOfMultiplePlus(k / size + 1, k % size, size);
      assert |samples| == (k / size + 1) * size + k % size;
    } else {
      ModOfMultiplePlus(0, |samples|, size);
      UnwrittenSlotIsZero(samples, size, |samples|);
    }
  }

  lemma {:induction false} UnwrittenSlotIsZero(samples: seq<nat>, size: nat, slot: nat)
    requires size > 0 && |samples| <= slot < size
    ensures SlotValue(samples, size, slot) == 0
  {
    if samples != [] {
      ModOfMultiplePlus(0, |samples| - 1, size);
      UnwrittenSlotIsZero(samples[..|samples| - 1], size, slot);
    }
  }

  class TimeHistory {
    const Size: nat
    const History: array<nat>
    var Entries: nat
    ghost var Samples: seq<nat>

    ghost predicate Valid()
      reads this, History
    {
      Size > 0 && History.Length == Size && Entries == |Samples|
      && forall j :: 0 <= j < Size ==> History[j] == SlotValue(Samples, Size, j)
    }

    constructor(size: nat)
      requires size > 0
      ensures Valid() && fresh(History)
      ensures Size == size && Entries == 0 && Samples == []
    {
      Size := size;
      History := new nat[size](_ => 0);
      Entries := 0;
      Samples := [];
    }

    method AddTime(time: nat)
      requires Valid()
      modifies this, History
      ensures Valid()
      ensures Samples == old(Samples) + [time] && Entries == old(Entries) + 1
    {
      ghost var samples := Samples + [time];
      forall j | 0 <= j < Size
        ensures SlotValue(samples, Size, j) == if j == Entries % Size then time else History[j]
      {
        assert samples[..|samples| - 1] == Samples;
      }
      History[Entries % Size] := time;
      Entries := Entries + 1;
      Samples := samples;
    }

    /** The sum of the considered slots divided by their count; there must be
        at least one sample. */
    method GetAverage() returns (average: nat)
      requires Valid()
      requires Entries > 0
      ensures average == Sum(History[..Min(Entries, Size)]) / Min(Entries, Size)
      ensures Entries <= Size ==> average == Sum(Samples) / |Samples|
    {
      var total := 0;
      var count := Min(Entries, Size);
      for i := 0 to count
        invariant total == Sum(History[..i])
      {
        assert History[..i + 1][..i] == History[..i];
        total := total + History[i];
      }
      if Entries <= Size {
        RingBeforeWrap(History[..], Samples);
        assert History[..count] == Samples;
        assert total == Sum(Samples) && count == |Samples|;
      }
      average := total / count;
    }

    /** The largest considered slot, starting from 0. */
    method GetMax() returns (max: nat)
      requires Valid()
      ensures forall i :: 0 <= i < Min(Entries, Size) ==> History[i] <= max
      ensures max == 0 || exists i :: 0 <= i < Min(Entries, Size) && History[i] == max
      ensures Entries <= Size ==> (forall k :: 0 <= k < |Samples| ==> Samples[k] <= max)
                                  && (max == 0 || max in Samples)
    {
      max := 0;
      var count := Min(Entries, Size);
      for i := 0 to count
        invariant forall j :: 0 <= j < i ==> History[j] <= max
        invariant max == 0 || exists j :: 0 <= j < i && History[j] == max
      {
        max := Max(max, History[i]);
      }
      if Entries <= Size {
        RingBeforeWrap(History[..], Samples);
        assert forall k :: 0 <= k < Entries ==> Samples[k] == History[..Entries][k];
      }
    }

    /** `GetLast` as written: the slot after the newest sample. */
    method GetLastAsWritten() returns (last: nat)
      requires Valid()
      ensures last == SlotValue(Samples, Size, LastSlotAsWritten(Entries, Size))
    {
      last := History[Entries % Size];
    }

    /** The newest sample, or the initial 0 before any was added. */
    method GetLast() returns (last: nat)
      requires Valid()
      ensures last == if Samples == [] then 0 else Samples[|Samples| - 1]
    {
      if Entries == 0 {
        last := History[0];
        UnwrittenSlotIsZero(Samples, Size, 0);
      } else {
        LastSlotHoldsNewest(Samples, Size);
        last := History[(Entries - 1) % Size];
      }
    }

    /** The number of valid slots and the slot the next sample goes to. */
    method GetHistory() returns (count: nat, dataOffset: nat)
      requires Valid()
      ensures count == Min(Entries, Size) && dataOffset == Entries % Size
      ensures Entries >= Size ==> History[dataOffset] == Samples[Entries - Size]
      ensures forall k :: Entries - count <= k < Entries ==> History[k % Size] == Samples[k]
    {
      count := Min(Entries, Size);
      dataOffset := Entries % Size;
      HistoryOffsetIsOldest(Samples, Size);
      forall k | Entries - count <= k < Entries
        ensures History[k % Size] == Samples[k]
      {
        WindowInRing(Samples, Size, k);
      }
    }
  }
}
