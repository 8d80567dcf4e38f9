/**
 * The upload ring buffer (`RingBufferAllocator.cpp`): allocations are carved
 * from a fixed-size buffer between a consume and a produce offset; a freed
 * allocation is retired with the fence value of its copy, and retired ranges
 * are given back, oldest first, once their fence has completed.
 */
module RingBufferAllocator {
  import opened Common

  /** The sentinel offset of a failed placement. */
  const InvalidOffset: nat := 0xFFFF_FFFF

  /** Is byte `b` inside the region the offsets mark as in flight? With
      `produce >= consume` that is `[consume, produce)`, otherwise the region
      wraps: `[consume, capacity)` and `[0, produce)`. */
  predicate InFlight(b: nat, consume: nat, produce: nat, capacity: nat) {
    if produce >= consume then consume <= b < produce
    else consume <= b < capacity || b < produce
  }

  /** The placement of `Allocate` as written: `(offset, new produce offset)`,
      or `None` when the request does not fit. */
  function PlaceAsWritten(produce: nat, consume: nat, capacity: nat, size: nat): (r: Option<(nat, nat)>)
    ensures r.Some? ==> r.value.1 == r.value.0 + size && (r.value.0 == produce || r.value.0 == 0)
  {
    if size > capacity then None
    else
      var r :=
        if produce >= consume then
          if produce + size <= capacity then Some((produce, produce + size))
          else if size <= consume then Some((0, size))
          else None
        else if produce + size <= consume then Some((produce, produce + size))
        else None;
      if r.Some? && r.value.0 == InvalidOffset then None else r
  }

  /** The placement with the wrap-around test and the catching-up test made
      strict, so that a non-empty placement never moves the produce offset
      onto the consume offset (where the offsets would read as an empty
      buffer). */
  function Place(produce: nat, consume: nat, capacity: nat, size: nat): (r: Option<(nat, nat)>)
    requires produce <= capacity && consume <= capacity
    ensures r.Some? ==> r.value.0 + size <= capacity && r.value.1 <= capacity
    ensures r.Some? ==> r.value.1 == r.value.0 + size
  {
    if size > capacity then None
    else
      var r :=
        if produce >= consume then
          if produce + size <= capacity then Some((produce, produce + size))
          else if size < consume then Some((0, size))
          else None
        else if produce + size < consume then Some((produce, produce + size))
        else None;
      if r.Some? && r.value.0 == InvalidOffset then None else r
  }

  /** A placement never overlaps the in-flight region, the new region covers
      the old one and the new range, and a non-empty placement never leaves
      the offsets equal. */
  lemma PlaceIsDisjoint(produce: nat, consume: nat, capacity: nat, size: nat)
    requires produce <= capacity && consume <= capacity
    requires Place(produce, consume, capacity, size).Some?
    ensures var (offset, next) := Place(produce, consume, capacity, size).value;
            (forall b :: offset <= b < offset + size ==> !InFlight(b, consume, produce, capacity))
            && (forall b :: InFlight(b, consume, produce, capacity) ==> InFlight(b, consume, next, capacity))
            && (forall b :: offset <= b < offset + size ==> InFlight(b, consume, next, capacity))
            && (size > 0 ==> next != consume)
  {}

  /** The as-written placement agrees with `Place` except when the request
      would end exactly on the consume offset. */
  lemma PlaceAsWrittenDiffersOnlyAtConsume(produce: nat, consume: nat, capacity: nat, size: nat)
    requires produce <= capacity && consume <= capacity
    requires PlaceAsWritten(produce, consume, capacity, size) != Place(produce, consume, capacity, size)
    ensures PlaceAsWritten(produce, consume, capacity, size).Some?
    ensures PlaceAsWritten(produce, consume, capacity, size).value.1 == consume
  {}

  /** With a 10-byte buffer whose bytes `[6, 10)` are still in flight
      (consume 6, produce 10), the as-written placement wraps a 6-byte request
      to offset 0 and leaves produce == consume == 6; the offsets now read as
      an empty buffer, and the next 2-byte request is placed at offset 6,
      inside the range still in flight. */
  lemma PlaceAsWrittenOverlapsInFlight()
    ensures InFlight(6, 6, 10, 10)
    ensures PlaceAsWritten(10, 6, 10, 6) == Some((0, 6))
    ensures forall b :: !InFlight(b, 6, 6, 10)
    ensures PlaceAsWritten(6, 6, 10, 2) == Some((6, 8))
    ensures Place(10, 6, 10, 6) == None
  {}

  type FenceValue = nat
  type ContextId = nat

  /** A retired range and the fence value that releases it. */
  datatype RetiredAllocation = RetiredAllocation(Offset: nat, Size: nat, FenceValue: FenceValue)

  /** `RingBufferAllocation`. `Context` is the copy context; `Mapped` says
      whether the backing resource and mapped pointer are set; the GPU and
      CPU addresses are the buffer's own plus `Offset`. */
  datatype Allocation = Allocation(Offset: nat, Size: nat, Context: Option<ContextId>, Mapped: bool)

  /** Is the first retired entry's fence complete? */
  function Released(isComplete: FenceValue -> bool): RetiredAllocation -> bool {
    (r: RetiredAllocation) => isComplete(r.FenceValue)
  }

  class RingBuffer {
    const Size: nat
    var Consume: nat
    var Produce: nat
    var Retired: seq<RetiredAllocation>
    var LastSync: FenceValue

    ghost predicate Valid()
      reads this
    {
      Size < 0x1_0000_0000 && Consume <= Size && Produce <= Size
      && forall i :: 0 <= i < |Retired| ==> Retired[i].Offset + Retired[i].Size <= Size
    }

    constructor(size: nat)
      requires size < 0x1_0000_0000
      ensures Valid()
      ensures Size == size && Consume == 0 && Produce == 0 && Retired == []
    {
      Size := size;
      Consume := 0;
      Produce := 0;
      Retired := [];
      LastSync := 0;
    }

    /** The drain at the start of `Allocate`: retired entries leave from the
        front while their fence is complete, each moving the consume offset
        to its end. */
    method Drain(isComplete: FenceValue -> bool)
      requires Valid()
      modifies this
      ensures Valid() && Produce == old(Produce) && LastSync == old(LastSync)
      ensures var k := LeadingCount(old(Retired), Released(isComplete));
              Retired == old(Retired)[k..]
              && Consume == (if k == 0 then old(Consume) else old(Retired)[k - 1].Offset + old(Retired)[k - 1].Size)
    {
      ghost var k := 0;
      while Retired != [] && isComplete(Retired[0].FenceValue)
        invariant k <= |old(Retired)| && Retired == old(Retired)[k..]
        invariant forall i :: 0 <= i < k ==> Released(isComplete)(old(Retired)[i])
        invariant Produce == old(Produce) && LastSync == old(LastSync)
        invariant Consume == (if k == 0 then old(Consume) else old(Retired)[k - 1].Offset + old(Retired)[k - 1].Size)
        invariant Valid()
        decreases |Retired|
      {
        Consume := Retired[0].Offset + Retired[0].Size;
        Retired := Retired[1..];
        k := k + 1;
        assert old(Retired)[k..] == old(Retired)[k - 1..][1..];
      }
      LeadingCountExact(old(Retired), Released(isComplete), k);
    }

    /** Drains the retired entries whose fence is complete, then places the
        request. `context` is the copy context the device hands out. */
    method Allocate(size: nat, isComplete: FenceValue -> bool, context: ContextId)
      returns (result: Option<Allocation>)
      requires Valid()
      modifies this
      ensures Valid()
      ensures var k := LeadingCount(old(Retired), Released(isComplete));
              Retired == old(Retired)[k..]
              && Consume == (if k == 0 then old(Consume) else old(Retired)[k - 1].Offset + old(Retired)[k - 1].Size)
      ensures match Place(old(Produce), Consume, Size, size)
              case None => result.None? && Produce == old(Produce)
              case Some(placed) =>
                result == Some(Allocation(placed.0, size, Some(context), true)) && Produce == placed.1
      ensures result.Some? ==> result.value.Offset + result.value.Size <= Size
    {
      Drain(isComplete);
      var offset := InvalidOffset;
      if size > Size {
        return None;
      }
      if Produce >= Consume {
        if Produce + size <= Size {
          offset := Produce;
          Produce := Produce + size;
        } else if size < Consume {
          offset := 0;
          Produce := size;
        }
      } else if Produce + size < Consume {
        offset := Produce;
        Produce := Produce + size;
      }
      if offset == InvalidOffset {
        return None;
      }
      result := Some(Allocation(offset, size, Some(context), true));
    }

    /** Submits the allocation's copy context (which signals `fenceValue`) and
        retires its range; the allocation's pointers are cleared. */
    method Free(allocation: Allocation, fenceValue: FenceValue) returns (released: Allocation)
      requires Valid()
      requires allocation.Context.Some?
      requires allocation.Offset + allocation.Size <= Size
      modifies this
      ensures Valid()
      ensures Retired == old(Retired) + [RetiredAllocation(allocation.Offset, allocation.Size, fenceValue)]
      ensures LastSync == fenceValue
      ensures Consume == old(Consume) && Produce == old(Produce)
      ensures released == allocation.(Context := None, Mapped := false)
    {
      LastSync := fenceValue;
      Retired := Retired + [RetiredAllocation(allocation.Offset, allocation.Size, fenceValue)];
      released := allocation.(Context := None, Mapped := false);
    }

    /** The destructor waits on every retired fence, oldest first, and resets
        both offsets. */
    method Destroy() returns (waited: seq<FenceValue>)
      requires Valid()
      modifies this
      ensures Valid()
      ensures Retired == [] && Consume == 0 && Produce == 0
      ensures |waited| == |old(Retired)|
      ensures forall i :: 0 <= i < |waited| ==> waited[i] == old(Retired)[i].FenceValue
    {
      waited := [];
      while Retired != []
        invariant |waited| + |Retired| == |old(Retired)|
        invariant Retired == old(Retired)[|waited|..]
        invariant forall i :: 0 <= i < |waited| ==> waited[i] == old(Retired)[i].FenceValue
        invariant Valid()
        decreases |Retired|
      {
        waited := waited + [Retired[0].FenceValue];
        Retired := Retired[1..];
        assert old(Retired)[|waited|..] == old(Retired)[|waited| - 1..][1..];
      }
      Consume := 0;
      Produce := 0;
    }
  }
}
