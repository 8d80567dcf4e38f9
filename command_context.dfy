/**
 * The command context's own bookkeeping (`CommandContext.cpp`): resource
 * transitions are batched in a fixed-size barrier array and flushed to the
 * command list, descriptor heaps are tracked per type and re-bound when one
 * changes, and dynamic vertex/index buffer views are sized from the upload.
 * The command list itself is a foreign object; the model records what is
 * sent to it, in order, in `Log`.
 */
module CommandContext {
  import opened Common

  type ResourceId = nat
  type HeapId = nat
  type FenceValue = nat
  /** A `D3D12_RESOURCE_STATES` bit mask. */
  type ResourceState = nat

  const COPY_DEST: ResourceState := 0x400
  /** VERTEX_AND_CONSTANT_BUFFER | INDEX_BUFFER | NON_PIXEL_SHADER_RESOURCE
      | PIXEL_SHADER_RESOURCE | INDIRECT_ARGUMENT | COPY_SOURCE. */
  const GENERIC_READ: ResourceState := 0xAC3
  /** `D3D12_DESCRIPTOR_HEAP_TYPE_NUM_TYPES`. */
  const NumHeapTypes: nat := 4
  /** `DXGI_FORMAT_R32_UINT`. */
  const R32_UINT: nat := 42

  datatype Barrier = Transition(Resource: ResourceId, Before: ResourceState, After: ResourceState)

  datatype VertexBufferView = VertexBufferView(Location: nat, SizeInBytes: nat, StrideInBytes: nat)
  datatype IndexBufferView = IndexBufferView(Location: nat, SizeInBytes: nat, Format: nat)

  /** A call made on the command list or its queue. */
  datatype Command =
    | ResourceBarrier(Barriers: seq<Barrier>)
    | SetDescriptorHeaps(Heaps: seq<HeapId>)
    | CopyBufferRegion(Dest: ResourceId, Source: ResourceId, SourceOffset: nat, Size: nat)
    | SetVertexBuffers(Slot: nat, VertexView: VertexBufferView)
    | SetIndexBuffer(IndexView: IndexBufferView)
    | Submit(Fence: FenceValue)
    | WaitForFence(WaitFence: FenceValue)
    | ResetList

  /** Every barrier the log has submitted, in order. */
  function Submitted(log: seq<Command>): seq<Barrier> {
    if log == [] then []
    else
      var last := log[|log| - 1];
      Submitted(log[..|log| - 1]) + (if last.ResourceBarrier? then last.Barriers else [])
  }

  lemma SubmittedAppend(log: seq<Command>, c: Command)
    ensures Submitted(log + [c]) == Submitted(log) + (if c.ResourceBarrier? then c.Barriers else [])
  {
    assert (log + [c])[..|log|] == log;
  }

  /** The queued barriers and the command log. */
  datatype Recorder = Recorder(Pending: seq<Barrier>, Log: seq<Command>)

  /** `FlushResourceBarriers`: sends the queued barriers as one call; with
      nothing queued, does nothing. No barrier is lost or reordered. */
  function Flush(r: Recorder): (f: Recorder)
    ensures f.Pending == []
    ensures Submitted(f.Log) == Submitted(r.Log) + r.Pending
    ensures r.Pending == [] ==> f == r
  {
    if |r.Pending| > 0 then
      SubmittedAppend(r.Log, ResourceBarrier(r.Pending));
      Recorder([], r.Log + [ResourceBarrier(r.Pending)])
    else r
  }

  /** `InsertResourceBarrier` on a resource in state `current`. */
  function Insert(r: Recorder, resource: ResourceId, current: ResourceState, target: ResourceState,
                  executeImmediate: bool, capacity: nat): Recorder
  {
    if current == target then r
    else
      var queued := r.Pending + [Transition(resource, current, target)];
      if executeImmediate || |queued| >= capacity then Flush(Recorder(queued, r.Log))
      else Recorder(queued, r.Log)
  }

  /** A transition to the state the resource is already in does nothing;
      any other queues exactly one transition, after every barrier queued or
      submitted before it; the queue stays below its capacity; and an
      immediate transition leaves nothing queued. */
  lemma InsertProperties(r: Recorder, resource: ResourceId, current: ResourceState, target: ResourceState,
                         executeImmediate: bool, capacity: nat)
    requires |r.Pending| < capacity
    ensures var s := Insert(r, resource, current, target, executeImmediate, capacity);
            && (current == target ==> s == r)
            && (current != target ==>
                  Submitted(s.Log) + s.Pending == Submitted(r.Log) + r.Pending + [Transition(resource, current, target)])
            && |s.Pending| < capacity
            && (executeImmediate && current != target ==> s.Pending == [])
  {
    if current != target {
      var queued := r.Pending + [Transition(resource, current, target)];
      var s := Insert(r, resource, current, target, executeImmediate, capacity);
      if executeImmediate || |queued| >= capacity {
        assert Submitted(s.Log) == Submitted(r.Log) + queued;
      }
    }
  }

  /** `InitializeBuffer`'s effect: a transition to COPY_DEST, the copy, a
      transition to GENERIC_READ, each transition sent immediately. */
  function InitializeBufferEffect(r: Recorder, resource: ResourceId, current: ResourceState,
                                  copy: Command, capacity: nat): Recorder
  {
    var before := Insert(r, resource, current, COPY_DEST, true, capacity);
    Insert(Recorder(before.Pending, before.Log + [copy]), resource, COPY_DEST, GENERIC_READ, true, capacity)
  }

  /** The copy is preceded by the transition to COPY_DEST (when one is
      needed, nothing is left queued before the copy) and followed directly
      by the barrier call ending in the transition to GENERIC_READ. */
  lemma InitializeBufferOrder(r: Recorder, resource: ResourceId, current: ResourceState,
                              copy: Command, capacity: nat)
    requires !copy.ResourceBarrier?
    ensures var before := Insert(r, resource, current, COPY_DEST, true, capacity);
            var s := InitializeBufferEffect(r, resource, current, copy, capacity);
            && (current != COPY_DEST ==>
                  before.Pending == [] && |before.Log| > 0 && before.Log[|before.Log| - 1].ResourceBarrier?
                  && before.Log[|before.Log| - 1].Barriers[|before.Log[|before.Log| - 1].Barriers| - 1]
                     == Transition(resource, current, COPY_DEST))
            && s.Pending == []
            && s.Log == before.Log + [copy, ResourceBarrier(before.Pending + [Transition(resource, COPY_DEST, GENERIC_READ)])]
  {
    var before := Insert(r, resource, current, COPY_DEST, true, capacity);
    assert before.Log + [copy] + [ResourceBarrier(before.Pending + [Transition(resource, COPY_DEST, GENERIC_READ)])]
        == before.Log + [copy, ResourceBarrier(before.Pending + [Transition(resource, COPY_DEST, GENERIC_READ)])];
  }

  /** The non-null heaps of `heaps`, in type order. */
  function NonNull(heaps: seq<Option<HeapId>>): (r: seq<HeapId>)
    ensures |r| <= |heaps|
    ensures |r| == |heaps| <==> forall i :: 0 <= i < |heaps| ==> heaps[i].Some?
  {
    if heaps == [] then []
    else NonNull(heaps[..|heaps| - 1]) + (if heaps[|heaps| - 1].Some? then [heaps[|heaps| - 1].value] else [])
  }

  /** A heap is bound exactly when some type slot holds it, and nothing is
      bound exactly when every slot is empty. */
  lemma {:induction false} NonNullMembership(heaps: seq<Option<HeapId>>)
    ensures forall h :: h in NonNull(heaps) <==> Some(h) in heaps
    ensures NonNull(heaps) == [] <==> forall i :: 0 <= i < |heaps| ==> heaps[i].None?
  {
    if heaps != [] {
      NonNullMembership(heaps[..|heaps| - 1]);
      assert heaps == heaps[..|heaps| - 1] + [heaps[|heaps| - 1]];
    }
  }

  /** The dynamic vertex buffer view: `elementCount` vertices of
      `elementSize` bytes each at the upload's GPU address. */
  function DynamicVertexBufferView(location: nat, elementCount: nat, elementSize: nat): (v: VertexBufferView)
    ensures v.Location == location && v.StrideInBytes == elementSize
    ensures elementSize > 0 ==> v.SizeInBytes % v.StrideInBytes == 0 && v.SizeInBytes / v.StrideInBytes == elementCount
    ensures elementSize == 0 ==> v.SizeInBytes == 0
  {
    if elementSize > 0 then
      ModOfMultiplePlus(elementCount, 0, elementSize);
      VertexBufferView(location, elementSize * elementCount, elementSize)
    else VertexBufferView(location, 0, elementSize)
  }

  /** The dynamic index buffer view: `elementCount` 32-bit indices. */
  function DynamicIndexBufferView(location: nat, elementCount: nat): (v: IndexBufferView)
    ensures v.Location == location && v.Format == R32_UINT
    ensures v.SizeInBytes % 4 == 0 && v.SizeInBytes / 4 == elementCount
  {
    ModOfMultiplePlus(elementCount, 0, 4);
    IndexBufferView(location, elementCount * 4, R32_UINT)
  }

  /** `GraphicsResource`: only its tracked state matters here. */
  class GraphicsResource {
    const Id: ResourceId
    var CurrentState: ResourceState

    constructor(id: ResourceId, state: ResourceState)
      ensures Id == id && CurrentState == state
    {
      Id := id;
      CurrentState := state;
    }
  }

  class CommandContext {
    const Capacity: nat
    const QueuedBarriers: array<Barrier>
    var NumQueuedBarriers: nat
    const CurrentDescriptorHeaps: array<Option<HeapId>>
    var Log: seq<Command>

    ghost predicate Valid()
      reads this
    {
      QueuedBarriers.Length == Capacity && NumQueuedBarriers < Capacity
      && CurrentDescriptorHeaps.Length == NumHeapTypes
    }

    /** The queued barriers and everything sent so far. */
    ghost function State(): Recorder
      reads this, QueuedBarriers
      requires Valid()
    {
      Recorder(QueuedBarriers[..NumQueuedBarriers], Log)
    }

    constructor(capacity: nat)
      requires capacity > 0
      ensures Valid() && fresh(QueuedBarriers) && fresh(CurrentDescriptorHeaps)
      ensures State() == Recorder([], [])
      ensures forall i :: 0 <= i < NumHeapTypes ==> CurrentDescriptorHeaps[i].None?
    {
      Capacity := capacity;
      QueuedBarriers := new Barrier[capacity](_ => Transition(0, 0, 0));
      NumQueuedBarriers := 0;
      CurrentDescriptorHeaps := new Option<HeapId>[NumHeapTypes](_ => None);
      Log := [];
    }

    method FlushResourceBarriers()
      requires Valid()
      modifies this
      ensures Valid()
      ensures State() == Flush(old(State()))
    {
      if NumQueuedBarriers > 0 {
        Log := Log + [ResourceBarrier(QueuedBarriers[..NumQueuedBarriers])];
        NumQueuedBarriers := 0;
      }
    }

    method InsertResourceBarrier(resource: GraphicsResource, state: ResourceState, executeImmediate: bool)
      requires Valid()
      modifies this, QueuedBarriers, resource
      ensures Valid()
      ensures resource.CurrentState == state
      ensures State() == Insert(old(State()), resource.Id, old(resource.CurrentState), state, executeImmediate, Capacity)
    {
      if resource.CurrentState != state {
        ghost var queued := State().Pending + [Transition(resource.Id, resource.CurrentState, state)];
        QueuedBarriers[NumQueuedBarriers] := Transition(resource.Id, resource.CurrentState, state);
        NumQueuedBarriers := NumQueuedBarriers + 1;
        assert QueuedBarriers[..NumQueuedBarriers] == queued;
        if executeImmediate || NumQueuedBarriers >= QueuedBarriers.Length {
          Log := Log + [ResourceBarrier(QueuedBarriers[..NumQueuedBarriers])];
          NumQueuedBarriers := 0;
        }
        resource.CurrentState := state;
      }
    }

    /** Flushes the barriers, then submits; `fenceValue` is what the queue
        returns. */
    method Execute(wait: bool, fenceValue: FenceValue) returns (f: FenceValue)
      requires Valid()
      modifies this
      ensures Valid() && f == fenceValue
      ensures var flushed := Flush(old(State()));
              State() == Recorder([], flushed.Log + [Submit(fenceValue)] + (if wait then [WaitForFence(fenceValue)] else []))
    {
      FlushResourceBarriers();
      Log := Log + [Submit(fenceValue)];
      if wait {
        Log := Log + [WaitForFence(fenceValue)];
      }
      f := fenceValue;
    }

    method ExecuteAndReset(wait: bool, fenceValue: FenceValue) returns (f: FenceValue)
      requires Valid()
      modifies this
      ensures Valid() && f == fenceValue
      ensures var flushed := Flush(old(State()));
              State() == Recorder([], flushed.Log + [Submit(fenceValue)]
                                       + (if wait then [WaitForFence(fenceValue)] else []) + [ResetList])
    {
      FlushResourceBarriers();
      Log := Log + [Submit(fenceValue)];
      if wait {
        Log := Log + [WaitForFence(fenceValue)];
      }
      Log := Log + [ResetList];
      f := fenceValue;
    }

    /** Packs the non-null heaps in type order and binds them, if any. */
    method BindDescriptorHeaps()
      requires Valid()
      modifies this
      ensures Valid() && NumQueuedBarriers == old(NumQueuedBarriers)
      ensures var heaps := NonNull(CurrentDescriptorHeaps[..]);
              Log == old(Log) + (if heaps == [] then [] else [SetDescriptorHeaps(heaps)])
    {
      var heapsToBind := new HeapId[NumHeapTypes];
      var heapCount := 0;
      for i := 0 to NumHeapTypes
        modifies heapsToBind
        invariant heapCount <= i
        invariant heapsToBind[..heapCount] == NonNull(CurrentDescriptorHeaps[..i])
      {
        assert CurrentDescriptorHeaps[..i + 1][..i] == CurrentDescriptorHeaps[..i];
        if CurrentDescriptorHeaps[i].Some? {
          heapsToBind[heapCount] := CurrentDescriptorHeaps[i].value;
          heapCount := heapCount + 1;
        }
      }
      assert CurrentDescriptorHeaps[..NumHeapTypes] == CurrentDescriptorHeaps[..];
      if heapCount > 0 {
        Log := Log + [SetDescriptorHeaps(heapsToBind[..heapCount])];
      }
    }

    /** Rebinds only when the heap of that type changes. */
    method SetDescriptorHeap(heap: Option<HeapId>, heapType: nat)
      requires Valid()
      requires heapType < NumHeapTypes
      modifies this, CurrentDescriptorHeaps
      ensures Valid() && NumQueuedBarriers == old(NumQueuedBarriers)
      ensures CurrentDescriptorHeaps[..] == old(CurrentDescriptorHeaps[..])[heapType := heap]
      ensures var heaps := NonNull(CurrentDescriptorHeaps[..]);
              Log == if old(CurrentDescriptorHeaps[heapType]) == heap then old(Log)
                     else old(Log) + (if heaps == [] then [] else [SetDescriptorHeaps(heaps)])
    {
      if CurrentDescriptorHeaps[heapType] != heap {
        CurrentDescriptorHeaps[heapType] := heap;
        BindDescriptorHeaps();
      }
    }

    /** `location` is the GPU address of the upload allocation. */
    method SetDynamicVertexBuffer(rootIndex: nat, elementCount: nat, elementSize: nat, location: nat)
      requires Valid()
      modifies this
      ensures Valid() && NumQueuedBarriers == old(NumQueuedBarriers)
      ensures Log == old(Log) + [SetVertexBuffers(rootIndex, DynamicVertexBufferView(location, elementCount, elementSize))]
    {
      Log := Log + [SetVertexBuffers(rootIndex, DynamicVertexBufferView(location, elementCount, elementSize))];
    }

    method SetDynamicIndexBuffer(elementCount: nat, location: nat)
      requires Valid()
      modifies this
      ensures Valid() && NumQueuedBarriers == old(NumQueuedBarriers)
      ensures Log == old(Log) + [SetIndexBuffer(DynamicIndexBufferView(location, elementCount))]
    {
      Log := Log + [SetIndexBuffer(DynamicIndexBufferView(location, elementCount))];
    }

    /** Copies `dataSize` bytes from the upload allocation (`source` at
        `sourceOffset`) into the resource between two immediate transitions. */
    method InitializeBuffer(resource: GraphicsResource, dataSize: nat, source: ResourceId, sourceOffset: nat)
      requires Valid()
      modifies this, QueuedBarriers, resource
      ensures Valid()
      ensures resource.CurrentState == GENERIC_READ
      ensures State() == InitializeBufferEffect(old(State()), resource.Id, old(resource.CurrentState),
                                                CopyBufferRegion(resource.Id, source, sourceOffset, dataSize), Capacity)
    {
      InsertResourceBarrier(resource, COPY_DEST, true);
      Log := Log + [CopyBufferRegion(resource.Id, source, sourceOffset, dataSize)];
      InsertResourceBarrier(resource, GENERIC_READ, true);
    }
  }
}
