/**
 * Device bookkeeping from `Graphics.cpp`: the deferred-delete FIFO released
 * by fences, the per-type pool of command contexts, the queue type carried in
 * the top byte of a fence value, freeing of persistent view descriptors and
 * the typed-UAV format classification.
 */
module Graphics {
  import opened Common

  type ResourceId = nat
  type FenceId = nat
  type ContextId = nat
  /** A `D3D12_COMMAND_LIST_TYPE`: DIRECT 0, BUNDLE 1, COMPUTE 2, COPY 3. */
  type ListType = nat

  // ---------------------------------------------------------------- deferred delete

  /** `FencedObject`: a resource, its fence and the fence value it waits for. */
  datatype FencedObject = FencedObject(Resource: ResourceId, Fence: FenceId, FenceValue: nat)

  /** `Fence::IsComplete`, supplied by the caller. */
  type FenceOracle = (FenceId, nat) -> bool

  function Done(isComplete: FenceOracle): FencedObject -> bool {
    (o: FencedObject) => isComplete(o.Fence, o.FenceValue)
  }

  /** The resources of a run of queue entries, in order. */
  function ResourcesOf(objects: seq<FencedObject>): (r: seq<ResourceId>)
    ensures |r| == |objects|
    ensures forall i :: 0 <= i < |r| ==> r[i] == objects[i].Resource
  {
    if objects == [] then [] else ResourcesOf(objects[..|objects| - 1]) + [objects[|objects| - 1].Resource]
  }

  class DeferredDeleteQueue {
    var Queue: seq<FencedObject>
    /** Resources released so far, in release order. */
    var Released: seq<ResourceId>

    constructor()
      ensures Queue == [] && Released == []
    {
      Queue := [];
      Released := [];
    }

    /** Appends the resource with the fence's value at enqueue time
        (`currentValue`). */
    method EnqueueResource(resource: ResourceId, fence: FenceId, currentValue: nat)
      modifies this
      ensures Queue == old(Queue) + [FencedObject(resource, fence, currentValue)]
      ensures Released == old(Released)
    {
      Queue := Queue + [FencedObject(resource, fence, currentValue)];
    }

    /** Releases entries from the front while their fence is complete. */
    method Clean(isComplete: FenceOracle)
      modifies this
      ensures var k := LeadingCount(old(Queue), Done(isComplete));
              Queue == old(Queue)[k..] && Released == old(Released) + ResourcesOf(old(Queue)[..k])
    {
      ghost var k := 0;
      while Queue != [] && isComplete(Queue[0].Fence, Queue[0].FenceValue)
        invariant k <= |old(Queue)| && Queue == old(Queue)[k..]
        invariant forall i :: 0 <= i < k ==> Done(isComplete)(old(Queue)[i])
        invariant Released == old(Released) + ResourcesOf(old(Queue)[..k])
        decreases |Queue|
      {
        assert old(Queue)[..k + 1] == old(Queue)[..k] + [Queue[0]];
        Released := Released + [Queue[0].Resource];
        Queue := Queue[1..];
        k := k + 1;
        assert old(Queue)[k..] == old(Queue)[k - 1..][1..];
      }
      LeadingCountExact(old(Queue), Done(isComplete), k);
    }

    /** The destructor idles the GPU (after which every enqueued fence value
        is complete), cleans and checks the queue is empty. */
    method Destroy(isComplete: FenceOracle)
      requires forall i :: 0 <= i < |Queue| ==> isComplete(Queue[i].Fence, Queue[i].FenceValue)
      modifies this
      ensures Queue == []
      ensures Released == old(Released) + ResourcesOf(old(Queue))
    {
      Clean(isComplete);
      LeadingCountExact(old(Queue), Done(isComplete), |old(Queue)|);
      assert old(Queue)[..|old(Queue)|] == old(Queue);
    }
  }

  /** What stays after a clean is the incomplete tail of the queue, in order,
      and every released entry's fence was complete. */
  lemma CleanKeepsOrder(queue: seq<FencedObject>, isComplete: FenceOracle)
    ensures var k := LeadingCount(queue, Done(isComplete));
            queue == queue[..k] + queue[k..]
            && (forall i :: 0 <= i < k ==> isComplete(queue[i].Fence, queue[i].FenceValue))
            && (k < |queue| ==> !isComplete(queue[k].Fence, queue[k].FenceValue))
  {
    var k := LeadingCount(queue, Done(isComplete));
    ReleasedWereComplete(queue, isComplete);
    assert queue[..k] + queue[k..] == queue;
  }

  lemma ReleasedWereComplete(queue: seq<FencedObject>, isComplete: FenceOracle)
    ensures var k := LeadingCount(queue, Done(isComplete));
            (forall i :: 0 <= i < k ==> isComplete(queue[i].Fence, queue[i].FenceValue))
            && (k < |queue| ==> !isComplete(queue[k].Fence, queue[k].FenceValue))
  {
    var done := Done(isComplete);
    var k := LeadingCount(queue, done);
    forall i | 0 <= i < k
      ensures isComplete(queue[i].Fence, queue[i].FenceValue)
    {
      assert done(queue[i]);
    }
  }

  // ---------------------------------------------------------------- fence values

  /** One step of the queue type: `1 << 56`. */
  const TypeUnit: nat := 0x100_0000_0000_0000
  /** Fence values are 64-bit. */
  const FenceLimit: nat := 0x1_0000_0000_0000_0000

  /** `fenceValue >> 56` on a 64-bit fence value. */
  function QueueTypeOf(fenceValue: nat): (t: ListType)
    requires fenceValue < FenceLimit
    ensures t < 256
  {
    fenceValue / TypeUnit
  }

  /** A fence value made of a type in the top byte and a counter below it
      decodes to that type, so `IsFenceComplete`/`WaitForFence` reach the
      queue that signalled it. */
  lemma QueueTypeOfEncoded(listType: ListType, counter: nat)
    requires listType < 256 && counter < TypeUnit
    ensures listType * TypeUnit + counter < FenceLimit
    ensures QueueTypeOf(listType * TypeUnit + counter) == listType
  {
    assert (255 - listType) * TypeUnit >= 0;
    assert listType * TypeUnit == 255 * TypeUnit - (255 - listType) * TypeUnit;
    ModOfMultiplePlus(listType, counter, TypeUnit);
  }

  /** `IsFenceComplete`: asks the fence of the queue the value names. */
  function IsFenceComplete(fenceValue: nat, queueFenceComplete: (ListType, nat) -> bool): bool
    requires fenceValue < FenceLimit
  {
    queueFenceComplete(QueueTypeOf(fenceValue), fenceValue)
  }

  /** A fence value signalled by queue type `t` is checked against that
      queue's fence. */
  lemma IsFenceCompleteAsksItsQueue(t: ListType, counter: nat, queueFenceComplete: (ListType, nat) -> bool)
    requires t < 256 && counter < TypeUnit
    ensures t * TypeUnit + counter < FenceLimit
    ensures IsFenceComplete(t * TypeUnit + counter, queueFenceComplete) == queueFenceComplete(t, t * TypeUnit + counter)
  {
    QueueTypeOfEncoded(t, counter);
  }

  // ---------------------------------------------------------------- context pool

  function Of(m: map<ListType, seq<ContextId>>, t: ListType): seq<ContextId> {
    if t in m then m[t] else []
  }

  /** The pool's invariant: contexts are numbered below the count, each
      sits in the pool of its own type, and every freed context belongs to
      the pool of the type it was freed under. */
  ghost predicate PoolValid(pool: map<ListType, seq<ContextId>>, free: map<ListType, seq<ContextId>>,
                            typeOf: map<ContextId, ListType>, count: nat)
  {
    && (forall c: ContextId :: c in typeOf <==> c < count)
    && (forall t, c :: c in Of(pool, t) ==> c in typeOf && typeOf[c] == t)
    && (forall c :: c in typeOf ==> c in Of(pool, typeOf[c]))
    && (forall t, c :: c in Of(free, t) ==> c in Of(pool, t))
  }

  /** Reusing the oldest freed context of a type yields a context of that
      type and keeps the invariant. */
  lemma ReuseKeepsPoolValid(pool: map<ListType, seq<ContextId>>, free: map<ListType, seq<ContextId>>,
                            typeOf: map<ContextId, ListType>, count: nat, t: ListType)
    requires PoolValid(pool, free, typeOf, count)
    requires Of(free, t) != []
    ensures Of(free, t)[0] in typeOf && typeOf[Of(free, t)[0]] == t
    ensures PoolValid(pool, free[t := Of(free, t)[1..]], typeOf, count)
  {
    assert Of(free, t)[0] in Of(free, t);
    var free' := free[t := Of(free, t)[1..]];
    forall u, c | c in Of(free', u)
      ensures c in Of(pool, u)
    {
      if u == t {
        assert c in Of(free, t);
      } else {
        assert Of(free', u) == Of(free, u);
      }
    }
  }

  /** Creating a context numbers it with the count, puts it in its type's
      pool and keeps the invariant. */
  lemma CreateKeepsPoolValid(pool: map<ListType, seq<ContextId>>, free: map<ListType, seq<ContextId>>,
                             typeOf: map<ContextId, ListType>, count: nat, t: ListType)
    requires PoolValid(pool, free, typeOf, count)
    ensures count !in typeOf
    ensures forall u :: count !in Of(pool, u)
    ensures PoolValid(pool[t := Of(pool, t) + [count]], free, typeOf[count := t], count + 1)
  {
    var pool' := pool[t := Of(pool, t) + [count]];
    var typeOf' := typeOf[count := t];
    forall u, c | c in Of(pool', u)
      ensures c in typeOf' && typeOf'[c] == u
    {
      if u != t {
        assert Of(pool', u) == Of(pool, u);
      } else if c != count {
        assert c in Of(pool, t);
      }
    }
    forall c | c in typeOf'
      ensures c in Of(pool', typeOf'[c])
    {
      if c != count && typeOf[c] != t {
        assert Of(pool', typeOf[c]) == Of(pool, typeOf[c]);
      }
    }
    forall u, c | c in Of(free, u)
      ensures c in Of(pool', u)
    {
      if u != t {
        assert Of(pool', u) == Of(pool, u);
      }
    }
  }

  /** Freeing a created context into its type's queue keeps the invariant. */
  lemma FreeKeepsPoolValid(pool: map<ListType, seq<ContextId>>, free: map<ListType, seq<ContextId>>,
                           typeOf: map<ContextId, ListType>, count: nat, c: ContextId)
    requires PoolValid(pool, free, typeOf, count)
    requires c in typeOf
    ensures PoolValid(pool, free[typeOf[c] := Of(free, typeOf[c]) + [c]], typeOf, count)
  {
    var free' := free[typeOf[c] := Of(free, typeOf[c]) + [c]];
    forall u, d | d in Of(free', u)
      ensures d in Of(pool, u)
    {
      if u != typeOf[c] {
        assert Of(free', u) == Of(free, u);
      } else if d != c {
        assert d in Of(free, u);
      }
    }
  }

  /** `m_CommandListPool`, `m_FreeCommandLists` and `m_CommandLists`. */
  class ContextPool {
    /** Contexts created, per list type. */
    var Pool: map<ListType, seq<ContextId>>
    /** Freed contexts, per list type, oldest first. */
    var Free: map<ListType, seq<ContextId>>
    /** The type of every context created so far. */
    var TypeOf: map<ContextId, ListType>
    /** `m_CommandLists.size()`: contexts are numbered in creation order. */
    var Count: nat
    /** Contexts that were reset for reuse, in order. */
    var Resets: seq<ContextId>

    ghost predicate Valid()
      reads this
    {
      PoolValid(Pool, Free, TypeOf, Count)
    }

    constructor()
      ensures Valid() && Pool == map[] && Free == map[] && Count == 0 && Resets == []
    {
      Pool := map[];
      Free := map[];
      TypeOf := map[];
      Count := 0;
      Resets := [];
    }

    /** Reuses (and resets) the oldest freed context of the type, or creates
        a new one and adds it to that type's pool. */
    method AllocateCommandContext(listType: ListType) returns (context: ContextId)
      requires Valid()
      modifies this
      ensures Valid()
      ensures context in TypeOf && TypeOf[context] == listType
      ensures Of(old(Free), listType) != [] ==>
                context == Of(old(Free), listType)[0]
                && Free == old(Free)[listType := Of(old(Free), listType)[1..]]
                && Resets == old(Resets) + [context]
                && Pool == old(Pool) && Count == old(Count)
      ensures Of(old(Free), listType) == [] ==>
                context == old(Count) && context !in old(TypeOf)
                && Count == old(Count) + 1
                && Pool == old(Pool)[listType := Of(old(Pool), listType) + [context]]
                && Free == old(Free) && Resets == old(Resets)
    {
      if Of(Free, listType) != [] {
        ReuseKeepsPoolValid(Pool, Free, TypeOf, Count, listType);
        context := Free[listType][0];
        Free := Free[listType := Free[listType][1..]];
        Resets := Resets + [context];
      } else {
        CreateKeepsPoolValid(Pool, Free, TypeOf, Count, listType);
        context := Count;
        Count := Count + 1;
        TypeOf := TypeOf[context := listType];
        Pool := Pool[listType := Of(Pool, listType) + [context]];
      }
    }

    /** Returns a context to its type's free queue. */
    method FreeCommandList(context: ContextId)
      requires Valid()
      requires context in TypeOf
      modifies this
      ensures Valid()
      ensures Pool == old(Pool) && TypeOf == old(TypeOf) && Count == old(Count) && Resets == old(Resets)
      ensures Free == old(Free)[TypeOf[context] := Of(old(Free), TypeOf[context]) + [context]]
    {
      FreeKeepsPoolValid(Pool, Free, TypeOf, Count, context);
      Free := Free[TypeOf[context] := Of(Free, TypeOf[context]) + [context]];
    }
  }

  // ---------------------------------------------------------------- view descriptors

  datatype DescriptorHandle = DescriptorHandle(HeapIndex: nat)

  /** The persistent view heap as seen from the device: the indices it has
      been asked to free. `InvalidHeapIndex` is the handle's sentinel. */
  class PersistentViewHeap {
    const InvalidHeapIndex: nat
    var Freed: seq<nat>

    constructor(invalidHeapIndex: nat)
      ensures InvalidHeapIndex == invalidHeapIndex && Freed == []
    {
      InvalidHeapIndex := invalidHeapIndex;
      Freed := [];
    }

    /** `GraphicsDevice::FreeViewDescriptor`. */
    method FreeViewDescriptor(handle: DescriptorHandle)
      modifies this
      ensures Freed == old(Freed) + (if handle.HeapIndex != InvalidHeapIndex then [handle.HeapIndex] else [])
      ensures InvalidHeapIndex !in Freed[|old(Freed)|..]
    {
      if handle.HeapIndex != InvalidHeapIndex {
        Freed := Freed + [handle.HeapIndex];
      }
    }
  }

  // ---------------------------------------------------------------- UAV formats

  /** The `DXGI_FORMAT`s `CheckUAVSupport` names, and every other one. */
  datatype Format =
    | R32_FLOAT | R32_UINT | R32_SINT
    | R32G32B32A32_FLOAT | R32G32B32A32_UINT | R32G32B32A32_SINT
    | R16G16B16A16_FLOAT | R16G16B16A16_UINT | R16G16B16A16_SINT
    | R8G8B8A8_UNORM | R8G8B8A8_UINT | R8G8B8A8_SINT
    | R16_FLOAT | R16_UINT | R16_SINT | R8_UNORM | R8_UINT | R8_SINT
    | R16G16B16A16_UNORM | R16G16B16A16_SNORM
    | R32G32_FLOAT | R32G32_UINT | R32G32_SINT
    | R10G10B10A2_UNORM | R10G10B10A2_UINT | R11G11B10_FLOAT | R8G8B8A8_SNORM
    | R16G16_FLOAT | R16G16_UNORM | R16G16_UINT | R16G16_SNORM | R16G16_SINT
    | R8G8_UNORM | R8G8_UINT | R8G8_SNORM | R8G8_SINT
    | R16_UNORM | R16_SNORM | R8_SNORM | A8_UNORM
    | B5G6R5_UNORM | B5G5R5A1_UNORM | B4G4R4A4_UNORM
    | OtherFormat(code: nat)

  /** Formats every device supports for typed UAV loads. */
  predicate AlwaysUAV(f: Format) {
    match f
    case R32_FLOAT | R32_UINT | R32_SINT => true
    case _ => false
  }

  /** Formats supported exactly when `TypedUAVLoadAdditionalFormats` is set. */
  predicate AdditionalUAV(f: Format) {
    match f
    case R32G32B32A32_FLOAT | R32G32B32A32_UINT | R32G32B32A32_SINT
       | R16G16B16A16_FLOAT | R16G16B16A16_UINT | R16G16B16A16_SINT
       | R8G8B8A8_UNORM | R8G8B8A8_UINT | R8G8B8A8_SINT
       | R16_FLOAT | R16_UINT | R16_SINT | R8_UNORM | R8_UINT | R8_SINT => true
    case _ => false
  }

  /** Formats that also need the per-format typed load and store bits. */
  predicate DeviceSpecificUAV(f: Format) {
    match f
    case R16G16B16A16_UNORM | R16G16B16A16_SNORM | R32G32_FLOAT | R32G32_UINT
       | R32G32_SINT | R10G10B10A2_UNORM | R10G10B10A2_UINT | R11G11B10_FLOAT
       | R8G8B8A8_SNORM | R16G16_FLOAT | R16G16_UNORM | R16G16_UINT
       | R16G16_SNORM | R16G16_SINT | R8G8_UNORM | R8G8_UINT | R8G8_SNORM
       | R8G8_SINT | R16_UNORM | R16_SNORM | R8_SNORM | A8_UNORM
       | B5G6R5_UNORM | B5G5R5A1_UNORM | B4G4R4A4_UNORM => true
    case _ => false
  }

  const UAV_TYPED_LOAD: bv32 := 0x40
  const UAV_TYPED_STORE: bv32 := 0x80

  /** `GraphicsCapabilities::CheckUAVSupport`. `additionalFormats` is the
      device's `TypedUAVLoadAdditionalFormats` cap and `support2` its
      `D3D12_FORMAT_SUPPORT2` bits per format. */
  function CheckUAVSupport(format: Format, additionalFormats: bool, support2: Format -> bv32): (r: bool)
    ensures r ==> AlwaysUAV(format) || additionalFormats
  {
    var mask := UAV_TYPED_LOAD | UAV_TYPED_STORE;
    if AlwaysUAV(format) then true
    else if AdditionalUAV(format) then additionalFormats
    else if DeviceSpecificUAV(format) then additionalFormats && support2(format) & mask == mask
    else false
  }

  /** Both typed-UAV bits set is the mask test of the source. */
  lemma MaskHasBothBits(x: bv32)
    ensures (x & (UAV_TYPED_LOAD | UAV_TYPED_STORE) == UAV_TYPED_LOAD | UAV_TYPED_STORE)
            <==> (x & UAV_TYPED_LOAD != 0 && x & UAV_TYPED_STORE != 0)
  {}

  /** Without the additional-formats cap only the three 32-bit single
      channel formats qualify; a format outside the three groups never
      does; a device-specific format needs the cap and both bits. */
  lemma UAVSupportClassification(format: Format, additionalFormats: bool, support2: Format -> bv32)
    ensures CheckUAVSupport(format, false, support2) <==> AlwaysUAV(format)
    ensures CheckUAVSupport(format, additionalFormats, support2) ==>
              AlwaysUAV(format) || AdditionalUAV(format) || DeviceSpecificUAV(format)
    ensures DeviceSpecificUAV(format) && !AlwaysUAV(format) && !AdditionalUAV(format) ==>
              (CheckUAVSupport(format, additionalFormats, support2) <==>
                 additionalFormats && support2(format) & UAV_TYPED_LOAD != 0 && support2(format) & UAV_TYPED_STORE != 0)
  {
    MaskHasBothBits(support2(format));
  }

  /** The three groups are disjoint, so each named format has one rule. */
  lemma UAVGroupsDisjoint(format: Format)
    ensures !(AlwaysUAV(format) && AdditionalUAV(format))
    ensures !(AlwaysUAV(format) && DeviceSpecificUAV(format))
    ensures !(AdditionalUAV(format) && DeviceSpecificUAV(format))
  {}
}
