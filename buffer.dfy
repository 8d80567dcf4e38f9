/**
 * `Buffer` (`D3D12/Graphics/Buffer.cpp`): how a buffer description becomes
 * the resource description, initial state and heap the device is asked
 * for, how `SetData` writes into the buffer, and the shader-resource and
 * unordered-access views over it. The device is not modelled: a created
 * resource is recorded as the request made for it, and the buffer's memory
 * as the byte sequence `Contents`.
 */
module Buffer {
  import opened Common

  /** `BufferUsage` bits; `OtherUsage` stands for every other bit. */
  datatype UsageFlag = ShaderResource | UnorderedAccess | OtherUsage(Bit: nat)

  /** `BufferStorageType`; `OtherStorage` is any other value. */
  datatype StorageType = Default | Upload | Readback | OtherStorage(Code: nat)

  datatype BufferDesc = BufferDesc(ElementCount: nat, ByteStride: nat, Usage: set<UsageFlag>, Storage: StorageType)

  datatype ResourceFlag = DenyShaderResource | AllowUnorderedAccess

  datatype ResourceState = CommonState | GenericRead | CopyDest | OtherState(Code: nat)

  /** The heap kinds; `UnsetHeap` is the heap type 0 left when the storage
      matches none of the three cases. */
  datatype HeapType = DefaultHeap | UploadHeap | ReadbackHeap | UnsetHeap

  /** The fields of `D3D12_RESOURCE_DESC` that `Create` sets; the dimension
      is always a buffer, the format unknown and the layout row-major. */
  datatype ResourceDesc = ResourceDesc(Width: nat, Height: nat, DepthOrArraySize: nat, MipLevels: nat,
                                       SampleCount: nat, SampleQuality: nat, Alignment: nat, Flags: set<ResourceFlag>)

  /** A resource as requested from the device. */
  datatype CreatedResource = CreatedResource(Desc: ResourceDesc, InitialState: ResourceState, Heap: HeapType)

  /** The resource description for a buffer description: one row of
      `ElementCount` elements of `ByteStride` bytes, denied to shaders
      unless it is a shader resource, open to unordered access when it is
      used that way. */
  function ResourceDescFor(desc: BufferDesc): (r: ResourceDesc)
    ensures r.Width == desc.ByteStride * desc.ElementCount
    ensures r.Height == 1 && r.DepthOrArraySize == 1 && r.MipLevels == 1 && r.SampleCount == 1 && r.SampleQuality == 0 && r.Alignment == 0
    ensures DenyShaderResource in r.Flags <==> ShaderResource !in desc.Usage
    ensures AllowUnorderedAccess in r.Flags <==> UnorderedAccess in desc.Usage
  {
    var deny: set<ResourceFlag> := if ShaderResource !in desc.Usage then {DenyShaderResource} else {};
    var allow: set<ResourceFlag> := if UnorderedAccess in desc.Usage then {AllowUnorderedAccess} else {};
    ResourceDesc(desc.ByteStride * desc.ElementCount, 1, 1, 1, 1, 0, 0, deny + allow)
  }

  /** The heap for a storage type; any other storage trips the assertion
      and, with assertions off, leaves heap type 0. */
  function HeapFor(storage: StorageType): (h: HeapType)
    ensures h == UnsetHeap <==> storage.OtherStorage?
  {
    match storage
    case Default => DefaultHeap
    case Upload => UploadHeap
    case Readback => ReadbackHeap
    case OtherStorage(_) => UnsetHeap
  }

  /** `dst` with `data` copied in at `at`. */
  function Written(dst: seq<bv8>, at: nat, data: seq<bv8>): (r: seq<bv8>)
    requires at + |data| <= |dst|
    ensures |r| == |dst| && r[at..at + |data|] == data
    ensures forall i :: 0 <= i < |dst| && !(at <= i < at + |data|) ==> r[i] == dst[i]
  {
    dst[..at] + data + dst[at + |data|..]
  }

  /** `SetData` as written hands the copy to `InitializeBuffer`, which
      always writes from byte 0, so `offset` is checked but not used. */
  function SetDataContentsAsWritten(contents: seq<bv8>, data: seq<bv8>, offset: nat): (r: seq<bv8>)
    requires offset + |data| <= |contents|
    ensures |r| == |contents| && r[..|data|] == data
    ensures forall i :: |data| <= i < |contents| ==> r[i] == contents[i]
  {
    Written(contents, 0, data)
  }

  /** `SetData` writing `data` at `offset`. */
  function SetDataContents(contents: seq<bv8>, data: seq<bv8>, offset: nat): (r: seq<bv8>)
    requires offset + |data| <= |contents|
    ensures |r| == |contents| && r[offset..offset + |data|] == data
    ensures forall i :: 0 <= i < |contents| && !(offset <= i < offset + |data|) ==> r[i] == contents[i]
  {
    Written(contents, offset, data)
  }

  /** Two bytes of zero, one byte of data at offset 1: as written the byte
      lands at 0 and byte 1 is still zero. */
  lemma SetDataAsWrittenIgnoresOffset()
    ensures SetDataContentsAsWritten([0, 0], [1], 1) == [1, 0]
    ensures SetDataContents([0, 0], [1], 1) == [0, 1]
  {
    assert SetDataContentsAsWritten([0, 0], [1], 1) == [] + [1] + [0];
    assert SetDataContents([0, 0], [1], 1) == [0] + [1] + [];
  }

  /** The view description shared by `BufferSRV::Create` and
      `BufferUAV::Create`. */
  datatype ViewDesc = ViewDesc(Format: nat, Raw: bool, NumElements: nat, StructureByteStride: nat)

  /** A view over a buffer: every element, raw views without a stride. */
  function ViewFor(buffer: BufferDesc, isRaw: bool, format: nat): (v: ViewDesc)
    ensures v.Format == format && v.Raw == isRaw && v.NumElements == buffer.ElementCount
    ensures v.StructureByteStride == if isRaw then 0 else buffer.ByteStride
  {
    ViewDesc(format, isRaw, buffer.ElementCount, if isRaw then 0 else buffer.ByteStride)
  }

  /** A structured view spans exactly the resource created for the buffer. */
  lemma StructuredViewCoversResource(buffer: BufferDesc, format: nat)
    ensures var v := ViewFor(buffer, false, format);
            v.NumElements * v.StructureByteStride == ResourceDescFor(buffer).Width
  {
    var v := ViewFor(buffer, false, format);
    assert v.NumElements * v.StructureByteStride == buffer.ElementCount * buffer.ByteStride;
  }

  class Buffer {
    var Desc: BufferDesc
    var CurrentState: ResourceState
    var Resource: Option<CreatedResource>
    var Contents: seq<bv8>

    /** The created resource matches the description and the tracked
        state, and `Contents` covers it. */
    ghost predicate Valid()
      reads this
    {
      Resource.Some? ==>
        Resource.value.Desc == ResourceDescFor(Desc) && |Contents| == Resource.value.Desc.Width
    }

    /** A buffer with no resource yet, in `state`. */
    constructor(state: ResourceState)
      ensures Valid() && CurrentState == state && Resource == None && Contents == []
    {
      Desc := BufferDesc(0, 0, {}, Default);
      CurrentState := state;
      Resource := None;
      Contents := [];
    }

    /** The size in bytes: the element count times the stride. */
    function GetSize(): nat
      reads this
    {
      Desc.ByteStride * Desc.ElementCount
    }

    /** `Create`: releases the old resource and requests a new one. The
        state is GENERIC_READ for unordered access, COPY_DEST for readback
        storage whatever the usage, and otherwise what it was before; the
        new memory is taken as zeroed. */
    method Create(desc: BufferDesc)
      modifies this
      ensures Valid() && Desc == desc
      ensures desc.Storage == Readback ==> CurrentState == CopyDest
      ensures desc.Storage != Readback && UnorderedAccess in desc.Usage ==> CurrentState == GenericRead
      ensures desc.Storage != Readback && UnorderedAccess !in desc.Usage ==> CurrentState == old(CurrentState)
      ensures Resource == Some(CreatedResource(ResourceDescFor(desc), CurrentState, HeapFor(desc.Storage)))
      ensures Contents == seq(GetSize(), _ => 0)
    {
      Resource := None;
      Desc := desc;
      var flags: set<ResourceFlag> := {};
      var width := desc.ByteStride * desc.ElementCount;
      if ShaderResource !in desc.Usage {
        flags := flags + {DenyShaderResource};
      }
      if UnorderedAccess in desc.Usage {
        flags := flags + {AllowUnorderedAccess};
        CurrentState := GenericRead;
      }
      if desc.Storage == Readback {
        CurrentState := CopyDest;
      }
      var heap := UnsetHeap;
      match desc.Storage {
        case Default => heap := DefaultHeap;
        case Upload => heap := UploadHeap;
        case Readback => heap := ReadbackHeap;
        case OtherStorage(_) =>
      }
      Resource := Some(CreatedResource(ResourceDesc(width, 1, 1, 1, 1, 0, 0, flags), CurrentState, heap));
      Contents := seq(width, _ => 0);
    }

    /** `SetData` as written: the copy goes to byte 0 and the buffer ends
        in GENERIC_READ. */
    method SetDataAsWritten(data: seq<bv8>, offset: nat)
      requires Valid() && Resource.Some? && |data| + offset <= GetSize()
      modifies this
      ensures Valid() && Contents == SetDataContentsAsWritten(old(Contents), data, offset)
      ensures CurrentState == GenericRead && Resource == old(Resource) && Desc == old(Desc)
    {
      Contents := Written(Contents, 0, data);
      CurrentState := GenericRead;
    }

    /** `SetData`: `data` lands at `offset`, the rest of the buffer is kept,
        and the buffer ends in GENERIC_READ. */
    method SetData(data: seq<bv8>, offset: nat)
      requires Valid() && Resource.Some? && |data| + offset <= GetSize()
      modifies this
      ensures Valid() && Contents == SetDataContents(old(Contents), data, offset)
      ensures CurrentState == GenericRead && Resource == old(Resource) && Desc == old(Desc)
    {
      Contents := Written(Contents, offset, data);
      CurrentState := GenericRead;
    }
  }

  /** `BufferSRV`: a descriptor, allocated on first use, and its view. */
  class BufferSRV {
    var Parent: Buffer?
    var Descriptor: nat
    var View: Option<ViewDesc>

    constructor()
      ensures Parent == null && Descriptor == 0 && View == None
    {
      Parent := null;
      Descriptor := 0;
      View := None;
    }

    /** `Create`; `handle` is the descriptor the allocator hands out,
        used only when none is held yet. */
    method Create(buffer: Buffer, isRaw: bool, format: nat, handle: nat)
      requires handle != 0
      modifies this
      ensures Parent == buffer && Descriptor != 0
      ensures Descriptor == if old(Descriptor) == 0 then handle else old(Descriptor)
      ensures View == Some(ViewFor(buffer.Desc, isRaw, format))
    {
      Parent := buffer;
      if Descriptor == 0 {
        Descriptor := handle;
      }
      View := Some(ViewDesc(format, isRaw, buffer.Desc.ElementCount, if isRaw then 0 else buffer.Desc.ByteStride));
    }
  }

  /** `BufferUAV`: as `BufferSRV`, with an optional counter buffer. */
  class BufferUAV {
    var Parent: Buffer?
    var Counter: Buffer?
    var Descriptor: nat
    var View: Option<ViewDesc>

    constructor()
      ensures Parent == null && Counter == null && Descriptor == 0 && View == None
    {
      Parent := null;
      Counter := null;
      Descriptor := 0;
      View := None;
    }

    method Create(buffer: Buffer, isRaw: bool, format: nat, counter: Buffer?, handle: nat)
      requires handle != 0
      modifies this
      ensures Parent == buffer && Counter == counter && Descriptor != 0
      ensures Descriptor == if old(Descriptor) == 0 then handle else old(Descriptor)
      ensures View == Some(ViewFor(buffer.Desc, isRaw, format))
    {
      Parent := buffer;
      Counter := counter;
      if Descriptor == 0 {
        Descriptor := handle;
      }
      View := Some(ViewDesc(format, isRaw, buffer.Desc.ElementCount, if isRaw then 0 else buffer.Desc.ByteStride));
    }
  }
}
