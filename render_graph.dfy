/**
 * The older render-graph registry (`RenderGraph.h`): passes, logical
 * resources and resource-version nodes are appended to arrays and addressed
 * by their position; every pass and resource object lives in a bump arena
 * that is thrown away with the graph.
 */
module RenderGraph {
  import opened Common

  // RGPassFlag bits
  const PassFlagNone: nat := 0
  const PassFlagRaster: nat := 1
  const PassFlagCompute: nat := 2
  const PassFlagCopy: nat := 4
  const PassFlagInvisible: nat := 8
  const PassFlagNeverCull: nat := 16

  // RGResourceAccess bits
  const AccessNone: nat := 0
  const AccessSRV: nat := 1
  const AccessUAV: nat := 2
  const AccessRenderTarget: nat := 4
  const AccessDepth: nat := 8

  /** The index that marks a handle as invalid. */
  const InvalidIndex: int := -1

  /** `RGResourceHandle`: an index into the graph's node array. */
  datatype NodeHandle = NodeHandle(Index: int) {
    predicate IsValid() { Index != InvalidIndex }
  }

  datatype ResourceType = Texture | Buffer

  /** Descriptions and device resources are opaque to the registry. */
  type DescId = nat
  type PhysicalId = nat

  datatype ResourceDesc = TextureDesc(texture: DescId) | BufferDesc(buffer: DescId)

  /** `RGResource` of this generation: the description is a union selected by
      the resource type. */
  datatype Resource = Resource(
    Name: string,
    Id: int,
    IsImported: bool,
    Version: int,
    Type: ResourceType,
    Physical: Option<PhysicalId>,
    Desc: ResourceDesc,
    References: int)

  /** The two `RGResource` constructors: an imported resource is exactly one
      created with a physical resource, and every resource starts at
      version 0 with no references. */
  function NewResource(name: string, id: int, desc: ResourceDesc, physical: Option<PhysicalId>): (r: Resource)
    ensures r.IsImported <==> physical.Some?
    ensures r.Physical == physical && r.Id == id && r.Name == name && r.Desc == desc
    ensures r.Type == Texture <==> desc.TextureDesc?
    ensures r.Version == 0 && r.References == 0
  {
    Resource(name, id, physical.Some?, 0, if desc.TextureDesc? then Texture else Buffer, physical, desc, 0)
  }

  /** `RGNode`: one version of a resource; `Resource` is its position in the
      graph's resource array. */
  datatype Node = Node(Resource: nat, Version: int, UseFlags: nat, Writer: Option<nat>, Reads: int)

  /** The `RGNode` constructor: a fresh node copies the resource's current
      version and has no use, no writer and no reads. */
  function NewNode(index: nat, resource: Resource): (n: Node)
    ensures n.Resource == index && n.Version == resource.Version
    ensures n.UseFlags == AccessNone && n.Writer == None && n.Reads == 0
  {
    Node(index, resource.Version, AccessNone, None, 0)
  }

  /** `std::find` over a handle list: the first position holding `h`, or
      `|s|` when there is none. */
  method Find(s: seq<NodeHandle>, h: NodeHandle) returns (i: nat)
    ensures i <= |s|
    ensures i < |s| ==> s[i] == h
    ensures forall j :: 0 <= j < i ==> s[j] != h
    ensures i == |s| <==> h !in s
  {
    i := 0;
    while i < |s| && s[i] != h
      invariant i <= |s|
      invariant forall j :: 0 <= j < i ==> s[j] != h
    {
      i := i + 1;
    }
  }

  /** `RGPass`. Its read and write lists are filled by `RGPass::Read` and
      `RGPass::Write`, whose bodies are not part of this model. */
  class Pass {
    const Name: string
    const ID: int
    const Flags: nat
    var Reads: seq<NodeHandle>
    var Writes: seq<NodeHandle>
    var Bound: bool
    var References: int

    constructor(name: string, flags: nat, id: int)
      ensures Name == name && Flags == flags && ID == id
      ensures Reads == [] && Writes == [] && !Bound && References == 0
    {
      Name := name;
      Flags := flags;
      ID := id;
      Reads := [];
      Writes := [];
      Bound := false;
      References := 0;
    }

    /** Binding the execute callback checks that none is bound yet, so a pass
        is bound at most once. */
    method Bind()
      requires !Bound
      modifies this
      ensures Bound
      ensures Reads == old(Reads) && Writes == old(Writes) && References == old(References)
    {
      Bound := true;
    }

    method ReadsFrom(h: NodeHandle) returns (r: bool)
      ensures r <==> h in Reads
    {
      var i := Find(Reads, h);
      r := i != |Reads|;
    }

    method WritesTo(h: NodeHandle) returns (r: bool)
      ensures r <==> h in Writes
    {
      var i := Find(Writes, h);
      r := i != |Writes|;
    }
  }

  /** A block handed out by the arena, `[Start, Start + Size)`. */
  datatype Block = Block(Start: nat, Size: nat)

  /** The blocks lie back to back from byte 0 up to `end`. */
  ghost predicate Contiguous(blocks: seq<Block>, end: nat) {
    if blocks == [] then end == 0
    else
      var last := blocks[|blocks| - 1];
      last.Start + last.Size == end && Contiguous(blocks[..|blocks| - 1], last.Start)
  }

  /** Back-to-back blocks lie below their end and never overlap. */
  lemma {:induction false} ContiguousBlocksDisjoint(blocks: seq<Block>, end: nat)
    requires Contiguous(blocks, end)
    ensures forall i :: 0 <= i < |blocks| ==> blocks[i].Start + blocks[i].Size <= end
    ensures forall i, j :: 0 <= i < j < |blocks| ==> blocks[i].Start + blocks[i].Size <= blocks[j].Start
  {
    if blocks != [] {
      var n := |blocks| - 1;
      var init := blocks[..n];
      ContiguousBlocksDisjoint(init, blocks[n].Start);
      forall i, j | 0 <= i < j < |blocks|
        ensures blocks[i].Start + blocks[i].Size <= blocks[j].Start
      {
        assert blocks[i] == init[i];
        if j < n {
          assert blocks[j] == init[j];
        }
      }
      forall i | 0 <= i < |blocks|
        ensures blocks[i].Start + blocks[i].Size <= end
      {
        if i < n {
          assert blocks[i] == init[i];
        }
      }
    }
  }

  /** `RGGraph::Allocator`: a bump arena over `Size` bytes. */
  class Allocator {
    const Size: nat
    var Offset: nat
    /** Offsets of the objects with a destructor, in allocation order. */
    var NonPOD: seq<nat>
    /** Every block handed out so far. */
    ghost var Blocks: seq<Block>

    ghost predicate Valid()
      reads this
    {
      Offset <= Size && Contiguous(Blocks, Offset)
      && forall k :: 0 <= k < |NonPOD| ==> NonPOD[k] < Offset
    }

    constructor(size: nat)
      ensures Valid()
      ensures Size == size && Offset == 0 && NonPOD == [] && Blocks == []
    {
      Size := size;
      Offset := 0;
      NonPOD := [];
      Blocks := [];
    }

    /** Places an object of `objectSize` bytes (the size of the object itself
        for a plain-data type, of its destructor-carrying wrapper otherwise).
        Every C++ object takes at least one byte; the request must leave at
        least one byte free. */
    method Allocate(objectSize: nat, isPod: bool) returns (p: nat)
      requires Valid()
      requires objectSize >= 1
      requires Offset + objectSize < Size
      modifies this
      ensures Valid()
      ensures p == old(Offset) && Offset == old(Offset) + objectSize
      ensures Blocks == old(Blocks) + [Block(p, objectSize)]
      ensures NonPOD == if isPod then old(NonPOD) else old(NonPOD) + [p]
      ensures forall k :: 0 <= k < |old(Blocks)| ==> old(Blocks)[k].Start + old(Blocks)[k].Size <= p
    {
      p := Offset;
      ContiguousBlocksDisjoint(Blocks, Offset);
      Offset := Offset + objectSize;
      Blocks := Blocks + [Block(p, objectSize)];
      assert Blocks[..|Blocks| - 1] == old(Blocks);
      if !isPod {
        NonPOD := NonPOD + [p];
      }
    }

    /** The destructor runs the destructor of every recorded object, in
        allocation order. */
    method Destroy() returns (destroyed: seq<nat>)
      ensures destroyed == NonPOD
    {
      destroyed := [];
      var i := 0;
      while i < |NonPOD|
        invariant i <= |NonPOD|
        invariant destroyed == NonPOD[..i]
      {
        destroyed := destroyed + [NonPOD[i]];
        i := i + 1;
      }
    }
  }

  /** `RGGraph`. Pass and resource objects take `PassBytes` and
      `ResourceBytes` of the arena each (both are non-plain-data types, so
      both are recorded for destruction). */
  /** The graph's resource and node arrays. */
  datatype Registry = Registry(Resources: seq<Resource>, Nodes: seq<Node>)

  /** Every resource's id is its position and every node refers to an
      existing resource. */
  ghost predicate WellFormed(reg: Registry) {
    && (forall i :: 0 <= i < |reg.Resources| ==> reg.Resources[i].Id == i)
    && (forall i :: 0 <= i < |reg.Nodes| ==> reg.Nodes[i].Resource < |reg.Resources|)
  }

  /** One addition to the graph: a pass, or a created or imported resource. */
  datatype Addition = PassAdded | ResourceAdded(Name: string, Desc: ResourceDesc, Physical: Option<PhysicalId>)

  /** What one addition does to the arrays: a pass leaves them alone, a
      resource is appended with its position as id, followed by a first node
      for it. Nothing already there changes. */
  function Grow(reg: Registry, a: Addition): (r: Registry)
    ensures reg.Resources <= r.Resources && reg.Nodes <= r.Nodes
    ensures WellFormed(reg) ==> WellFormed(r)
  {
    match a
    case PassAdded => reg
    case ResourceAdded(name, desc, physical) =>
      var resource := NewResource(name, |reg.Resources|, desc, physical);
      Registry(reg.Resources + [resource], reg.Nodes + [NewNode(|reg.Resources|, resource)])
  }

  /** A run of additions, in order. */
  function GrowAll(reg: Registry, adds: seq<Addition>): Registry
    decreases |adds|
  {
    if adds == [] then reg else GrowAll(Grow(reg, adds[0]), adds[1..])
  }

  /** Later additions keep every existing node and resource where it is. */
  lemma {:induction false} GrowAllKeeps(reg: Registry, adds: seq<Addition>)
    ensures reg.Resources <= GrowAll(reg, adds).Resources && reg.Nodes <= GrowAll(reg, adds).Nodes
    decreases |adds|
  {
    if adds != [] {
      GrowAllKeeps(Grow(reg, adds[0]), adds[1..]);
    }
  }

  /** The handle a creator or importer returns stays valid through any later
      additions and keeps naming the resource it created: imported exactly
      when given a physical resource, with its position as id. */
  lemma CreatedHandleOutlives(reg: Registry, name: string, desc: ResourceDesc, physical: Option<PhysicalId>,
                              later: seq<Addition>)
    ensures var h := NodeHandle(|reg.Nodes|);
            var r := GrowAll(Grow(reg, ResourceAdded(name, desc, physical)), later);
            && h.IsValid() && h.Index < |r.Nodes|
            && r.Nodes[h.Index].Resource < |r.Resources|
            && r.Resources[r.Nodes[h.Index].Resource] == NewResource(name, |reg.Resources|, desc, physical)
  {
    var created := Grow(reg, ResourceAdded(name, desc, physical));
    GrowAllKeeps(created, later);
    assert created.Nodes[|reg.Nodes|].Resource == |reg.Resources|;
  }

  class Graph {
    const Arena: Allocator
    const PassBytes: nat
    const ResourceBytes: nat
    var Passes: seq<Pass>
    var Resources: seq<Resource>
    var Nodes: seq<Node>

    /** Every pass and resource knows its own position, and every node
        refers to an existing resource. */
    ghost predicate Valid()
      reads this, Arena
    {
      Arena.Valid() && PassBytes >= 1 && ResourceBytes >= 1
      && (forall i :: 0 <= i < |Passes| ==> Passes[i].ID == i)
      && WellFormed(Contents())
      && (forall i :: 0 <= i < |Resources| ==> (Resources[i].Type == Texture <==> Resources[i].Desc.TextureDesc?))
    }

    /** `allocatorSize` defaults to 0xFFFF in the source. */
    constructor(allocatorSize: nat, passBytes: nat, resourceBytes: nat)
      requires passBytes >= 1 && resourceBytes >= 1
      ensures Valid() && fresh(Arena)
      ensures Arena.Size == allocatorSize && Arena.Offset == 0
      ensures PassBytes == passBytes && ResourceBytes == resourceBytes
      ensures Passes == [] && Resources == [] && Nodes == []
    {
      Arena := new Allocator(allocatorSize);
      PassBytes := passBytes;
      ResourceBytes := resourceBytes;
      Passes := [];
      Resources := [];
      Nodes := [];
    }

    predicate IsValidHandle(h: NodeHandle)
      reads this
    {
      h.IsValid() && h.Index < |Nodes|
    }

    function Contents(): Registry
      reads this
    {
      Registry(Resources, Nodes)
    }

    method AddPass(name: string, flags: nat) returns (p: Pass)
      requires Valid()
      requires Arena.Offset + PassBytes < Arena.Size
      modifies this, Arena
      ensures Valid() && fresh(p)
      ensures p.ID == |old(Passes)| && p.Name == name && p.Flags == flags
      ensures Passes == old(Passes) + [p]
      ensures Contents() == Grow(old(Contents()), PassAdded)
      ensures Arena.Offset == old(Arena.Offset) + PassBytes
    {
      var _ := Arena.Allocate(PassBytes, false);
      p := new Pass(name, flags, |Passes|);
      Passes := Passes + [p];
    }

    /** `CreateResourceNode`: appends a fresh node for resource `index` and
        returns a handle to it. */
    method CreateResourceNode(index: nat) returns (h: NodeHandle)
      requires Valid()
      requires index < |Resources|
      modifies this
      ensures Valid()
      ensures Passes == old(Passes) && Resources == old(Resources)
      ensures Nodes == old(Nodes) + [NewNode(index, Resources[index])]
      ensures h.Index == |Nodes| - 1 && IsValidHandle(h)
    {
      Nodes := Nodes + [NewNode(index, Resources[index])];
      h := NodeHandle(|Nodes| - 1);
    }

    /** The shared body of `CreateTexture`, `CreateBuffer`, `ImportTexture`
        and `ImportBuffer`. */
    method AddResource(name: string, desc: ResourceDesc, physical: Option<PhysicalId>) returns (h: NodeHandle)
      requires Valid()
      requires Arena.Offset + ResourceBytes < Arena.Size
      modifies this, Arena
      ensures Valid()
      ensures Contents() == Grow(old(Contents()), ResourceAdded(name, desc, physical))
      ensures h.Index == |Nodes| - 1 && IsValidHandle(h)
      ensures Passes == old(Passes)
      ensures Arena.Offset == old(Arena.Offset) + ResourceBytes
    {
      var _ := Arena.Allocate(ResourceBytes, false);
      Resources := Resources + [NewResource(name, |Resources|, desc, physical)];
      h := CreateResourceNode(|Resources| - 1);
    }

    method CreateTexture(name: string, desc: DescId) returns (h: NodeHandle)
      requires Valid()
      requires Arena.Offset + ResourceBytes < Arena.Size
      modifies this, Arena
      ensures Valid()
      ensures Contents() == Grow(old(Contents()), ResourceAdded(name, TextureDesc(desc), None))
      ensures h.Index == |Nodes| - 1 && IsValidHandle(h)
      ensures !GetResource(h).IsImported && GetResource(h).Id == |old(Resources)|
      ensures Passes == old(Passes)
    {
      h := AddResource(name, TextureDesc(desc), None);
    }

    method CreateBuffer(name: string, desc: DescId) returns (h: NodeHandle)
      requires Valid()
      requires Arena.Offset + ResourceBytes < Arena.Size
      modifies this, Arena
      ensures Valid()
      ensures Contents() == Grow(old(Contents()), ResourceAdded(name, BufferDesc(desc), None))
      ensures h.Index == |Nodes| - 1 && IsValidHandle(h)
      ensures !GetResource(h).IsImported && GetResource(h).Id == |old(Resources)|
      ensures Passes == old(Passes)
    {
      h := AddResource(name, BufferDesc(desc), None);
    }

    /** The texture is passed as non-null (the source checks it) together
        with its own description. */
    method ImportTexture(name: string, texture: PhysicalId, textureDesc: DescId) returns (h: NodeHandle)
      requires Valid()
      requires Arena.Offset + ResourceBytes < Arena.Size
      modifies this, Arena
      ensures Valid()
      ensures Contents() == Grow(old(Contents()), ResourceAdded(name, TextureDesc(textureDesc), Some(texture)))
      ensures h.Index == |Nodes| - 1 && IsValidHandle(h)
      ensures GetResource(h).IsImported && GetResource(h).Physical == Some(texture)
      ensures Passes == old(Passes)
    {
      h := AddResource(name, TextureDesc(textureDesc), Some(texture));
    }

    method ImportBuffer(name: string, buffer: PhysicalId, bufferDesc: DescId) returns (h: NodeHandle)
      requires Valid()
      requires Arena.Offset + ResourceBytes < Arena.Size
      modifies this, Arena
      ensures Valid()
      ensures Contents() == Grow(old(Contents()), ResourceAdded(name, BufferDesc(bufferDesc), Some(buffer)))
      ensures h.Index == |Nodes| - 1 && IsValidHandle(h)
      ensures GetResource(h).IsImported && GetResource(h).Physical == Some(buffer)
      ensures Passes == old(Passes)
    {
      h := AddResource(name, BufferDesc(bufferDesc), Some(buffer));
    }

    /** `GetResourceNode` asserts the handle is valid. */
    function GetResourceNode(h: NodeHandle): (n: Node)
      reads this
      requires IsValidHandle(h) && h.Index >= 0
      ensures n in Nodes
    {
      Nodes[h.Index]
    }

    function GetResource(h: NodeHandle): (r: Resource)
      reads this, Arena
      requires Valid() && IsValidHandle(h) && h.Index >= 0
      ensures r in Resources && r.Id == GetResourceNode(h).Resource
    {
      Resources[GetResourceNode(h).Resource]
    }

    /** `GetDesc` checks that the resource is a texture. */
    function GetDesc(h: NodeHandle): (d: DescId)
      reads this, Arena
      requires Valid() && IsValidHandle(h) && h.Index >= 0
      requires GetResource(h).Type == Texture
      ensures GetResource(h).Desc == TextureDesc(d)
    {
      GetResource(h).Desc.texture
    }
  }
}
