/**
 * The newer render-graph definitions (`RenderGraphDefinitions.h`): typed
 * 16-bit handles whose largest value means "invalid", and the logical
 * resource class whose physical backing is attached and released while the
 * graph compiles and executes.
 */
module RenderGraphDefinitions {
  import opened Common

  newtype uint16 = x: int | 0 <= x < 0x1_0000

  /** `std::numeric_limits<uint16>::max()`, the id of an invalid handle. */
  const InvalidId: uint16 := 0xFFFF

  /** `RGHandle<ObjectType, uint16>`; `RGPassID` and `RGResourceID` are both
      of this shape. */
  datatype Handle = Handle(id: uint16) {
    predicate IsValid() { id != InvalidId }

    function GetIndex(): uint16 { id }

    /** `operator==` and `operator!=` compare ids only. */
    predicate Equals(other: Handle) { id == other.id }
  }

  /** The default constructor: the handle holds the invalid id. */
  function DefaultHandle(): (h: Handle)
    ensures !h.IsValid()
    ensures h.GetIndex() == InvalidId
  {
    Handle(InvalidId)
  }

  /** The explicit constructor `RGHandle(id)`. */
  function HandleFromId(id: uint16): (h: Handle)
    ensures h.GetIndex() == id
    ensures h.IsValid() <==> id < InvalidId
  {
    Handle(id)
  }

  datatype ResourceType = Texture | Buffer

  /** A device resource, identified by an abstract number. */
  type PhysicalId = nat

  /** `RGResource`. `Physical` is the raw pointer used during execution,
      `Reference` the owning reference; `None` stands for a null pointer. */
  class Resource {
    const Name: string
    const ID: Handle
    const IsImported: bool
    const Type: ResourceType
    var Physical: Option<PhysicalId>
    var Reference: Option<PhysicalId>
    var IsExported: bool
    var FirstAccess: Handle
    var LastAccess: Handle
    var LastWrite: Handle

    /** `IsExported` is a bit field the source leaves uninitialised; the model
        starts it at false. */
    constructor(name: string, id: Handle, resourceType: ResourceType, physical: Option<PhysicalId>)
      ensures IsImported <==> physical.Some?
      ensures Physical == physical && Reference == physical
      ensures Name == name && ID == id && Type == resourceType
      ensures !IsExported
      ensures !FirstAccess.IsValid() && !LastAccess.IsValid() && !LastWrite.IsValid()
    {
      Name := name;
      ID := id;
      IsImported := physical.Some?;
      Type := resourceType;
      Physical := physical;
      Reference := physical;
      IsExported := false;
      FirstAccess := DefaultHandle();
      LastAccess := DefaultHandle();
      LastWrite := DefaultHandle();
    }

    /** Attaching a backing, or a null one, makes the owning reference and
        the raw pointer the same resource. */
    method SetResource(resource: Option<PhysicalId>)
      modifies this
      ensures Physical == resource && Reference == resource
      ensures IsExported == old(IsExported) && FirstAccess == old(FirstAccess)
      ensures LastAccess == old(LastAccess) && LastWrite == old(LastWrite)
    {
      Reference := resource;
      Physical := resource;
    }

    /** Releasing drops the owning reference only; the raw pointer stays for
        use during execution. */
    method Release()
      modifies this
      ensures Reference == None
      ensures Physical == old(Physical)
      ensures IsExported == old(IsExported) && FirstAccess == old(FirstAccess)
      ensures LastAccess == old(LastAccess) && LastWrite == old(LastWrite)
    {
      Reference := None;
    }

    /** `RGResourceT::Get`: checks that a physical resource exists. */
    method Get() returns (p: PhysicalId)
      requires Physical.Some?
      ensures Physical == Some(p)
    {
      p := Physical.value;
    }
  }
}
