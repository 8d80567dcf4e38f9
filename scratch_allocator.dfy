/**
 * The per-context scratch allocator (`ScratchAllocator.cpp`): small upload
 * allocations are bumped through fixed-size pages taken from a manager; a
 * request larger than a page gets a dedicated buffer; `Free` hands every
 * used page back to the manager together with the sync point that releases
 * it.
 */
module ScratchAllocator {
  import opened Common

  /** An upload buffer (a page or a dedicated buffer), by abstract number. */
  type BufferId = nat
  /** A sync point: the fence value after which a page may be reused. */
  type SyncPoint = nat

  /** `ScratchAllocation`: the GPU address and mapped pointer are the
      backing buffer's own plus `Offset`. */
  datatype ScratchAllocation = ScratchAllocation(Size: nat, Offset: nat, Backing: BufferId)

  /** A byte range reserved inside a page. */
  datatype Reserved = Reserved(Page: BufferId, Offset: nat, Size: nat)

  /** Two reservations do not share a byte. */
  predicate Apart(a: Reserved, b: Reserved) {
    a.Page != b.Page || a.Offset + a.Size <= b.Offset || b.Offset + b.Size <= a.Offset
  }

  ghost predicate PairwiseApart(rs: seq<Reserved>) {
    forall i, j :: 0 <= i < j < |rs| ==> Apart(rs[i], rs[j])
  }

  ghost predicate Distinct(pages: seq<BufferId>) {
    forall i, j :: 0 <= i < j < |pages| ==> pages[i] != pages[j]
  }

  /** The pages handed back with their sync point, in order. */
  function Tagged(pages: seq<BufferId>, syncPoint: SyncPoint): (r: seq<(BufferId, SyncPoint)>)
    ensures |r| == |pages|
    ensures forall i :: 0 <= i < |r| ==> r[i] == (pages[i], syncPoint)
  {
    if pages == [] then [] else Tagged(pages[..|pages| - 1], syncPoint) + [(pages[|pages| - 1], syncPoint)]
  }

  /** `ScratchAllocationManager`: `Retired` is what its page pool has been
      given back, oldest first. */
  class ScratchAllocationManager {
    const PageSize: nat
    var Retired: seq<(BufferId, SyncPoint)>

    constructor(pageSize: nat)
      ensures PageSize == pageSize && Retired == []
    {
      PageSize := pageSize;
      Retired := [];
    }

    /** Returns every page to the pool under the same sync point. */
    method FreePages(syncPoint: SyncPoint, pages: seq<BufferId>)
      modifies this
      ensures Retired == old(Retired) + Tagged(pages, syncPoint)
    {
      for i := 0 to |pages|
        invariant Retired == old(Retired) + Tagged(pages[..i], syncPoint)
      {
        assert pages[..i + 1][..i] == pages[..i];
        Retired := Retired + [(pages[i], syncPoint)];
      }
      assert pages[..|pages|] == pages;
    }
  }

  class ScratchAllocator {
    const Manager: ScratchAllocationManager
    var CurrentPage: Option<BufferId>
    var CurrentOffset: nat
    var UsedPages: seq<BufferId>
    /** The in-page reservations made since the last `Free`. */
    ghost var Reservations: seq<Reserved>

    ghost predicate Valid()
      reads this
    {
      && (CurrentPage.None? ==> CurrentOffset == 0 && UsedPages == [] && Reservations == [])
      && (CurrentPage.Some? ==> |UsedPages| > 0 && UsedPages[|UsedPages| - 1] == CurrentPage.value)
      && CurrentOffset <= Manager.PageSize
      && Distinct(UsedPages)
      && PairwiseApart(Reservations)
      && (forall i :: 0 <= i < |Reservations| ==>
            Reservations[i].Page in UsedPages
            && Reservations[i].Offset + Reservations[i].Size <= Manager.PageSize
            && (Some(Reservations[i].Page) == CurrentPage ==>
                  Reservations[i].Offset + Reservations[i].Size <= CurrentOffset))
    }

    /** `Init`: no page yet. */
    constructor(manager: ScratchAllocationManager)
      ensures Valid()
      ensures Manager == manager && CurrentPage == None && CurrentOffset == 0 && UsedPages == []
    {
      Manager := manager;
      CurrentPage := None;
      CurrentOffset := 0;
      UsedPages := [];
      Reservations := [];
    }

    /** `freshPage` is what the manager's pool hands out (a page not in use
        by this allocator); `largeBuffer` is the dedicated buffer created for
        a request larger than a page. */
    method Allocate(size: nat, alignment: nat, freshPage: BufferId, largeBuffer: BufferId)
      returns (allocation: ScratchAllocation)
      requires Valid()
      requires alignment > 0
      requires freshPage !in UsedPages
      modifies this
      ensures Valid()
      ensures allocation.Size == size
      ensures var bufferSize := AlignUp(size, alignment);
              if bufferSize > Manager.PageSize then
                allocation == ScratchAllocation(size, 0, largeBuffer)
                && CurrentPage == old(CurrentPage) && CurrentOffset == old(CurrentOffset)
                && UsedPages == old(UsedPages) && Reservations == old(Reservations)
              else
                var start := AlignUp(old(CurrentOffset), alignment);
                var newPage := old(CurrentPage).None? || start + bufferSize >= Manager.PageSize;
                && CurrentPage == Some(allocation.Backing)
                && (newPage ==> allocation.Backing == freshPage && allocation.Offset == 0
                                && UsedPages == old(UsedPages) + [freshPage])
                && (!newPage ==> allocation.Backing == old(CurrentPage).value && allocation.Offset == start
                                 && UsedPages == old(UsedPages))
                && allocation.Offset % alignment == 0
                && allocation.Offset + bufferSize <= Manager.PageSize
                && CurrentOffset == allocation.Offset + bufferSize
                && (forall r :: r in old(Reservations) ==> Apart(r, Reserved(allocation.Backing, allocation.Offset, bufferSize)))
                && Reservations == old(Reservations) + [Reserved(allocation.Backing, allocation.Offset, bufferSize)]
    {
      var bufferSize := AlignUp(size, alignment);
      if bufferSize > Manager.PageSize {
        return ScratchAllocation(size, 0, largeBuffer);
      }
      var offset := AlignUp(CurrentOffset, alignment);
      if CurrentPage == None || offset + bufferSize >= Manager.PageSize {
        CurrentPage := Some(freshPage);
        offset := 0;
        UsedPages := UsedPages + [freshPage];
      }
      allocation := ScratchAllocation(size, offset, CurrentPage.value);
      ghost var reserved := Reserved(CurrentPage.value, offset, bufferSize);
      assert forall r :: r in Reservations ==> Apart(r, reserved);
      Reservations := Reservations + [reserved];
      CurrentOffset := offset + bufferSize;
    }

    /** Hands every used page to the manager under `syncPoint` and starts
        over with no page. */
    method Free(syncPoint: SyncPoint)
      requires Valid()
      modifies this, Manager
      ensures Valid()
      ensures Manager.Retired == old(Manager.Retired) + Tagged(old(UsedPages), syncPoint)
      ensures UsedPages == [] && CurrentPage == None && CurrentOffset == 0
    {
      Manager.FreePages(syncPoint, UsedPages);
      UsedPages := [];
      CurrentPage := None;
      CurrentOffset := 0;
      Reservations := [];
    }
  }
}
