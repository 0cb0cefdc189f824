/**
 The pager (src/Pager.cpp) as the tree sees it: decoded node pages, page ownership, and the
 buddy allocator behind them. A page is owned when it lies in the file and is not marked free.
 */
module Paging {
  import opened BitMath
  import opened BuddyPool
  import opened BuddyAllocation
  import opened TreeShape

  class Pager {
    const allocator: BuddyAllocator
    var pageCount: nat
    var nodes: Nodes

    ghost predicate Valid()
      reads this, allocator
    {
      && allocator.Valid()
      && 1 <= pageCount
      && (|allocator.inUse| == pageCount || (allocator.inUse == [] && pageCount == 1))
    }

    ghost function Owned(): set<PageId>
      reads this, allocator
    {
      set p: PageId | 1 <= p < pageCount && FreeMark(allocator.inUse, p) == 0
    }

    ghost function FreeCount(): nat
      reads allocator
    {
      PageSum(allocator.free)
    }

    /** A new file holds only the header page. */
    constructor ()
      ensures Valid() && fresh(allocator) && Owned() == {} && nodes == map[] && FreeCount() == 0
    {
      allocator := new BuddyAllocator();
      pageCount := 1;
      nodes := map[];
      new;
      EmptyFrom(0, 0);
    }

    /** Reuses a parked page if there is one and extends the file by one page otherwise. */
    method AllocatePage() returns (id: PageId)
      requires Valid()
      modifies this, allocator
      ensures Valid() && nodes == old(nodes)
      ensures id != 0 && id !in old(Owned()) && id < pageCount
      ensures Owned() == old(Owned()) + {id}
      ensures FreeCount() == if old(FreeCount()) > 0 then old(FreeCount()) - 1 else 0
    {
      var extended;
      id, extended := allocator.AllocatePages(1, pageCount);
      assert IsPowerOfTwo(1);
      EmptySumsToZero(old(allocator.free), 0);
      if extended {
        pageCount := pageCount + 1;
      }
      assert forall p: PageId :: p < pageCount ==>
               FreeMark(allocator.inUse, p) == if p == id then 0 else FreeMark(old(allocator.inUse), p);
    }

    /** Gives a page back. The pool stays valid exactly when the page was owned, or is none of the file's. */
    method FreePage(id: PageId)
      requires Valid()
      modifies this, allocator
      ensures nodes == old(nodes) && pageCount == old(pageCount)
      ensures Valid() <==> (id == 0 || id >= pageCount || id in old(Owned()))
      ensures id in old(Owned()) ==> Owned() == old(Owned()) - {id} && FreeCount() == old(FreeCount()) + 1
      ensures id == 0 || id >= pageCount ==> Owned() == old(Owned()) && FreeCount() == old(FreeCount())
    {
      hide Coalesced;
      if id == 0 || id >= pageCount {
        return;
      }
      assert IsPowerOfTwo(1);
      allocator.FreePages(id, 1);
      assert forall p: PageId ::
          FreeMark(allocator.inUse, p) == if p == id then 1 else FreeMark(old(allocator.inUse), p);
    }

    method SavePage(id: PageId, node: Node)
      requires Valid() && 0 < id < pageCount
      modifies this`nodes
      ensures nodes == old(nodes)[id := node]
    {
      nodes := nodes[id := node];
    }
  }

  lemma {:induction false} EmptySumsToZero(free: Classes, k: nat)
    requires k <= |free|
    ensures SumFrom(free, k) == 0 <==> FirstClass(free, k) == |free|
    decreases |free| - k
  {
    if k < |free| {
      EmptySumsToZero(free, k + 1);
      if free[k] != [] {
        assert |free[k]| * Pow2(k) >= 1;
      }
    }
  }
}
