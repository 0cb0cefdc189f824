/**
 The order in which freed pages come back: the page freed last is handed out first exactly when it is
 the last page of the run that is taken next, which merging with a buddy can prevent.
 */
module FreeOrder {
  import opened BitMath
  import opened BuddyPool
  import opened BuddyAllocation

  /** The single page that is handed out next. */
  function NextPage(free: Classes): PageId
    requires FirstClass(free, 0) < |free|
  {
    var k := FirstClass(free, 0); Last(free[k]) + Pow2(k) - 1
  }

  /** Class and start of the run that a freed run has become part of. */
  function Home(free: Classes, k: nat, cur: PageId): (r: (nat, PageId))
    requires k <= MAX_CLASS && |free| == MAX_CLASS + 1
    ensures k <= r.0 <= MAX_CLASS
    decreases MAX_CLASS - k
  {
    if k < MAX_CLASS && BuddyOf(cur, k) in free[k] then
      var low := if BuddyOf(cur, k) < cur then BuddyOf(cur, k) else cur;
      var gone := free[k := Unlisted(Unlisted(free[k], BuddyOf(cur, k)), cur)];
      Home(gone[k + 1 := gone[k + 1] + [low]], k + 1, low)
    else (k, cur)
  }

  /** The run that a freed run has become part of stands last in its class, and the freed pages lie in it. */
  lemma {:induction false} HomeIsLast(free: Classes, k: nat, cur: PageId)
    requires k <= MAX_CLASS && |free| == MAX_CLASS + 1 && free[k] != [] && Last(free[k]) == cur
    ensures var (m, c) := Home(free, k, cur);
            && Coalesced(free, k, cur)[m] != [] && Last(Coalesced(free, k, cur)[m]) == c
            && c <= cur && cur + Pow2(k) <= c + Pow2(m)
    decreases MAX_CLASS - k
  {
    hide Unlisted, BuddyOf;
    if k < MAX_CLASS && BuddyOf(cur, k) in free[k] {
      var low := if BuddyOf(cur, k) < cur then BuddyOf(cur, k) else cur;
      var gone := free[k := Unlisted(Unlisted(free[k], BuddyOf(cur, k)), cur)];
      BuddyIsAdjacent(cur, k);
      var q, b := cur + Pow2(k) - 1, BuddyOf(cur, k);
      assert InRun(cur, Pow2(k), cur) + InRun(b, Pow2(k), cur) == InRun(low, Pow2(k + 1), cur);
      assert InRun(cur, Pow2(k), q) + InRun(b, Pow2(k), q) == InRun(low, Pow2(k + 1), q);
      HomeIsLast(gone[k + 1 := gone[k + 1] + [low]], k + 1, low);
    }
  }

  /**
   A page in use that is freed is the next one handed out if and only if no smaller run is parked than
   the one it has become part of, and it is the last page of that one.
   */
  lemma FreedComesBackIff(free: Classes, inUse: seq<bool>, p: PageId)
    requires |free| == MAX_CLASS + 1
    requires var free' := Coalesced(free[0 := free[0] + [p]], 0, p); Exact(free', Marked(inUse, p, 1, false))
    ensures var pushed := free[0 := free[0] + [p]];
            var free' := Coalesced(pushed, 0, p);
            var (m, c) := Home(pushed, 0, p);
            && FirstClass(free', 0) < |free'|
            && (NextPage(free') == p <==> FirstClass(free', 0) == m && p == c + Pow2(m) - 1)
  {
    hide Coalesced, Home;
    var pushed := free[0 := free[0] + [p]];
    var free' := Coalesced(pushed, 0, p);
    var (m, c) := Home(pushed, 0, p);
    HomeIsLast(pushed, 0, p);
    var k := FirstClass(free', 0);
    if NextPage(free') == p && k != m {
      RunsDisjoint(free', Marked(inUse, p, 1, false), k, |free'[k]| - 1, m, |free'[m]| - 1, p);
    }
  }

  /** Without a buddy to merge with the freed page comes back first. */
  lemma LoneFreedComesBack(free: Classes, p: PageId)
    requires |free| == MAX_CLASS + 1 && BuddyOf(p, 0) !in free[0] + [p]
    ensures var free' := Coalesced(free[0 := free[0] + [p]], 0, p);
            FirstClass(free', 0) == 0 && NextPage(free') == p
  {
  }

  lemma BuddiesTwoThree()
    ensures BuddyOf(2, 0) == 3 && BuddyOf(3, 0) == 2 && BuddyOf(2, 1) == 0
  {
    XorTogglesBit(2, 0);
    XorTogglesBit(3, 0);
    XorTogglesBit(2, 1);
  }

  /** Runs of one and of two pages, and none longer. */
  function Small(ones: seq<PageId>, twos: seq<PageId>): (free: Classes)
    ensures |free| == MAX_CLASS + 1
  {
    seq(MAX_CLASS + 1, k requires 0 <= k <= MAX_CLASS => if k == 0 then ones else if k == 1 then twos else [])
  }

  lemma SmallUpdates(ones: seq<PageId>, twos: seq<PageId>, s: seq<PageId>)
    ensures EmptyClasses() == Small([], [])
    ensures Small(ones, twos)[0 := s] == Small(s, twos) && Small(ones, twos)[1 := s] == Small(ones, s)
  {
  }

  /** Freed one after the other in either order, pages 2 and 3 become one run. */
  lemma TwoAndThree()
    ensures Coalesced(Small([2], []), 0, 2) == Small([2], []) && Coalesced(Small([3], []), 0, 3) == Small([3], [])
    ensures Coalesced(Small([2, 3], []), 0, 3) == Small([], [2])
    ensures Coalesced(Small([3, 2], []), 0, 2) == Small([], [2])
    ensures FirstClass(Small([], [2]), 0) == 1
  {
    hide BuddyOf;
    BuddiesTwoThree();
    assert Unlisted(Unlisted([2, 3], 2), 3) == [] && Unlisted(Unlisted([3, 2], 3), 2) == [];
    SmallUpdates([2, 3], [], []);
    SmallUpdates([3, 2], [], []);
    SmallUpdates([], [], [] + [2]);
    assert Coalesced(Small([], [2]), 1, 2) == Small([], [2]);
    assert Small([], [2])[0] == [] && Small([], [2])[1] == [2];
    var both := Small([2, 3], []);
    assert both[0] == [2, 3] && both[0][0] == 2 && BuddyOf(3, 0) in both[0];
    assert both[0 := []] == Small([], []) && Small([], [])[1] + [2] == [2];
    assert both[0 := []][1 := [2]] == Small([], [2]) by { SmallUpdates([], [], [2]); }
  }

  /** The allocator of a file of three data pages, all in use. */
  ghost predicate ThreePages(a: BuddyAllocator)
    reads a
  {
    a.Valid() && a.free == EmptyClasses() && a.inUse == [true, true, true, true]
  }

  method NewFile() returns (a: BuddyAllocator)
    ensures fresh(a) && ThreePages(a)
  {
    a := new BuddyAllocator();
    ExtendByOne(a, 1);
    ExtendByOne(a, 2);
    ExtendByOne(a, 3);
  }

  method ExtendByOne(a: BuddyAllocator, eof: PageId)
    requires a.Valid() && a.free == EmptyClasses() && |a.inUse| <= eof && eof > 0
    modifies a
    ensures a.Valid() && a.free == EmptyClasses() && a.inUse == Resized(old(a.inUse), eof + 1)
  {
    hide Cover, PageSum, FreeBits, Resized;
    assert FirstClass(EmptyClasses(), 0) > MAX_CLASS;
    assert ClassFor(1) == 0;
    var _, _ := a.AllocatePages(1, eof);
  }

  /** Pages 2 and 3 freed, in this order or the other. */
  method FreeBoth(a: BuddyAllocator, ascending: bool)
    requires ThreePages(a)
    modifies a
    ensures a.Valid() && a.free == Small([], [2]) && a.inUse == [true, true, false, false]
  {
    hide Cover, PageSum, FreeBits, Coalesced;
    TwoAndThree();
    assert IsPowerOfTwo(1) && ClassFor(1) == 0;
    SmallUpdates([], [], [2]);
    SmallUpdates([], [], [3]);
    SmallUpdates([2], [], [2, 3]);
    SmallUpdates([3], [], [3, 2]);
    assert [] + [2] == [2] && [] + [3] == [3] && [2] + [3] == [2, 3] && [3] + [2] == [3, 2];
    if ascending {
      a.FreePages(2, 1);
      a.FreePages(3, 1);
    } else {
      a.FreePages(3, 1);
      a.FreePages(2, 1);
    }
  }

  /** Page 3 comes first either way, so the page freed last comes first only if it was page 3. */
  method FreeTwo(ascending: bool) returns (first: PageId, second: PageId)
    ensures first == 3 && second == 2
  {
    hide Cover, PageSum, FreeBits;
    var a := NewFile();
    FreeBoth(a, ascending);
    first := TakeFirst(a);
    second := TakeSecond(a);
  }

  method TakeFirst(a: BuddyAllocator) returns (page: PageId)
    requires a.Valid() && a.free == Small([], [2]) && a.inUse == [true, true, false, false]
    modifies a
    ensures a.Valid() && page == 3 && a.inUse == [true, true, false, true]
  {
    hide Cover, PageSum, FreeBits;
    TwoAndThree();
    assert IsPowerOfTwo(1) && ClassFor(1) == 0;
    var extended;
    page, extended := a.AllocatePages(1, 4);
  }

  method TakeSecond(a: BuddyAllocator) returns (page: PageId)
    requires a.Valid() && a.inUse == [true, true, false, true]
    modifies a
    ensures a.Valid() && page == 2
  {
    hide Cover, PageSum, FreeBits;
    assert IsPowerOfTwo(1) && ClassFor(1) == 0;
    SomethingParked(a.free, a.inUse, 2);
    ghost var inUse := a.inUse;
    var extended;
    page, extended := a.AllocatePages(1, 4);
    assert !inUse[page];
  }

  lemma SomethingParked(free: Classes, inUse: seq<bool>, p: PageId)
    requires PoolOk(free, inUse) && p < |inUse| && !inUse[p]
    ensures FirstClass(free, 0) <= MAX_CLASS
  {
    hide FreeBits;
    assert Cover(free, p) == 1;
    if FirstClass(free, 0) > MAX_CLASS {
      AllEmpty(free, 0, p);
    }
  }

  lemma {:induction false} AllEmpty(free: Classes, k: nat, p: PageId)
    requires |free| == MAX_CLASS + 1 && k <= |free| && forall j :: k <= j < |free| ==> free[j] == []
    ensures CoverFrom(free, k, p) == 0
    decreases |free| - k
  {
    if k < |free| {
      AllEmpty(free, k + 1, p);
    }
  }
}
