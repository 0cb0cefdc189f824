/** The binary-buddy page allocator (src/BuddyPageAllocator.cpp). */
module BuddyAllocation {
  import opened BitMath
  import opened BuddyPool
  import opened BuddySnapshot

  class BuddyAllocator {
    var free: Classes
    var inUse: seq<bool>

    /** The invariant of every run of power-of-two allocations and frees of owned pages. */
    ghost predicate Valid()
      reads this
    {
      PoolOk(free, inUse)
    }

    constructor ()
      ensures Valid() && inUse == [] && free == EmptyClasses()
    {
      free := EmptyClasses();
      inUse := [];
      new;
      EmptyPoolOk();
    }

    method ClassOf(n: nat) returns (k: nat)
      requires n > 0
      ensures k == ClassFor(n)
    {
      k := 0;
      while Pow2(k) < n
        invariant k == 0 || Pow2(k - 1) < n
        decreases n - Pow2(k)
      {
        k := k + 1;
      }
      ClassForLeast(n);
      if k < ClassFor(n) {
        Pow2Monotone(k, ClassFor(n) - 1);
      } else if k > ClassFor(n) {
        Pow2Monotone(ClassFor(n), k - 1);
      }
    }

    /**
     Takes 2^ClassFor(n) pages from the first class that can serve the request, or
     extends the file at page `eof`. The pool stays valid exactly when n is a power of
     two or the file had to be extended.
     */
    method AllocatePages(n: nat, eof: PageId) returns (start: PageId, extended: bool)
      requires Valid() && n > 0 && |inUse| <= eof && eof > 0
      modifies this
      ensures extended <==> (ClassFor(n) > MAX_CLASS || FirstClass(old(free), ClassFor(n)) > MAX_CLASS)
      ensures extended ==>
                && start == eof && free == old(free)
                && inUse == Resized(old(inUse), eof + n)
      ensures !extended ==>
                var k := FirstClass(old(free), ClassFor(n));
                && start == Last(old(free)[k]) + Pow2(k) - Pow2(ClassFor(n))
                && 0 < start && start + n <= |old(inUse)|
                && (forall p :: start <= p < start + n ==> !old(inUse)[p])
                && inUse == Marked(old(inUse), start, n, true)
                && PageSum(free) + Pow2(ClassFor(n)) == PageSum(old(free))
                && (forall p: PageId :: Cover(free, p) + InRun(start, Pow2(ClassFor(n)), p) == Cover(old(free), p))
      ensures Valid() <==> (extended || IsPowerOfTwo(n))
    {
      var target := ClassOf(n);
      var k := target;
      while k <= MAX_CLASS && free[k] == []
        invariant target <= k
        invariant target <= MAX_CLASS ==> k <= MAX_CLASS + 1 && forall j :: target <= j < k ==> free[j] == []
        invariant target > MAX_CLASS ==> k == target
        decreases MAX_CLASS + 1 - k
      {
        k := k + 1;
      }
      if k > MAX_CLASS {
        extended, start := true, eof;
        OnFileExtended(eof, n);
        return;
      }
      assert k == FirstClass(free, target);
      ClassForLeast(n);
      extended := false;
      start := TakeRun(k, target);
      MarkRange(start, n, true);
    }

    /** Pops the last run of class `top` and splits it down to class `target`: the lower half is
        parked at every step and the upper half is kept. */
    method TakeRun(top: nat, target: nat) returns (start: PageId)
      requires Valid() && target <= top <= MAX_CLASS && free[top] != []
      requires forall j :: target <= j < top ==> free[j] == []
      modifies this`free
      ensures |free| == MAX_CLASS + 1 && NoBuddies(free)
      ensures start + Pow2(target) == Last(old(free)[top]) + Pow2(top) <= |inUse|
      ensures 0 < start
      ensures forall p :: start <= p < start + Pow2(target) ==> !inUse[p]
      ensures forall p: PageId :: Cover(free, p) + InRun(start, Pow2(target), p) == Cover(old(free), p)
      ensures PageSum(free) + Pow2(target) == PageSum(old(free))
    {
      hide Cover, PageSum, NoBuddies;
      var k := top;
      var last := |free[k]| - 1;
      start := free[k][last];
      RunIsFree(free, inUse, k, last);
      PullRun(free, k, last);
      ghost var pulled := free[k := free[k][..last] + free[k][last + 1..]];
      ShrunkNoBuddies(free, pulled, k);
      free := free[k := free[k][..last] + free[k][last + 1..]];
      while k > target
        invariant target <= k <= top
        invariant |free| == MAX_CLASS + 1
        invariant start + Pow2(k) == Last(old(free)[top]) + Pow2(top)
        invariant Last(old(free)[top]) <= start
        invariant forall j :: target <= j < k ==> free[j] == []
        invariant forall p: PageId :: Cover(free, p) + InRun(start, Pow2(k), p) == Cover(old(free), p)
        invariant PageSum(free) + Pow2(k) == PageSum(old(free))
        invariant NoBuddies(free)
      {
        k := k - 1;
        PushRun(free, k, start);
        LoneRunNoBuddies(free, k, start);
        free := free[k := free[k] + [start]];
        start := start + Pow2(k);
      }
      assert Cover(old(free), 0) == 0;
      forall p: PageId | start <= p < start + Pow2(target) ensures !inUse[p] {
        assert FreeMark(inUse, p) == 1;
      }
    }

    /** New pages belong to whoever asked for them. The pool stays valid exactly when none of them is
        a page it had marked free, as is the case past the end of the file. */
    method OnFileExtended(start: PageId, n: nat)
      requires Valid()
      modifies this
      ensures free == old(free) && inUse == Marked(Resized(old(inUse), start + n), start, n, true)
      ensures Valid() <==> forall p :: start <= p < start + n && p < |old(inUse)| ==> old(inUse)[p]
      ensures |old(inUse)| <= start ==> inUse == Resized(old(inUse), start + n)
    {
      hide PoolOk, Marked, Resized;
      inUse := Resized(inUse, start + n);
      ghost var grown := inUse;
      assert |grown| >= start + n by { ResizedLength(old(inUse), start + n); }
      MarkNone(grown, start);
      var i := 0;
      while i < n
        invariant i <= n && free == old(free) && inUse == Marked(grown, start, i, true) && |inUse| == |grown|
      {
        MarkMore(grown, start, i);
        inUse := inUse[start + i := true];
        i := i + 1;
      }
      ExtendedPool(free, old(inUse), start, n);
    }

    method MarkRange(start: PageId, n: nat, mark: bool)
      requires start + n <= |inUse|
      modifies this
      ensures free == old(free)
      ensures inUse == Marked(old(inUse), start, n, mark)
      ensures (forall p :: start <= p < start + n ==> old(inUse)[p] != mark) ==>
                FreeBits(inUse) == if mark then FreeBits(old(inUse)) - n else FreeBits(old(inUse)) + n
    {
      hide FreeBits;
      var i := 0;
      while i < n
        invariant i <= n && free == old(free) && |inUse| == |old(inUse)|
        invariant forall p :: 0 <= p < |inUse| ==>
                    inUse[p] == if start <= p < start + i then mark else old(inUse)[p]
        invariant (forall p :: start <= p < start + n ==> old(inUse)[p] != mark) ==>
                    FreeBits(inUse) == if mark then FreeBits(old(inUse)) - i else FreeBits(old(inUse)) + i
      {
        FreeBitsUpdate(inUse, start + i, mark);
        inUse := inUse[start + i := mark];
        i := i + 1;
      }
    }

    /**
     Parks the run and merges it with its buddy as long as that one is parked too.
     The pool stays valid exactly when the length is a power of two and every page
     of the run was owned; freeing a free page puts it into two runs.
     */
    method FreePages(start: PageId, n: nat)
      requires Valid() && n > 0 && start + n <= |inUse| && ClassFor(n) <= MAX_CLASS
      modifies this
      ensures inUse == Marked(old(inUse), start, n, false)
      ensures PageSum(free) == PageSum(old(free)) + Pow2(ClassFor(n))
      ensures var k := ClassFor(n); free == Coalesced(old(free)[k := old(free)[k] + [start]], k, start)
      ensures forall p: PageId :: Cover(free, p) == Cover(old(free), p) + InRun(start, Pow2(ClassFor(n)), p)
      ensures NoBuddies(free)
      ensures Valid() <==> (IsPowerOfTwo(n) && start > 0 && forall p :: start <= p < start + n ==> old(inUse)[p])
    {
      hide Cover, PageSum, FreeBits;
      MarkRange(start, n, false);
      var k := ClassOf(n);
      ghost var rest := free;
      PushRun(free, k, start);
      free := free[k := free[k] + [start]];
      Coalesce(k, start, old(free), rest, Pow2(k));
      FreedExact(old(free), free, old(inUse), start, n);
    }

    /** Merges the run just parked with its buddy, and the merged run again, as long as there is one. */
    method Coalesce(class0: nat, start: PageId, ghost before: Classes, ghost rest0: Classes, ghost len: nat)
      requires Parked(before, free, rest0, class0, start, start, len)
      modifies this`free
      ensures |free| == MAX_CLASS + 1 && NoBuddies(free) && PageSum(free) == PageSum(before) + len
      ensures forall p: PageId :: Cover(free, p) == Cover(before, p) + InRun(start, len, p)
      ensures free == Coalesced(old(free), class0, start)
    {
      hide Cover, PageSum, NoBuddies, InRun, Coalesced;
      var k: nat, cur: PageId := class0, start;
      ghost var rest := rest0;
      var merging := true;
      while merging && k < MAX_CLASS
        invariant Parked(before, free, rest, k, cur, start, len)
        invariant !merging && k < MAX_CLASS ==> BuddyOf(cur, k) !in free[k]
        invariant Coalesced(free, k, cur) == Coalesced(old(free), class0, start)
        decreases merging, MAX_CLASS - k
      {
        var buddy := BuddyOf(cur, k);
        var at := Find(free[k], buddy);
        if at == |free[k]| {
          merging := false;
        } else {
          var at2 := Find(free[k][..at] + free[k][at + 1..], cur);
          rest := MergeStep(before, free, rest, k, cur, start, len, at, at2);
          CoalescedStep(free, k, cur, at, at2);
          free := free[k := free[k][..at] + free[k][at + 1..]];
          free := free[k := free[k][..at2] + free[k][at2 + 1..]];
          if buddy < cur {
            cur := buddy;
          }
          k := k + 1;
          free := free[k := free[k] + [cur]];
        }
      }
      PushedNoBuddies(rest, free, k, cur);
      CoalescedDone(free, k, cur);
    }

    /** The parked runs in class order, each class in list order. */
    method SaveFreeRuns() returns (out: seq<FreeRun>)
      requires |free| == MAX_CLASS + 1
      ensures out == Saved(free)
    {
      hide SavedFrom, Tagged;
      out := [];
      var k := 0;
      while k <= MAX_CLASS
        invariant k <= MAX_CLASS + 1 && out + SavedFrom(free, k) == Saved(free)
      {
        SavedStep(free, out, k);
        out := AppendClass(out, k);
        k := k + 1;
      }
      SavedEnd(free);
      assert out + [] == out;
    }

    method AppendClass(before: seq<FreeRun>, k: nat) returns (out: seq<FreeRun>)
      requires k < |free|
      ensures out == before + Tagged(free[k], k)
    {
      out := before;
      var i := 0;
      while i < |free[k]|
        invariant i <= |free[k]| && out == before + Tagged(free[k], k)[..i]
      {
        out := out + [FreeRun(free[k][i], k)];
        i := i + 1;
      }
      assert Tagged(free[k], k)[..i] == Tagged(free[k], k);
    }

    /** Replaces the pool by a snapshot, skipping every run that is out of bounds or overlaps. */
    method LoadFreeRuns(runs: seq<FreeRun>, pageCount: nat)
      modifies this
      ensures Pool(free, inUse) == LoadAll(Pool(EmptyClasses(), Resized(old(inUse), pageCount)), runs, pageCount)
    {
      hide Resized, LoadOne;
      free := EmptyClasses();
      inUse := Resized(inUse, pageCount);
      ResizedLength(old(inUse), pageCount);
      ghost var empty := Pool(free, inUse);
      var i := 0;
      assert runs[..0] == [];
      while i < |runs|
        invariant i <= |runs| && |free| == MAX_CLASS + 1 && |inUse| >= pageCount
        invariant |empty.free| == MAX_CLASS + 1 && |empty.inUse| >= pageCount
        invariant Pool(free, inUse) == LoadAll(empty, runs[..i], pageCount)
      {
        assert runs[..i + 1][..i] == runs[..i];
        LoadRun(runs[i], pageCount);
        i := i + 1;
      }
      assert runs[..|runs|] == runs;
    }

    /** Parks one run of a snapshot, clamped to the file, unless it is out of bounds or overlaps. */
    method LoadRun(run: FreeRun, pageCount: nat)
      requires |free| == MAX_CLASS + 1 && |inUse| >= pageCount
      modifies this
      ensures Pool(free, inUse) == LoadOne(Pool(old(free), old(inUse)), run, pageCount)
      ensures |free| == MAX_CLASS + 1 && |inUse| == |old(inUse)|
    {
      var start, k := run.start, run.slabClass;
      if k <= MAX_CLASS && start != 0 && start < pageCount {
        var len := Pow2(k);
        if start + len > pageCount {
          len := pageCount - start;
        }
        var overlap, j := false, 0;
        while j < len && !overlap
          invariant j <= len
          invariant overlap ==> exists p :: start <= p < start + len && !inUse[p]
          invariant !overlap ==> forall p :: start <= p < start + j ==> inUse[p]
          decreases len - j, !overlap
        {
          if !inUse[start + j] {
            overlap := true;
          } else {
            j := j + 1;
          }
        }
        if !overlap {
          MarkRange(start, len, false);
          free := free[k := free[k] + [start]];
        }
      }
    }

    /** The number the pager reports as its free list size. */
    method FreePageCount() returns (sum: nat)
      requires Valid()
      ensures sum == PageSum(free) == FreeBits(inUse)
    {
      sum := 0;
      var k := 0;
      while k <= MAX_CLASS
        invariant k <= MAX_CLASS + 1 && sum + SumFrom(free, k) == PageSum(free)
      {
        sum := sum + |free[k]| * Pow2(k);
        k := k + 1;
      }
    }
  }

  lemma SavedStep(free: Classes, out: seq<FreeRun>, k: nat)
    requires k < |free|
    ensures out + SavedFrom(free, k) == out + Tagged(free[k], k) + SavedFrom(free, k + 1)
  {
  }

  lemma SavedEnd(free: Classes)
    ensures SavedFrom(free, |free|) == []
  {
  }

  function Last(runs: seq<PageId>): PageId {
    if runs == [] then 0 else runs[|runs| - 1]
  }

  lemma EmptyPoolOk()
    ensures PoolOk(EmptyClasses(), [])
  {
    forall p: PageId ensures Cover(EmptyClasses(), p) == 0 && PageSum(EmptyClasses()) == 0 {
      EmptyFrom(0, p);
    }
    assert Cover(EmptyClasses(), 0) == 0;
  }

  method Find(runs: seq<PageId>, s: PageId) returns (i: nat)
    ensures i <= |runs| && (i < |runs| ==> runs[i] == s)
    ensures i == |runs| <==> s !in runs
    ensures s !in runs[..i]
  {
    i := 0;
    while i < |runs| && runs[i] != s
      invariant i <= |runs| && s !in runs[..i]
    {
      i := i + 1;
    }
  }

  lemma RemoveAt<T>(s: seq<T>, i: nat)
    requires i < |s|
    ensures multiset(s[..i] + s[i + 1..]) + multiset{s[i]} == multiset(s)
    ensures forall x :: x in s[..i] + s[i + 1..] ==> x in s
  {
    assert s == s[..i] + [s[i]] + s[i + 1..];
  }

  /** A run of `len` pages at `start` has been added to `before` and currently sits in class k
      as `cur`; `rest` is the pool without it. */
  ghost predicate Parked(before: Classes, free: Classes, rest: Classes, k: nat, cur: PageId, start: PageId, len: nat) {
    && k <= MAX_CLASS && |free| == |rest| == MAX_CLASS + 1
    && multiset(free[k]) == multiset(rest[k]) + multiset{cur}
    && (forall j :: 0 <= j < |free| && j != k ==> free[j] == rest[j])
    && NoBuddies(rest)
    && (forall p: PageId :: Cover(free, p) == Cover(before, p) + InRun(start, len, p))
    && PageSum(free) == PageSum(before) + len
  }

  /** Replacing a run and its buddy by one run of the next class changes neither cover nor sum. */
  lemma MergeStep(before: Classes, free: Classes, rest: Classes, k: nat, cur: PageId, start: PageId, len: nat,
                  at: nat, at2: nat)
    returns (rest': Classes)
    requires Parked(before, free, rest, k, cur, start, len) && k < MAX_CLASS
    requires at < |free[k]| && free[k][at] == BuddyOf(cur, k)
    requires var once := free[k][..at] + free[k][at + 1..];
             at2 <= |once| && (at2 == |once| <==> cur !in once) && (at2 < |once| ==> once[at2] == cur)
    ensures at2 < |free[k]| - 1
    ensures var once := free[k][..at] + free[k][at + 1..];
            var gone := free[k := once][k := once[..at2] + once[at2 + 1..]];
            var low := if BuddyOf(cur, k) < cur then BuddyOf(cur, k) else cur;
            Parked(before, gone[k + 1 := gone[k + 1] + [low]], rest', k + 1, low, start, len)
  {
    hide Cover, PageSum, NoBuddies, InRun;
    var once := free[k][..at] + free[k][at + 1..];
    BuddyIsAdjacent(cur, k);
    PullRun(free, k, at);
    RemoveAt(free[k], at);
    assert multiset(once)[cur] == multiset(free[k])[cur] > 0;
    assert cur in multiset(once);
    PullRun(free[k := once], k, at2);
    RemoveAt(once, at2);
    rest' := free[k := once][k := once[..at2] + once[at2 + 1..]];
    FewerRuns(free[k], rest[k], rest'[k], cur, BuddyOf(cur, k));
    ShrunkNoBuddies(rest, rest', k);
    PushRun(rest', k + 1, if BuddyOf(cur, k) < cur then BuddyOf(cur, k) else cur);
  }

  lemma CoalescedStep(free: Classes, k: nat, cur: PageId, at: nat, at2: nat)
    requires |free| == MAX_CLASS + 1 && k < MAX_CLASS
    requires at < |free[k]| && free[k][at] == BuddyOf(cur, k) && BuddyOf(cur, k) !in free[k][..at]
    requires var once := free[k][..at] + free[k][at + 1..]; at2 < |once| && once[at2] == cur && cur !in once[..at2]
    ensures var once := free[k][..at] + free[k][at + 1..];
            var gone := free[k := once][k := once[..at2] + once[at2 + 1..]];
            var low := if BuddyOf(cur, k) < cur then BuddyOf(cur, k) else cur;
            Coalesced(free, k, cur) == Coalesced(gone[k + 1 := gone[k + 1] + [low]], k + 1, low)
  {
    hide BuddyOf, Unlisted;
    var once := free[k][..at] + free[k][at + 1..];
    UnlistedAt(free[k], BuddyOf(cur, k), at);
    UnlistedAt(once, cur, at2);
    assert free[k := once][k := once[..at2] + once[at2 + 1..]] == free[k := once[..at2] + once[at2 + 1..]];
  }

  lemma CoalescedDone(free: Classes, k: nat, cur: PageId)
    requires |free| == MAX_CLASS + 1 && k <= MAX_CLASS && (k < MAX_CLASS ==> BuddyOf(cur, k) !in free[k])
    ensures Coalesced(free, k, cur) == free
  {
  }

  lemma FewerRuns(all: seq<PageId>, rest: seq<PageId>, gone: seq<PageId>, cur: PageId, buddy: PageId)
    requires multiset(all) == multiset(rest) + multiset{cur}
    requires multiset(all) == multiset(gone) + multiset{cur} + multiset{buddy}
    ensures forall x :: x in gone ==> x in rest
  {
    forall x | x in gone ensures x in rest {
      assert multiset(gone)[x] > 0;
      assert multiset(all)[x] == multiset(rest)[x] + multiset{cur}[x];
      assert multiset(rest)[x] > 0;
    }
  }

  lemma LoneRunNoBuddies(free: Classes, k: nat, start: PageId)
    requires k < |free| && free[k] == [] && NoBuddies(free)
    ensures NoBuddies(free[k := free[k] + [start]])
  {
    hide BuddyOf;
    BuddyIsAdjacent(start, k);
  }

  lemma ShrunkNoBuddies(rest: Classes, free: Classes, k: nat)
    requires |rest| == |free| && k < |free| && NoBuddies(rest)
    requires forall x :: x in free[k] ==> x in rest[k]
    requires forall j :: 0 <= j < |free| && j != k ==> free[j] == rest[j]
    ensures NoBuddies(free)
  {
  }

  lemma PushedNoBuddies(rest: Classes, free: Classes, k: nat, cur: PageId)
    requires |rest| == |free| && k < |free| && NoBuddies(rest)
    requires multiset(free[k]) == multiset(rest[k]) + multiset{cur}
    requires forall j :: 0 <= j < |free| && j != k ==> free[j] == rest[j]
    requires k < MAX_CLASS ==> BuddyOf(cur, k) !in free[k]
    ensures NoBuddies(free)
  {
    forall x | x in free[k] ensures x == cur || x in rest[k] {
      assert x in multiset(free[k]);
    }
    assert cur in multiset(free[k]);
    BuddyIsAdjacent(cur, k);
    forall s: PageId | k < MAX_CLASS && s in free[k] ensures BuddyOf(s, k) !in free[k] {
      BuddyIsAdjacent(s, k);
    }
  }

  lemma FreedExact(before: Classes, free: Classes, inUse: seq<bool>, start: PageId, n: nat)
    requires PoolOk(before, inUse) && |free| == MAX_CLASS + 1 && n > 0
    requires NoBuddies(free) && start + n <= |inUse|
    requires forall p: PageId :: Cover(free, p) == Cover(before, p) + InRun(start, Pow2(ClassFor(n)), p)
    requires PageSum(free) == PageSum(before) + Pow2(ClassFor(n))
    ensures ((forall p :: start <= p < start + n ==> inUse[p]) ==>
               FreeBits(Marked(inUse, start, n, false)) == FreeBits(inUse) + n) ==>
              (PoolOk(free, Marked(inUse, start, n, false)) <==>
               (IsPowerOfTwo(n) && start > 0 && forall p :: start <= p < start + n ==> inUse[p]))
  {
    ClassForLeast(n);
    var len := Pow2(ClassFor(n));
    var after := Marked(inUse, start, n, false);
    assert Cover(before, 0) == 0;
    if n < len {
      // the page just past the run is covered although it was not freed
      var p := start + n;
      assert Cover(before, p) == FreeMark(inUse, p);
      assert FreeMark(after, p) == FreeMark(inUse, p);
    } else if p :| start <= p < start + n && !inUse[p] {
      assert Cover(before, p) == FreeMark(inUse, p) == 1;
      assert Cover(free, p) == 2;
    } else if start == 0 {
      assert Cover(free, 0) == 1;
    } else {
      forall p: PageId ensures Cover(free, p) == FreeMark(after, p) {
        assert Cover(before, p) == FreeMark(inUse, p);
      }
      assert Cover(free, 0) == 0;
    }
  }

  /** Marking pages in use past a grown bitmap keeps the pool exactly when none of them was free. */
  lemma ExtendedPool(free: Classes, inUse: seq<bool>, start: PageId, n: nat)
    requires PoolOk(free, inUse)
    ensures var grown := Resized(inUse, start + n);
            var marked := Marked(grown, start, n, true);
            && (PoolOk(free, marked) <==> forall p :: start <= p < start + n && p < |inUse| ==> inUse[p])
            && (|inUse| <= start ==> marked == grown)
  {
    hide Cover, NoBuddies, PageSum, FreeBits;
    var grown := Resized(inUse, start + n);
    var marked := Marked(grown, start, n, true);
    GrownMarks(inUse, start, n);
    if forall p :: start <= p < start + n && p < |inUse| ==> inUse[p] {
      FreeBitsResized(inUse, start + n);
    } else {
      var p :| start <= p < start + n && p < |inUse| && !inUse[p];
      assert FreeMark(inUse, p) == 1 && FreeMark(marked, p) == 0;
      assert Cover(free, p) == FreeMark(inUse, p);
    }
  }

  lemma ResizedLength(inUse: seq<bool>, pages: nat)
    ensures |Resized(inUse, pages)| >= pages
  {
  }

  lemma MarkNone(inUse: seq<bool>, start: PageId)
    ensures Marked(inUse, start, 0, true) == inUse
  {
  }

  lemma MarkMore(inUse: seq<bool>, start: PageId, i: nat)
    requires start + i < |inUse|
    ensures |Marked(inUse, start, i, true)| == |Marked(inUse, start, i + 1, true)| == |inUse|
    ensures Marked(inUse, start, i, true)[start + i := true] == Marked(inUse, start, i + 1, true)
  {
  }

  lemma GrownMarks(inUse: seq<bool>, start: PageId, n: nat)
    ensures var grown := Resized(inUse, start + n);
            var marked := Marked(grown, start, n, true);
            && (|inUse| <= start ==> marked == grown)
            && (forall p :: start <= p < start + n ==> FreeMark(marked, p) == 0)
            && ((forall p :: start <= p < start + n && p < |inUse| ==> inUse[p]) ==>
                  marked == grown && forall p: PageId :: FreeMark(marked, p) == FreeMark(inUse, p))
  {
    var grown := Resized(inUse, start + n);
    assert forall p :: 0 <= p < |grown| ==> grown[p] == if p < |inUse| then inUse[p] else true;
  }
}
