/** Saving the free pool as a list of runs and restoring it (saveFreeRuns, loadFreeRuns). */
module BuddySnapshot {
  import opened BitMath
  import opened BuddyPool

  datatype FreeRun = FreeRun(start: PageId, slabClass: nat)
  datatype Pool = Pool(free: Classes, inUse: seq<bool>)

  /** How many runs fit on the header page. */
  const MAX_PERSISTED_RUNS: nat := 507

  function Tagged(runs: seq<PageId>, k: nat): seq<FreeRun> {
    seq(|runs|, i requires 0 <= i < |runs| => FreeRun(runs[i], k))
  }

  function SavedFrom(free: Classes, k: nat): seq<FreeRun>
    requires k <= |free|
    decreases |free| - k
  {
    if k == |free| then [] else Tagged(free[k], k) + SavedFrom(free, k + 1)
  }

  function Saved(free: Classes): seq<FreeRun> {
    SavedFrom(free, 0)
  }

  /** A pool with nothing parked over a file of n pages. */
  function Fresh(n: nat): Pool {
    Pool(EmptyClasses(), seq(n, _ => true))
  }

  /** One iteration of the restore loop. */
  function LoadOne(pool: Pool, run: FreeRun, pageCount: nat): (r: Pool)
    requires |pool.free| == MAX_CLASS + 1 && |pool.inUse| >= pageCount
    ensures |r.free| == MAX_CLASS + 1 && |r.inUse| == |pool.inUse|
  {
    var k := run.slabClass;
    if k > MAX_CLASS || run.start == 0 || run.start >= pageCount then pool
    else
      var len := if run.start + Pow2(k) > pageCount then pageCount - run.start else Pow2(k);
      if exists p :: run.start <= p < run.start + len && !pool.inUse[p] then pool
      else Pool(pool.free[k := pool.free[k] + [run.start]], Marked(pool.inUse, run.start, len, false))
  }

  function LoadAll(pool: Pool, runs: seq<FreeRun>, pageCount: nat): (r: Pool)
    requires |pool.free| == MAX_CLASS + 1 && |pool.inUse| >= pageCount
    ensures |r.free| == MAX_CLASS + 1 && |r.inUse| == |pool.inUse|
  {
    if runs == [] then pool
    else LoadOne(LoadAll(pool, runs[..|runs| - 1], pageCount), runs[|runs| - 1], pageCount)
  }

  // ----- any snapshot at all -----

  /**
   Whatever the snapshot contains, every in-file page ends up in exactly one run if it
   is marked free and in none otherwise, and page 0 is never freed.
   */
  lemma {:induction false} AnySnapshotIsSafe(runs: seq<FreeRun>, n: nat)
    ensures var pool := LoadAll(Fresh(n), runs, n);
            && |pool.inUse| == n
            && (forall p: PageId :: p < n ==> Cover(pool.free, p) == FreeMark(pool.inUse, p))
            && FreeMark(pool.inUse, 0) == 0
  {
    if runs == [] {
      forall p: PageId ensures Cover(EmptyClasses(), p) == 0 {
        EmptyFrom(0, p);
      }
    } else {
      AnySnapshotIsSafe(runs[..|runs| - 1], n);
      var run := runs[|runs| - 1];
      var before := LoadAll(Fresh(n), runs[..|runs| - 1], n);
      if run.slabClass <= MAX_CLASS {
        PushRun(before.free, run.slabClass, run.start);
      }
      var after := LoadOne(before, run, n);
      forall p: PageId | p < n ensures Cover(after.free, p) == FreeMark(after.inUse, p) {
        assert Cover(before.free, p) == FreeMark(before.inUse, p);
      }
    }
  }

  lemma {:induction false} FreeBitsMarked(inUse: seq<bool>, start: PageId, n: nat)
    requires start + n <= |inUse| && forall p :: start <= p < start + n ==> inUse[p]
    ensures FreeBits(Marked(inUse, start, n, false)) == FreeBits(inUse) + n
    decreases n
  {
    if n == 0 {
      assert Marked(inUse, start, 0, false) == inUse;
    } else {
      var before := Marked(inUse, start, n - 1, false);
      FreeBitsMarked(inUse, start, n - 1);
      FreeBitsUpdate(before, start + n - 1, false);
      assert Marked(inUse, start, n, false) == before[start + n - 1 := false];
    }
  }

  lemma {:induction false} NothingFree(n: nat)
    ensures FreeBits(Fresh(n).inUse) == 0
  {
    if n > 0 {
      NothingFree(n - 1);
      assert Fresh(n).inUse[..n - 1] == Fresh(n - 1).inUse;
    }
  }

  /** No parked run reaches past the end of the file. */
  ghost predicate NoOverhang(free: Classes, n: nat) {
    forall p: PageId :: p >= n ==> Cover(free, p) == 0
  }

  /** One run loaded without reaching past the end adds as many pages to the pool as it marks free. */
  lemma LoadOneSum(pool: Pool, run: FreeRun, n: nat)
    requires |pool.free| == MAX_CLASS + 1 && |pool.inUse| == n && PageSum(pool.free) == FreeBits(pool.inUse)
    requires NoOverhang(LoadOne(pool, run, n).free, n)
    ensures PageSum(LoadOne(pool, run, n).free) == FreeBits(LoadOne(pool, run, n).inUse)
  {
    hide PageSum, Cover, FreeBits;
    var k, s := run.slabClass, run.start;
    var after := LoadOne(pool, run, n);
    if after != pool {
      PushRun(pool.free, k, s);
      assert s + Pow2(k) <= n by {
        var last := s + Pow2(k) - 1;
        assert Cover(after.free, last) == Cover(pool.free, last) + 1;
      }
      FreeBitsMarked(pool.inUse, s, Pow2(k));
    }
  }

  lemma LoadOneCovers(pool: Pool, run: FreeRun, n: nat, p: PageId)
    requires |pool.free| == MAX_CLASS + 1 && |pool.inUse| == n
    ensures Cover(LoadOne(pool, run, n).free, p) >= Cover(pool.free, p)
  {
    hide PageSum, Cover;
    if LoadOne(pool, run, n) != pool {
      PushRun(pool.free, run.slabClass, run.start);
    }
  }

  lemma {:induction false} LoadedSum(runs: seq<FreeRun>, n: nat)
    requires NoOverhang(LoadAll(Fresh(n), runs, n).free, n)
    ensures var pool := LoadAll(Fresh(n), runs, n); PageSum(pool.free) == FreeBits(pool.inUse)
  {
    if runs == [] {
      EmptyFrom(0, 0);
      NothingFree(n);
    } else {
      hide PageSum, Cover, FreeBits;
      var front, run := runs[..|runs| - 1], runs[|runs| - 1];
      var before := LoadAll(Fresh(n), front, n);
      forall p: PageId | p >= n ensures Cover(before.free, p) == 0 {
        LoadOneCovers(before, run, n, p);
      }
      LoadedSum(front, n);
      LoadOneSum(before, run, n);
    }
  }

  /**
   The pool a snapshot leaves is exact if and only if no loaded run reaches past the end of the file,
   and it meets every invariant of the allocator if and only if, besides, no run stands beside its
   buddy in one class.
   */
  lemma LoadedPoolIff(runs: seq<FreeRun>, n: nat)
    ensures var pool := LoadAll(Fresh(n), runs, n);
            && (Exact(pool.free, pool.inUse) <==> NoOverhang(pool.free, n))
            && (PoolOk(pool.free, pool.inUse) <==> NoOverhang(pool.free, n) && NoBuddies(pool.free))
  {
    hide PageSum, Cover, FreeBits, NoBuddies, LoadAll, LoadOne;
    AnySnapshotIsSafe(runs, n);
    var pool := LoadAll(Fresh(n), runs, n);
    assert |pool.inUse| == n && |pool.free| == MAX_CLASS + 1 by { LoadedSizes(runs, n); }
    if NoOverhang(pool.free, n) {
      LoadedSum(runs, n);
      assert Cover(pool.free, 0) == 0;
    }
  }

  lemma LoadedSizes(runs: seq<FreeRun>, n: nat)
    ensures var pool := LoadAll(Fresh(n), runs, n); |pool.free| == MAX_CLASS + 1 && |pool.inUse| == n
  {
  }

  /** Runs that end inside the file load without reaching past its end. */
  lemma {:induction false} InsideRunsFit(runs: seq<FreeRun>, n: nat)
    requires forall i :: 0 <= i < |runs| && runs[i].slabClass <= MAX_CLASS && 0 < runs[i].start < n ==>
               runs[i].start + Pow2(runs[i].slabClass) <= n
    ensures NoOverhang(LoadAll(Fresh(n), runs, n).free, n)
  {
    if runs == [] {
      NothingCovered(n);
    } else {
      hide PageSum, Cover;
      var front, run := runs[..|runs| - 1], runs[|runs| - 1];
      InsideRunsFit(front, n);
      var before := LoadAll(Fresh(n), front, n);
      var after := LoadOne(before, run, n);
      if after != before {
        PushRun(before.free, run.slabClass, run.start);
        assert run == runs[|runs| - 1];
        forall p: PageId | p >= n ensures Cover(after.free, p) == 0 {
          assert Cover(before.free, p) == 0;
        }
      }
    }
  }

  lemma NothingCovered(n: nat)
    ensures NoOverhang(Fresh(n).free, n)
  {
    forall p: PageId ensures Cover(Fresh(n).free, p) == 0 {
      EmptyFrom(0, p);
    }
  }

  /** A run of 256 pages in a file of two: the restore parks all of it, and the first page that first
      fit and splitting would hand out of it is page 256. */
  lemma OverhangingRun()
    ensures LoadAll(Fresh(2), [FreeRun(1, 8)], 2) == Pool(EmptyClasses()[8 := [1]], [true, false])
    ensures !Exact(EmptyClasses()[8 := [1]], [true, false])
    ensures FirstClass(EmptyClasses()[8 := [1]], 0) == 8 && 1 + Pow2(8) - Pow2(0) == 256
  {
    var runs := [FreeRun(1, 8)];
    assert runs[..0] == [];
    assert LoadAll(Fresh(2), runs[..0], 2) == Fresh(2);
    Pow2Of8();
    var pool := LoadOne(Fresh(2), runs[0], 2);
    assert Marked(Fresh(2).inUse, 1, 1, false) == [true, false];
    assert EmptyClasses()[8] == [] && [] + [1] == [1];
    assert 1 + Pow2(8) > 2 && forall p :: 1 <= p < 2 ==> Fresh(2).inUse[p];
    assert pool == Pool(EmptyClasses()[8 := EmptyClasses()[8] + [1]], Marked(Fresh(2).inUse, 1, 1, false));
    assert pool.free[8] == [1] && forall k :: 0 <= k < 8 ==> pool.free[k] == [];
    PushRun(EmptyClasses(), 8, 1);
    var two: PageId := 2;
    assert InRun(1, Pow2(8), two) == 1;
    assert Cover(pool.free, two) == Cover(EmptyClasses(), two) + 1;
    assert FreeMark(pool.inUse, two) == 0;
  }

  lemma Pow2Of8()
    ensures Pow2(8) == 256
  {
    assert Pow2(4) == 16;
  }

  // ----- snapshots that were saved from a pool -----

  function StartsOf(runs: seq<FreeRun>, k: nat): seq<PageId> {
    if runs == [] then []
    else
      var last := runs[|runs| - 1];
      StartsOf(runs[..|runs| - 1], k) + (if last.slabClass == k then [last.start] else [])
  }

  /** The class lists a run list amounts to. */
  function Collected(runs: seq<FreeRun>): (free: Classes)
    ensures |free| == MAX_CLASS + 1
  {
    seq(MAX_CLASS + 1, k requires 0 <= k <= MAX_CLASS => StartsOf(runs, k))
  }

  /** The bitmap that marks free exactly the covered pages. */
  function BitsOf(free: Classes, n: nat): seq<bool> {
    seq(n, p requires 0 <= p < n => Cover(free, p) == 0)
  }

  predicate ClassesInRange(runs: seq<FreeRun>) {
    forall i :: 0 <= i < |runs| ==> runs[i].slabClass <= MAX_CLASS
  }

  lemma CollectedPush(runs: seq<FreeRun>)
    requires runs != [] && ClassesInRange(runs)
    ensures var front, last := Collected(runs[..|runs| - 1]), runs[|runs| - 1];
            Collected(runs) == front[last.slabClass := front[last.slabClass] + [last.start]]
  {
    var front, last := Collected(runs[..|runs| - 1]), runs[|runs| - 1];
    var pushed := front[last.slabClass := front[last.slabClass] + [last.start]];
    assert forall k :: 0 <= k <= MAX_CLASS ==> Collected(runs)[k] == pushed[k];
  }

  lemma {:induction false} CollectedEmptyFrom(k: nat, p: PageId)
    requires k <= MAX_CLASS + 1
    ensures CoverFrom(Collected([]), k, p) == 0
    decreases MAX_CLASS + 1 - k
  {
    if k <= MAX_CLASS {
      CollectedEmptyFrom(k + 1, p);
    }
  }

  /** A run list without overlaps loads completely. */
  lemma {:induction false} CleanSnapshotLoads(runs: seq<FreeRun>, n: nat)
    requires ClassesInRange(runs)
    requires forall p: PageId :: Cover(Collected(runs), p) <= if 0 < p < n then 1 else 0
    ensures LoadAll(Fresh(n), runs, n) == Pool(Collected(runs), BitsOf(Collected(runs), n))
  {
    if runs == [] {
      forall p: PageId ensures Cover(Collected([]), p) == 0 {
        CollectedEmptyFrom(0, p);
      }
      assert Collected([]) == EmptyClasses();
      assert BitsOf(Collected([]), n) == Fresh(n).inUse;
    } else {
      var front, last := runs[..|runs| - 1], runs[|runs| - 1];
      var k, s := last.slabClass, last.start;
      CollectedPush(runs);
      PushRun(Collected(front), k, s);
      forall p: PageId
        ensures Cover(Collected(runs), p) == Cover(Collected(front), p) + InRun(s, Pow2(k), p)
        ensures Cover(Collected(front), p) <= if 0 < p < n then 1 else 0
      {
      }
      CleanSnapshotLoads(front, n);
      assert 0 < s < n by { assert Cover(Collected(runs), s) >= 1; }
      assert s + Pow2(k) <= n by { assert Cover(Collected(runs), s + Pow2(k) - 1) >= 1; }
      var bits := BitsOf(Collected(front), n);
      forall p: PageId | s <= p < s + Pow2(k) ensures bits[p] {
        assert Cover(Collected(runs), p) <= 1;
      }
      assert Marked(bits, s, Pow2(k), false) == BitsOf(Collected(runs), n);
    }
  }

  lemma {:induction false} StartsOfConcat(a: seq<FreeRun>, b: seq<FreeRun>, k: nat)
    ensures StartsOf(a + b, k) == StartsOf(a, k) + StartsOf(b, k)
    decreases |b|
  {
    if b == [] {
      assert a + b == a;
    } else {
      StartsOfConcat(a, b[..|b| - 1], k);
      assert (a + b)[..|a + b| - 1] == a + b[..|b| - 1];
    }
  }

  lemma {:induction false} StartsOfTagged(starts: seq<PageId>, c: nat, k: nat)
    ensures StartsOf(Tagged(starts, c), k) == if k == c then starts else []
  {
    if starts != [] {
      StartsOfTagged(starts[..|starts| - 1], c, k);
      assert Tagged(starts, c)[..|starts| - 1] == Tagged(starts[..|starts| - 1], c);
    }
  }

  lemma {:induction false} StartsOfSaved(free: Classes, from: nat, k: nat)
    requires from <= |free| && k < |free|
    ensures StartsOf(SavedFrom(free, from), k) == if k >= from then free[k] else []
    decreases |free| - from
  {
    hide Tagged, StartsOf;
    if from < |free| {
      StartsOfSaved(free, from + 1, k);
      StartsOfTagged(free[from], from, k);
      StartsOfConcat(Tagged(free[from], from), SavedFrom(free, from + 1), k);
    } else {
      StartsOfNone(k);
    }
  }

  lemma StartsOfNone(k: nat)
    ensures StartsOf([], k) == []
  {
  }

  lemma {:induction false} SavedInRange(free: Classes, from: nat)
    requires from <= |free| == MAX_CLASS + 1
    ensures ClassesInRange(SavedFrom(free, from))
    decreases |free| - from
  {
    if from < |free| {
      SavedInRange(free, from + 1);
    }
  }

  lemma CollectedSaved(free: Classes)
    requires |free| == MAX_CLASS + 1
    ensures Collected(Saved(free)) == free
  {
    forall k | 0 <= k < |free| ensures Collected(Saved(free))[k] == free[k] {
      StartsOfSaved(free, 0, k);
    }
  }

  lemma {:induction false} CoverOfPrefix(runs: seq<FreeRun>, m: nat, p: PageId)
    requires m <= |runs| && ClassesInRange(runs)
    ensures Cover(Collected(runs[..m]), p) <= Cover(Collected(runs), p)
    decreases |runs|
  {
    if m == |runs| {
      assert runs[..m] == runs;
    } else {
      var front := runs[..|runs| - 1];
      CoverOfPrefix(front, m, p);
      assert front[..m] == runs[..m];
      CollectedPush(runs);
      PushRun(Collected(front), runs[|runs| - 1].slabClass, runs[|runs| - 1].start);
      assert Cover(Collected(runs), p) >= Cover(Collected(front), p);
    }
  }

  /** A part of a snapshot has no run beside its buddy if the whole has none. */
  lemma PrefixHasNoBuddies(runs: seq<FreeRun>, m: nat)
    requires m <= |runs| && NoBuddies(Collected(runs))
    ensures NoBuddies(Collected(runs[..m]))
  {
    hide BuddyOf;
    assert runs == runs[..m] + runs[m..];
    forall k: nat, s: PageId | k <= MAX_CLASS && s in Collected(runs[..m])[k] ensures s in Collected(runs)[k] {
      StartsOfConcat(runs[..m], runs[m..], k);
    }
  }

  /** The part of a snapshot that fits on the header page. */
  function Persisted(free: Classes): seq<FreeRun> {
    var all := Saved(free);
    if |all| <= MAX_PERSISTED_RUNS then all else all[..MAX_PERSISTED_RUNS]
  }

  /** Runs of 1 to 256 pages and no others: nine classes, merging below the last one, and a longer run
      in a snapshot is skipped. */
  lemma NineClasses(free: Classes, start: PageId, n: nat)
    requires |free| == 9
    ensures |EmptyClasses()| == 9
    ensures NoBuddies(free) <==> forall k: nat, s: PageId :: k < 8 && s in free[k] ==> BuddyOf(s, k) !in free[k]
    ensures LoadOne(Fresh(n), FreeRun(start, 9), n) == Fresh(n)
    ensures 0 < start && start + 256 <= n ==> LoadOne(Fresh(n), FreeRun(start, 8), n).free[8] == [start]
  {
  }

  /**
   Close and reopen: a pool of at most 507 runs comes back bit for bit, class lists and
   bitmap; a larger one comes back with a subset of its free pages, and the pool is one the
   allocator can go on with.
   */
  lemma SnapshotRoundTrip(free: Classes, inUse: seq<bool>)
    requires PoolOk(free, inUse)
    ensures var n := |inUse|;
            var pool := LoadAll(Fresh(n), Persisted(free), n);
            && (|Saved(free)| <= 507 ==> pool == Pool(free, inUse))
            && PoolOk(pool.free, pool.inUse)
            && (forall p: PageId :: FreeMark(pool.inUse, p) <= FreeMark(inUse, p))
  {
    var n := |inUse|;
    var runs := Persisted(free);
    SavedInRange(free, 0);
    CollectedSaved(free);
    assert runs == Saved(free)[..|runs|];
    forall p: PageId ensures Cover(Collected(runs), p) <= Cover(free, p) <= if 0 < p < n then 1 else 0 {
      CoverOfPrefix(Saved(free), |runs|, p);
    }
    CleanSnapshotLoads(runs, n);
    var pool := LoadAll(Fresh(n), runs, n);
    forall p: PageId
      ensures Cover(pool.free, p) == FreeMark(pool.inUse, p) <= FreeMark(inUse, p)
    {
      assert Cover(Collected(runs), p) <= Cover(free, p);
    }
    if |Saved(free)| <= MAX_PERSISTED_RUNS {
      forall p | 0 <= p < n ensures pool.inUse[p] == inUse[p] {
        assert Cover(free, p) == FreeMark(inUse, p);
      }
      assert pool.inUse == inUse;
    }
    LoadedPoolIff(Persisted(free), n);
    PrefixHasNoBuddies(Saved(free), |runs|);
  }
}
