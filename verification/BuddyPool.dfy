/**
 The free pool of the page allocator, as a value: for each class k a list of the
 start pages of the parked runs of 2^k pages, and one in-use bit per page.

 The central notion is `Cover(free, p)`, the number of parked runs that contain
 page p. A pool is `Exact` when every page is covered once if its bit says free and
 not at all otherwise, which says in one equation that the runs are pairwise
 disjoint, lie inside the file, and add up to exactly the pages marked free.
 */
module BuddyPool {
  import opened BitMath

  type PageId = nat
  type Classes = seq<seq<PageId>>

  const MAX_CLASS: nat := 8

  function EmptyClasses(): Classes {
    seq(MAX_CLASS + 1, _ => [])
  }

  function BuddyOf(page: PageId, k: nat): PageId {
    Xor(page, Pow2(k))
  }

  function InRun(start: PageId, len: nat, p: PageId): nat {
    if start <= p < start + len then 1 else 0
  }

  /** How many runs of length `len` in the list contain p. */
  function CoverList(runs: seq<PageId>, len: nat, p: PageId): nat {
    if runs == [] then 0
    else CoverList(runs[..|runs| - 1], len, p) + InRun(runs[|runs| - 1], len, p)
  }

  function CoverFrom(free: Classes, k: nat, p: PageId): nat
    requires k <= |free|
    decreases |free| - k
  {
    if k == |free| then 0 else CoverList(free[k], Pow2(k), p) + CoverFrom(free, k + 1, p)
  }

  function Cover(free: Classes, p: PageId): nat {
    CoverFrom(free, 0, p)
  }

  function SumFrom(free: Classes, k: nat): nat
    requires k <= |free|
    decreases |free| - k
  {
    if k == |free| then 0 else |free[k]| * Pow2(k) + SumFrom(free, k + 1)
  }

  /** The free page count the allocator reports: each run counts its class size. */
  function PageSum(free: Classes): nat {
    SumFrom(free, 0)
  }

  function FreeMark(inUse: seq<bool>, p: PageId): nat {
    if p < |inUse| && !inUse[p] then 1 else 0
  }

  /** How many pages the bitmap marks free. */
  function FreeBits(inUse: seq<bool>): nat {
    if inUse == [] then 0
    else FreeBits(inUse[..|inUse| - 1]) + (if inUse[|inUse| - 1] then 0 else 1)
  }

  /** The bitmap with pages [start, start + n) set to `mark`. */
  function Marked(inUse: seq<bool>, start: PageId, n: nat, mark: bool): seq<bool> {
    seq(|inUse|, p requires 0 <= p < |inUse| => if start <= p < start + n then mark else inUse[p])
  }

  /** The bitmap grown to at least `pages` entries; new pages count as in use. */
  function Resized(inUse: seq<bool>, pages: nat): (r: seq<bool>)
    ensures |r| >= |inUse| && r[..|inUse|] == inUse
  {
    if |inUse| >= pages then inUse
    else inUse + seq(pages - |inUse|, _ => true)
  }

  ghost predicate Exact(free: Classes, inUse: seq<bool>) {
    && |free| == MAX_CLASS + 1
    && forall p: PageId :: Cover(free, p) == FreeMark(inUse, p)
  }

  ghost predicate NoBuddies(free: Classes) {
    forall k: nat, s: PageId :: k < |free| && k < MAX_CLASS && s in free[k] ==> BuddyOf(s, k) !in free[k]
  }

  /** What every reachable allocator state satisfies. */
  ghost predicate PoolOk(free: Classes, inUse: seq<bool>) {
    && Exact(free, inUse)
    && NoBuddies(free)
    && PageSum(free) == FreeBits(inUse)
    && Cover(free, 0) == 0
  }

  /** The first class at or above k that has a parked run, or |free| if there is none. */
  function FirstClass(free: Classes, k: nat): (r: nat)
    requires k <= |free|
    ensures k <= r <= |free|
    ensures r < |free| ==> free[r] != []
    ensures forall j :: k <= j < r ==> free[j] == []
    decreases |free| - k
  {
    if k == |free| || free[k] != [] then k else FirstClass(free, k + 1)
  }

  /** The list without the first occurrence of a run. */
  function Unlisted(runs: seq<PageId>, s: PageId): seq<PageId> {
    if runs == [] then [] else if runs[0] == s then runs[1..] else [runs[0]] + Unlisted(runs[1..], s)
  }

  /** The lists after the run at `cur` in class k has been merged upward as long as its buddy is parked. */
  function Coalesced(free: Classes, k: nat, cur: PageId): (r: Classes)
    requires k <= MAX_CLASS && |free| == MAX_CLASS + 1
    ensures |r| == MAX_CLASS + 1
    decreases MAX_CLASS - k
  {
    if k < MAX_CLASS && BuddyOf(cur, k) in free[k] then
      var low := if BuddyOf(cur, k) < cur then BuddyOf(cur, k) else cur;
      var gone := free[k := Unlisted(Unlisted(free[k], BuddyOf(cur, k)), cur)];
      Coalesced(gone[k + 1 := gone[k + 1] + [low]], k + 1, low)
    else free
  }

  lemma {:induction false} UnlistedAt(runs: seq<PageId>, s: PageId, i: nat)
    requires i < |runs| && runs[i] == s && s !in runs[..i]
    ensures Unlisted(runs, s) == runs[..i] + runs[i + 1..]
  {
    if i > 0 {
      assert runs[0] == runs[..i][0] && s !in runs[1..][..i - 1];
      UnlistedAt(runs[1..], s, i - 1);
    }
  }

  // ----- how cover and sum react to one changed list -----

  lemma {:induction false} CoverListRemove(runs: seq<PageId>, i: nat, len: nat, p: PageId)
    requires i < |runs|
    ensures CoverList(runs[..i] + runs[i + 1..], len, p) + InRun(runs[i], len, p) == CoverList(runs, len, p)
  {
    var without := runs[..i] + runs[i + 1..];
    var front := runs[..|runs| - 1];
    if i == |runs| - 1 {
      assert without == front;
    } else {
      CoverListRemove(front, i, len, p);
      assert without[..|without| - 1] == front[..i] + front[i + 1..];
    }
  }

  lemma {:induction false} CoverFromUpdate(free: Classes, from: nat, k: nat, runs: seq<PageId>, p: PageId)
    requires from <= k < |free|
    ensures CoverFrom(free[k := runs], from, p) + CoverList(free[k], Pow2(k), p)
         == CoverFrom(free, from, p) + CoverList(runs, Pow2(k), p)
    decreases k - from
  {
    if from == k {
      CoverFromSame(free, free[k := runs], k + 1, p);
    } else {
      CoverFromUpdate(free, from + 1, k, runs, p);
    }
  }

  lemma {:induction false} CoverFromSame(a: Classes, b: Classes, from: nat, p: PageId)
    requires |a| == |b| && from <= |a|
    requires forall k :: from <= k < |a| ==> a[k] == b[k]
    ensures CoverFrom(a, from, p) == CoverFrom(b, from, p)
    decreases |a| - from
  {
    if from < |a| {
      CoverFromSame(a, b, from + 1, p);
    }
  }

  lemma {:induction false} SumFromUpdate(free: Classes, from: nat, k: nat, runs: seq<PageId>)
    requires from <= k < |free|
    ensures SumFrom(free[k := runs], from) + |free[k]| * Pow2(k) == SumFrom(free, from) + |runs| * Pow2(k)
    decreases k - from
  {
    if from == k {
      SumFromSame(free, free[k := runs], k + 1);
    } else {
      SumFromUpdate(free, from + 1, k, runs);
    }
  }

  lemma {:induction false} SumFromSame(a: Classes, b: Classes, from: nat)
    requires |a| == |b| && from <= |a|
    requires forall k :: from <= k < |a| ==> a[k] == b[k]
    ensures SumFrom(a, from) == SumFrom(b, from)
    decreases |a| - from
  {
    if from < |a| {
      SumFromSame(a, b, from + 1);
    }
  }

  /** Parking a run adds it to the cover and to the sum, everywhere and exactly once. */
  lemma PushRun(free: Classes, k: nat, start: PageId)
    requires k < |free|
    ensures forall p: PageId :: Cover(free[k := free[k] + [start]], p) == Cover(free, p) + InRun(start, Pow2(k), p)
    ensures PageSum(free[k := free[k] + [start]]) == PageSum(free) + Pow2(k)
  {
    var runs := free[k] + [start];
    assert runs[..|runs| - 1] == free[k];
    forall p: PageId ensures Cover(free[k := runs], p) == Cover(free, p) + InRun(start, Pow2(k), p) {
      CoverFromUpdate(free, 0, k, runs, p);
    }
    SumFromUpdate(free, 0, k, runs);
    assert |runs| * Pow2(k) == |free[k]| * Pow2(k) + Pow2(k);
  }

  /** Taking the run at index i out of class k undoes one PushRun. */
  lemma PullRun(free: Classes, k: nat, i: nat)
    requires k < |free| && i < |free[k]|
    ensures forall p: PageId ::
              Cover(free[k := free[k][..i] + free[k][i + 1..]], p) + InRun(free[k][i], Pow2(k), p) == Cover(free, p)
    ensures PageSum(free[k := free[k][..i] + free[k][i + 1..]]) + Pow2(k) == PageSum(free)
  {
    var runs := free[k][..i] + free[k][i + 1..];
    forall p: PageId ensures Cover(free[k := runs], p) + InRun(free[k][i], Pow2(k), p) == Cover(free, p) {
      CoverFromUpdate(free, 0, k, runs, p);
      CoverListRemove(free[k], i, Pow2(k), p);
    }
    SumFromUpdate(free, 0, k, runs);
    assert |free[k]| * Pow2(k) == |runs| * Pow2(k) + Pow2(k);
  }

  // ----- the bitmap -----

  lemma {:induction false} FreeBitsUpdate(inUse: seq<bool>, i: nat, mark: bool)
    requires i < |inUse|
    ensures FreeBits(inUse[i := mark]) + FreeMark(inUse, i)
         == FreeBits(inUse) + FreeMark(inUse[i := mark], i)
  {
    var last := |inUse| - 1;
    if i == last {
      assert inUse[i := mark][..last] == inUse[..last];
    } else {
      FreeBitsUpdate(inUse[..last], i, mark);
      assert inUse[i := mark][..last] == inUse[..last][i := mark];
    }
  }

  lemma {:induction false} FreeBitsResized(inUse: seq<bool>, pages: nat)
    ensures FreeBits(Resized(inUse, pages)) == FreeBits(inUse)
    decreases pages
  {
    if |inUse| < pages {
      FreeBitsResized(inUse, pages - 1);
      var r := Resized(inUse, pages);
      assert r[..|r| - 1] == Resized(inUse, pages - 1);
    }
  }

  // ----- what Exact means run by run -----

  lemma {:induction false} ListCovers(runs: seq<PageId>, i: nat, len: nat, p: PageId)
    requires i < |runs| && runs[i] <= p < runs[i] + len
    ensures CoverList(runs, len, p) >= 1
  {
    CoverListRemove(runs, i, len, p);
  }

  lemma {:induction false} CoverFromAtLeast(free: Classes, from: nat, k: nat, p: PageId)
    requires from <= k < |free|
    ensures CoverFrom(free, from, p) >= CoverList(free[k], Pow2(k), p)
    decreases k - from
  {
    if from < k {
      CoverFromAtLeast(free, from + 1, k, p);
    }
  }

  /** Every page of a parked run is inside the file and marked free. */
  lemma RunIsFree(free: Classes, inUse: seq<bool>, k: nat, i: nat)
    requires Exact(free, inUse) && k < |free| && i < |free[k]|
    ensures free[k][i] + Pow2(k) <= |inUse|
    ensures forall p: PageId :: free[k][i] <= p < free[k][i] + Pow2(k) ==> FreeMark(inUse, p) == 1
  {
    forall p: PageId | free[k][i] <= p < free[k][i] + Pow2(k) ensures FreeMark(inUse, p) == 1 {
      ListCovers(free[k], i, Pow2(k), p);
      CoverFromAtLeast(free, 0, k, p);
      assert Cover(free, p) >= 1;
    }
    assert FreeMark(inUse, free[k][i] + Pow2(k) - 1) == 1;
  }

  /** Two different parked runs never share a page. */
  lemma RunsDisjoint(free: Classes, inUse: seq<bool>, k: nat, i: nat, l: nat, j: nat, p: PageId)
    requires Exact(free, inUse)
    requires k < |free| && i < |free[k]| && l < |free| && j < |free[l]| && (k != l || i != j)
    requires free[k][i] <= p < free[k][i] + Pow2(k)
    ensures !(free[l][j] <= p < free[l][j] + Pow2(l))
  {
    PullRun(free, k, i);
    var rest := free[k := free[k][..i] + free[k][i + 1..]];
    assert Cover(rest, p) + InRun(free[k][i], Pow2(k), p) == Cover(free, p) <= 1;
    var j' := if k == l && j > i then j - 1 else j;
    assert rest[l][j'] == free[l][j];
    CoverFromAtLeast(rest, 0, l, p);
    CoverListRemove(rest[l], j', Pow2(l), p);
  }

  /** Every page marked free belongs to some parked run. */
  lemma FreePageHasRun(free: Classes, inUse: seq<bool>, p: PageId) returns (k: nat, i: nat)
    requires Exact(free, inUse) && p < |inUse| && !inUse[p]
    ensures k < |free| && i < |free[k]| && free[k][i] <= p < free[k][i] + Pow2(k)
  {
    assert Cover(free, p) == 1;
    k, i := FindCover(free, 0, p);
  }

  lemma {:induction false} FindCover(free: Classes, from: nat, p: PageId) returns (k: nat, i: nat)
    requires from <= |free| && CoverFrom(free, from, p) > 0
    ensures k < |free| && i < |free[k]| && free[k][i] <= p < free[k][i] + Pow2(k)
    decreases |free| - from
  {
    if CoverList(free[from], Pow2(from), p) > 0 {
      k := from;
      i := FindInList(free[from], Pow2(from), p);
    } else {
      k, i := FindCover(free, from + 1, p);
    }
  }

  lemma {:induction false} FindInList(runs: seq<PageId>, len: nat, p: PageId) returns (i: nat)
    requires CoverList(runs, len, p) > 0
    ensures i < |runs| && runs[i] <= p < runs[i] + len
  {
    var last := |runs| - 1;
    if runs[last] <= p < runs[last] + len {
      i := last;
    } else {
      i := FindInList(runs[..last], len, p);
    }
  }

  // ----- buddies -----

  /** A buddy is the adjacent run of the same length, on either side, aligned or not;
      the two together are one run of the next class. */
  lemma BuddyIsAdjacent(s: PageId, k: nat)
    ensures BuddyOf(BuddyOf(s, k), k) == s
    ensures BuddyOf(s, k) != s
    ensures forall p: PageId ::
              InRun(s, Pow2(k), p) + InRun(BuddyOf(s, k), Pow2(k), p)
              == InRun(if BuddyOf(s, k) < s then BuddyOf(s, k) else s, Pow2(k + 1), p)
  {
    XorInvolution(s, Pow2(k));
    XorTogglesBit(s, k);
  }

  lemma {:induction false} EmptyFrom(k: nat, p: PageId)
    requires k <= MAX_CLASS + 1
    ensures CoverFrom(EmptyClasses(), k, p) == 0 && SumFrom(EmptyClasses(), k) == 0
    decreases MAX_CLASS + 1 - k
  {
    if k <= MAX_CLASS {
      EmptyFrom(k + 1, p);
    }
  }
}
