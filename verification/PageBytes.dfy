/**
 Bytes of tree pages along whole runs. The code checks the size of a leaf page and not that of an
 internal one; this module states which entry sizes keep every leaf on its page, and which key sizes
 keep the separators of the root on theirs.
 */
module PageBytes {
  import opened Versions
  import opened Bands
  import opened TreeShape
  import opened TreeGrowth
  import opened Tables
  import opened AccessPaths
  import opened StoreRuns

  // ----- separators -----

  /** With keys this size 128 separators fit their page; with one byte more they do not. */
  const SAFE_KEY_BYTES: nat := 28

  /** The bytes of an internal page's entries: each key and a 4-byte child. */
  function SepBytes(keys: seq<Key>, size: Key -> nat): nat {
    if keys == [] then 0 else SepBytes(keys[..|keys| - 1], size) + size(keys[|keys| - 1]) + 4
  }

  /** The separators of the tree fit one page. */
  predicate SepsFit(t: TreeState, size: Key -> nat) {
    SepBytes(SepsOf(t), size) <= LEAF_CAPACITY
  }

  lemma {:induction false} SepBytesConcat(a: seq<Key>, b: seq<Key>, size: Key -> nat)
    ensures SepBytes(a + b, size) == SepBytes(a, size) + SepBytes(b, size)
    decreases |b|
  {
    if b == [] {
      assert a + b == a;
    } else {
      var front := b[..|b| - 1];
      SepBytesConcat(a, front, size);
      assert (a + b)[..|a + b| - 1] == a + front;
    }
  }

  lemma SepBytesAdded(keys: seq<Key>, q: nat, p: Key, keys': seq<Key>, size: Key -> nat)
    requires KeyAdded(keys, q, p, keys')
    ensures SepBytes(keys', size) == SepBytes(keys, size) + size(p) + 4
  {
    hide SepBytes;
    assert keys == keys[..q] + keys[q..];
    SepBytesConcat(keys[..q], keys[q..], size);
    SepBytesConcat(keys[..q] + [p], keys[q..], size);
    SepBytesConcat(keys[..q], [p], size);
    SepBytesOne(p, size);
  }

  lemma SepBytesOne(p: Key, size: Key -> nat)
    ensures SepBytes([p], size) == size(p) + 4
  {
    assert [p][..0] == [];
    assert SepBytes([p][..0], size) == 0;
  }

  lemma {:induction false} SepBytesBound(keys: seq<Key>, size: Key -> nat, most: nat)
    requires forall k :: k in keys ==> size(k) <= most
    ensures SepBytes(keys, size) <= |keys| * (most + 4)
  {
    if keys != [] {
      SepBytesBound(keys[..|keys| - 1], size, most);
    }
  }

  /** What a put of e adds to the separators: the promoted key, if it splits a leaf. */
  function PutSepBytes(t: TreeState, e: Entry, size: Key -> nat): nat {
    var ins := Inserted(RoutedEntries(t, e.key), e);
    if !Holds(RoutedEntries(t, e.key), e) && Overflows(ins) then size(RightHalf(ins)[0].key) + 4 else 0
  }

  /** The separators fit their page after a put exactly when there was room for the promoted key. */
  lemma PutFitsIff(t: TreeState, t': TreeState, e: Entry, size: Key -> nat)
    requires PutStep(t, t', e)
    ensures SepsFit(t', size) <==> SepBytes(SepsOf(t), size) + PutSepBytes(t, e, size) <= LEAF_CAPACITY
    ensures SepsFit(t', size) ==> SepsFit(t, size)
  {
    hide Inserted, InsertPos, StateOk, InOrder, OwnershipKept, Reshaped, SepBytes, KeyAdded, Holds, Overflows;
    var ins := Inserted(RoutedEntries(t, e.key), e);
    if !Holds(RoutedEntries(t, e.key), e) && Overflows(ins) {
      var p := RightHalf(ins)[0].key;
      var q: nat :| KeyAdded(SepsOf(t), q, p, SepsOf(t'));
      SepBytesAdded(SepsOf(t), q, p, SepsOf(t'), size);
    }
  }

  /** Keys of at most 28 bytes, Null taking one, always fit: 5 + 127 * 32 bytes at most. */
  lemma SmallKeysFit(t: TreeState, size: Key -> nat)
    requires StateOk(t) && size(NULL_KEY) == 1 && forall k :: k in SepsOf(t) ==> size(k) <= SAFE_KEY_BYTES
    ensures SepsFit(t, size)
  {
    var keys := SepsOf(t);
    SepsShape(t);
    assert keys == [NULL_KEY] + keys[1..];
    SepBytesConcat([NULL_KEY], keys[1..], size);
    SepBytesOne(NULL_KEY, size);
    SepBytesBound(keys[1..], size, SAFE_KEY_BYTES);
  }

  lemma SepsShape(t: TreeState)
    requires StateOk(t)
    ensures 1 <= |SepsOf(t)| <= MAX_INTERNAL_ENTRIES && SepsOf(t)[0] == NULL_KEY
  {
    hide Linked;
  }

  /** The table's separators have fit their page at every point since it was created. */
  predicate FitSince(states: seq<Store>, events: seq<Event>, n: nat, name: string, size: Key -> nat)
    requires n <= |events| < |states|
  {
    n == 0 ||
    (&& (name in states[n].trees ==> SepsFit(Tree(states[n], name), size))
     && ((events[n - 1].table == name && !events[n - 1].PutInto?) || FitSince(states, events, n - 1, name, size)))
  }

  lemma SeparatorsFrame(t: TreeState, t': TreeState)
    requires StateOk(t) && SameTree(t, t')
    ensures SepsOf(t') == SepsOf(t) && LeavesOf(t') == LeavesOf(t)
  {
    TreeFrame(t, t');
  }

  /** One event never makes separators fit that did not fit before. */
  lemma EventFits(s: Store, s': Store, ev: Event, name: string, size: Key -> nat)
    requires StoreOk(s) && Step(s, s', ev) && OthersSame(s, s', ev.table) && name in s'.trees
    requires ev.table == name ==> ev.PutInto?
    ensures name in s.trees && (SepsFit(Tree(s', name), size) ==> SepsFit(Tree(s, name), size))
  {
    hide StateOk, PutStep, SameTree, SepsFit, RowsOf, StoreOk;
    if ev.table != name {
      TreeInStore(s, name);
      SeparatorsFrame(Tree(s, name), Tree(s', name));
      assert SepsFit(Tree(s', name), size) <==> SepsFit(Tree(s, name), size) by { FitBySeps(s, s', name, size); }
    } else {
      PutFitsIff(Tree(s, name), Tree(s', name), ev.e, size);
    }
  }

  lemma FitBySeps(s: Store, s': Store, name: string, size: Key -> nat)
    requires name in s.trees && name in s'.trees && SepsOf(Tree(s', name)) == SepsOf(Tree(s, name))
    ensures SepsFit(Tree(s', name), size) <==> SepsFit(Tree(s, name), size)
  {
  }

  /** Separators only come, so they have fit all along exactly when they fit now. */
  lemma {:induction false} FitNowFitAlways(states: seq<Store>, events: seq<Event>, n: nat, name: string,
                                           size: Key -> nat)
    requires IsRun(states, events) && n <= |events| && name in states[n].trees
    ensures FitSince(states, events, n, name, size) <==> SepsFit(Tree(states[n], name), size)
    decreases n
  {
    if n > 0 {
      hide SepsFit;
      var m := n - 1;
      if name in states[m].trees {
        FitNowFitAlways(states, events, m, name, size);
      }
      FitStep(states, events, m, n, name, size);
    }
  }

  lemma FitUnfold(states: seq<Store>, events: seq<Event>, m: nat, n: nat, name: string, size: Key -> nat)
    requires n == m + 1 <= |events| < |states|
    ensures FitSince(states, events, n, name, size) <==>
            && (name in states[n].trees ==> SepsFit(Tree(states[n], name), size))
            && ((events[m].table == name && !events[m].PutInto?) || FitSince(states, events, m, name, size))
  {
    hide SepsFit;
  }

  lemma FitStep(states: seq<Store>, events: seq<Event>, m: nat, n: nat, name: string, size: Key -> nat)
    requires IsRun(states, events) && n == m + 1 <= |events| && name in states[n].trees
    requires name in states[m].trees ==>
               (FitSince(states, events, m, name, size) <==> SepsFit(Tree(states[m], name), size))
    ensures FitSince(states, events, n, name, size) <==> SepsFit(Tree(states[n], name), size)
  {
    hide Step, OthersSame, SepsFit, StoreOk, Takes, FitSince;
    StepAt(states, events, m, n);
    FitUnfold(states, events, m, n, name, size);
    if events[m].table != name || events[m].PutInto? {
      EventFits(states[m], states[n], events[m], name, size);
    }
  }

  /** With keys of at most 28 bytes the separators fit all along every run. */
  lemma SmallKeyRunsFit(states: seq<Store>, events: seq<Event>, n: nat, name: string, size: Key -> nat)
    requires IsRun(states, events) && n <= |events| && name in states[n].trees
    requires size(NULL_KEY) == 1 && forall k :: size(k) <= SAFE_KEY_BYTES
    ensures FitSince(states, events, n, name, size)
  {
    hide SepsFit, StoreOk, FitSince, Takes;
    RunKeepsStore(states, events, n);
    TreeInStore(states[n], name);
    SmallKeysFit(Tree(states[n], name), size);
    FitNowFitAlways(states, events, n, name, size);
  }

  // ----- leaves -----

  /** No run of puts of entries up to this size overflows a leaf page; with one byte more some run does. */
  const RUN_SAFE_BYTES: nat := 342
  /** A half that exceeds the split threshold has no more entries than this. */
  const MAX_FULL_HALF: nat := 14

  predicate Small(es: seq<Entry>) {
    forall e :: e in es ==> MIN_ENTRY_BYTES <= e.bytes <= RUN_SAFE_BYTES
  }

  /** A leaf from which no small entry can overflow a page. */
  predicate LeafSafe(es: seq<Entry>) {
    Small(es) && (Bytes(es) <= SPLIT_BYTES || |es| <= MAX_FULL_HALF)
  }

  predicate TreeSafe(t: TreeState) {
    forall es :: es in LeavesOf(t) ==> LeafSafe(es)
  }

  lemma HalfSums(na: nat, nb: nat, ba: nat, bb: nat)
    requires na <= nb <= na + 1
    requires MIN_ENTRY_BYTES * na <= ba <= RUN_SAFE_BYTES * na && MIN_ENTRY_BYTES * nb <= bb <= RUN_SAFE_BYTES * nb
    requires ba + bb <= SPLIT_BYTES + RUN_SAFE_BYTES || na + nb <= MAX_FULL_HALF + 1
    ensures ba <= LEAF_CAPACITY && bb <= LEAF_CAPACITY
    ensures (ba <= SPLIT_BYTES || na <= MAX_FULL_HALF) && (bb <= SPLIT_BYTES || nb <= MAX_FULL_HALF)
  {
  }

  lemma SmallHalves(ins: seq<Entry>)
    requires Small(ins)
    ensures var a, b := LeftHalf(ins), RightHalf(ins);
            && Small(a) && Small(b) && ins == a + b && |a| <= |b| <= |a| + 1
            && (forall e :: e in a || e in b ==> MIN_ENTRY_BYTES <= e.bytes <= RUN_SAFE_BYTES)
  {
    assert ins == LeftHalf(ins) + RightHalf(ins);
  }

  lemma SafeHalves(ins: seq<Entry>)
    requires Small(ins) && (Bytes(ins) <= SPLIT_BYTES + RUN_SAFE_BYTES || |ins| <= MAX_FULL_HALF + 1)
    ensures HalvesFit(ins) && LeafSafe(LeftHalf(ins)) && LeafSafe(RightHalf(ins))
  {
    hide Bytes, Small;
    var a, b := LeftHalf(ins), RightHalf(ins);
    SmallHalves(ins);
    BytesConcat(a, b);
    BytesBounds(a, MIN_ENTRY_BYTES, RUN_SAFE_BYTES);
    BytesBounds(b, MIN_ENTRY_BYTES, RUN_SAFE_BYTES);
    HalfSums(|a|, |b|, Bytes(a), Bytes(b));
  }

  /** A small entry put into a safe leaf overflows no page, and every leaf that comes of it is safe. */
  lemma SafeInsert(es: seq<Entry>, e: Entry, leaf: seq<Entry>)
    requires LeafSafe(es) && MIN_ENTRY_BYTES <= e.bytes <= RUN_SAFE_BYTES
    ensures HalvesFit(Inserted(es, e)) && (FromRouted(Inserted(es, e), leaf) ==> LeafSafe(leaf))
  {
    hide Inserted, InsertPos, Bytes, HalvesFit;
    var ins := Inserted(es, e);
    InsertedBytes(es, e);
    InsertedMembers(es, e);
    InsertedMore(es, e);
    SafeHalves(ins);
  }

  lemma PutKeepsSafe(t: TreeState, t': TreeState, e: Entry)
    requires TreeSafe(t) && PutStep(t, t', e) && MIN_ENTRY_BYTES <= e.bytes <= RUN_SAFE_BYTES
    ensures TreeSafe(t')
  {
    hide Inserted, InsertPos, StateOk, InOrder, OwnershipKept, Reshaped, LeafSafe, FromRouted, Overflows, Holds;
    if !Holds(RoutedEntries(t, e.key), e) {
      forall es | es in LeavesOf(t') ensures LeafSafe(es) {
        SafeInsert(RoutedEntries(t, e.key), e, es);
      }
    }
  }

  /** Every put into the table brings a small entry. */
  predicate SmallPuts(events: seq<Event>, n: nat, name: string)
    requires n <= |events|
  {
    forall i :: 0 <= i < n && events[i].PutInto? && events[i].table == name ==>
      MIN_ENTRY_BYTES <= events[i].e.bytes <= RUN_SAFE_BYTES
  }

  lemma EventKeepsSafe(s: Store, s': Store, ev: Event, name: string)
    requires StoreOk(s) && Step(s, s', ev) && OthersSame(s, s', ev.table) && name in s'.trees
    requires name in s.trees ==> TreeSafe(Tree(s, name))
    requires ev.table == name && ev.PutInto? ==> MIN_ENTRY_BYTES <= ev.e.bytes <= RUN_SAFE_BYTES
    ensures TreeSafe(Tree(s', name))
  {
    hide StateOk, PutStep, SameTree, TreeSafe, StoreOk, InOrder;
    if ev.table != name {
      TreeInStore(s, name);
      SeparatorsFrame(Tree(s, name), Tree(s', name));
      SafeByLeaves(Tree(s, name), Tree(s', name));
    } else if ev.PutInto? {
      PutKeepsSafe(Tree(s, name), Tree(s', name), ev.e);
    } else {
      EmptySafe(Tree(s', name));
    }
  }

  lemma SafeByLeaves(t: TreeState, t': TreeState)
    requires TreeSafe(t) && LeavesOf(t') == LeavesOf(t)
    ensures TreeSafe(t')
  {
  }

  lemma EmptySafe(t: TreeState)
    requires |t.chain| == 1 && Contents(t) == []
    ensures TreeSafe(t)
  {
    var ls := LeavesOf(t);
    assert ls == [ls[0]];
    ConcatOne(ls[0]);
  }

  /** At every point of every run whose puts into the table are small, its leaves are safe. */
  lemma {:induction false} RunStaysSafe(states: seq<Store>, events: seq<Event>, n: nat, name: string)
    requires IsRun(states, events) && n <= |events| && SmallPuts(events, n, name) && name in states[n].trees
    ensures TreeSafe(Tree(states[n], name))
    decreases n
  {
    if n > 0 {
      hide TreeSafe;
      var m := n - 1;
      if name in states[m].trees {
        RunStaysSafe(states, events, m, name);
      }
      SafeStep(states, events, m, n, name);
    }
  }

  lemma SafeStep(states: seq<Store>, events: seq<Event>, m: nat, n: nat, name: string)
    requires IsRun(states, events) && n == m + 1 <= |events| && SmallPuts(events, n, name) && name in states[n].trees
    requires name in states[m].trees ==> TreeSafe(Tree(states[m], name))
    ensures TreeSafe(Tree(states[n], name))
  {
    hide Step, OthersSame, StoreOk, Takes, TreeSafe;
    StepAt(states, events, m, n);
    EventKeepsSafe(states[m], states[n], events[m], name);
  }

  /** No run of puts of entries of at most 342 bytes overflows a leaf page. */
  lemma SmallRunsNeverOverflow(states: seq<Store>, events: seq<Event>, n: nat, name: string, e: Entry)
    requires IsRun(states, events) && n <= |events| && SmallPuts(events, n, name) && name in states[n].trees
    requires MIN_ENTRY_BYTES <= e.bytes <= RUN_SAFE_BYTES
    ensures var t := Tree(states[n], name);
            && HalvesFit(Inserted(RoutedEntries(t, e.key), e))
            && (Accepts(t, e) <==>
                Holds(RoutedEntries(t, e.key), e) || !Overflows(Inserted(RoutedEntries(t, e.key), e))
                || |t.chain| != MAX_INTERNAL_ENTRIES)
  {
    hide Inserted, InsertPos, Overflows, Holds, HalvesFit, LeafSafe, StoreOk, Takes;
    var t := Tree(states[n], name);
    RunStaysSafe(states, events, n, name);
    RunKeepsStore(states, events, n);
    TreeInStore(states[n], name);
    var j := RoutedLeafInChain(t.nodes, t.root, t.chain, e.key);
    assert LinkedAt(t.nodes, t.chain, j);
    assert LeavesOf(t)[j] == RoutedEntries(t, e.key);
    SafeInsert(RoutedEntries(t, e.key), e, []);
  }

  // ----- one byte more -----

  /** Eleven entries of 26 bytes, ten of 340, one of 338: 4024 bytes; then one of 343. */
  function FillerBytes(i: nat): nat {
    if i <= 11 then 26 else if i <= 21 then 340 else if i == 22 then 338 else RUN_SAFE_BYTES + 1
  }

  function Filler(i: nat): Entry {
    Entry(i, i, 1, false, Row(i, i), FillerBytes(i))
  }

  function Fillers(n: nat): (es: seq<Entry>)
    ensures |es| == n && forall i :: 0 <= i < n ==> es[i] == Filler(i + 1)
  {
    seq(n, i requires 0 <= i < n => Filler(i + 1))
  }

  function FillerSum(n: nat): nat {
    if n <= 11 then 26 * n else if n <= 21 then 286 + 340 * (n - 11) else 4024 + 343 * (n - 22)
  }

  lemma {:induction false} FillerTotal(n: nat)
    ensures Bytes(Fillers(n)) == FillerSum(n)
  {
    if n > 0 {
      FillerTotal(n - 1);
      assert Fillers(n)[..n - 1] == Fillers(n - 1);
    }
  }

  lemma FillerInserted(n: nat)
    ensures Inserted(Fillers(n), Filler(n + 1)) == Fillers(n + 1) && !Holds(Fillers(n), Filler(n + 1))
  {
    InsertPosUnique(Fillers(n), Filler(n + 1), n);
    assert Fillers(n)[..n] == Fillers(n) && Fillers(n)[n..] == [];
    assert Fillers(n + 1) == Fillers(n) + [Filler(n + 1)];
  }

  /** The leaf of the first 22 takes all of them without a split; the 23rd entry, of 343 bytes, makes a
      right half of 4081 bytes. */
  lemma FillerOverflows()
    ensures forall n :: 0 <= n <= 22 ==> !Overflows(Fillers(n))
    ensures Overflows(Fillers(23)) && Bytes(LeftHalf(Fillers(23))) == 286
    ensures Bytes(RightHalf(Fillers(23))) == LEAF_CAPACITY + 1
  {
    forall n | 0 <= n <= 22 ensures !Overflows(Fillers(n)) {
      FillerTotal(n);
    }
    FillerTotal(23);
    FillerTotal(11);
    var es := Fillers(23);
    assert LeftHalf(es) == Fillers(11) && es == LeftHalf(es) + RightHalf(es);
    BytesConcat(LeftHalf(es), RightHalf(es));
  }

  // ----- leaves no run need have filled -----

  /** Twelve entries of 26 bytes, then entries one byte over the bound that holds for every leaf. */
  function Mixed(i: nat): Entry {
    Entry(i, i, 1, false, Row(i, i), if i <= 12 then MIN_ENTRY_BYTES else SAFE_ENTRY_BYTES + 1)
  }

  function MixedLeaf(n: nat): (es: seq<Entry>)
    ensures |es| == n && forall i :: 0 <= i < n ==> es[i] == Mixed(i + 1)
  {
    seq(n, i requires 0 <= i < n => Mixed(i + 1))
  }

  /** 313 is the most for a leaf of any history: a full page of entries of at most 314 bytes, and one
      more, make a right half of 4082 bytes. */
  lemma LeafBoundSharp()
    ensures LeafOk(MixedLeaf(24)) && Bytes(MixedLeaf(24)) == LEAF_CAPACITY
    ensures Mixed(25).bytes == SAFE_ENTRY_BYTES + 1 && Inserted(MixedLeaf(24), Mixed(25)) == MixedLeaf(25)
    ensures Bytes(RightHalf(MixedLeaf(25))) == LEAF_CAPACITY + 2
  {
    hide Bytes, Inserted, InsertPos, RightHalf;
    MixedSizes();
    MixedInserted();
  }

  lemma MixedInserted()
    ensures Sorted(MixedLeaf(24)) && Inserted(MixedLeaf(24), Mixed(25)) == MixedLeaf(25)
  {
    hide InsertPos;
    var es := MixedLeaf(24);
    InsertPosUnique(es, Mixed(25), 24);
    assert es[..24] == es && es[24..] == [];
    assert MixedLeaf(25) == es + [Mixed(25)];
  }

  lemma MixedSizes()
    ensures Bytes(MixedLeaf(24)) == LEAF_CAPACITY && Bytes(RightHalf(MixedLeaf(25))) == LEAF_CAPACITY + 2
  {
    hide Bytes;
    var small, large, right := MixedLeaf(12), MixedLeaf(24)[12..], RightHalf(MixedLeaf(25));
    BytesBounds(small, MIN_ENTRY_BYTES, MIN_ENTRY_BYTES);
    BytesBounds(right, SAFE_ENTRY_BYTES + 1, SAFE_ENTRY_BYTES + 1);
    BytesBounds(large, SAFE_ENTRY_BYTES + 1, SAFE_ENTRY_BYTES + 1);
    assert MixedLeaf(24) == small + large;
    BytesConcat(small, large);
  }
}
