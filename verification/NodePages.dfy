/**
 Tree nodes on pages: a decoded node is encoded, sealed with its checksum, written, read, checked
 and decoded again. This is where the pages of the tree meet the bytes of the file.
 */
module NodePages {
  import opened BitMath
  import opened Versions
  import opened BuddyPool
  import opened TreeShape
  import opened TreeGrowth
  import opened AccessPaths
  import opened PageBytes
  import opened PageFiles
  import opened ValueCodec
  import opened NodeCodec

  /** What an entry and a key are on a page. */
  datatype Coding = Coding(record: Entry -> LeafRecord, key: Key -> Value)

  /** The entry's record can be stored, and takes the bytes the entry says. */
  predicate CodesEntry(c: Coding, e: Entry) {
    var r := c.record(e);
    RecordOk(r) && NamesDistinct(r.payload) && |EncodeRecord(r)| == e.bytes
  }

  predicate Coded(c: Coding, node: Node) {
    match node
    case Leaf(es, right) => |es| < 0x1_0000 && right < TWO32 && forall i :: 0 <= i < |es| ==> CodesEntry(c, es[i])
    case Internal(seps) =>
      |seps| < 0x1_0000 && forall i :: 0 <= i < |seps| ==> Storable(c.key(seps[i].key)) && seps[i].child < TWO32
  }

  function Records(c: Coding, es: seq<Entry>): (rs: seq<LeafRecord>)
    ensures |rs| == |es|
  {
    seq(|es|, i requires 0 <= i < |es| => c.record(es[i]))
  }

  function SepRecords(c: Coding, seps: seq<Sep>): (rs: seq<SepRecord>)
    ensures |rs| == |seps|
  {
    seq(|seps|, i requires 0 <= i < |seps| => SepRecord(c.key(seps[i].key), seps[i].child))
  }

  function ImageOf(c: Coding, node: Node): Image {
    match node
    case Leaf(es, right) => LeafImage(Records(c, es), right)
    case Internal(seps) => InternalImage(SepRecords(c, seps), 0)
  }

  lemma CodedImageOk(c: Coding, node: Node)
    requires Coded(c, node)
    ensures ImageOk(ImageOf(c, node))
    ensures node.Leaf? ==> NamesOk(Records(c, node.entries)) && SizedAs(node.entries, Records(c, node.entries))
  {
    hide EncodeRecord;
  }

  /** Distinct entries and keys have distinct codes, as far as the two nodes go. */
  predicate CodesApart(c: Coding, a: Node, b: Node) {
    && (a.Leaf? && b.Leaf? ==>
          forall x, y :: x in a.entries && y in b.entries && c.record(x) == c.record(y) ==> x == y)
    && (a.Internal? && b.Internal? ==>
          forall x, y :: x in a.seps && y in b.seps && c.key(x.key) == c.key(y.key) ==> x.key == y.key)
  }

  /** Two nodes with the same image are the same node. */
  lemma ImageDeterminesNode(c: Coding, a: Node, b: Node)
    requires CodesApart(c, a, b) && ImageOf(c, a) == ImageOf(c, b)
    ensures a == b
  {
    match a
    case Leaf(es, right) =>
      forall i | 0 <= i < |es| ensures |b.entries| == |es| && es[i] == b.entries[i] {
        assert Records(c, es)[i] == Records(c, b.entries)[i];
      }
      assert |Records(c, es)| == |Records(c, b.entries)|;
    case Internal(seps) =>
      assert |SepRecords(c, seps)| == |SepRecords(c, b.seps)|;
      forall i | 0 <= i < |seps| ensures seps[i] == b.seps[i] {
        assert SepRecords(c, seps)[i] == SepRecords(c, b.seps)[i];
        assert seps[i] in seps && b.seps[i] in b.seps;
      }
  }

  // ----- which nodes fit -----

  function KeySize(c: Coding): Key -> nat {
    k => if Storable(c.key(k)) then |Encode(c.key(k))| else 0
  }

  lemma {:induction false} SepBytesAreSizes(c: Coding, seps: seq<Sep>)
    requires Coded(c, Internal(seps))
    ensures SepsOk(SepRecords(c, seps)) && SepSum(SepRecords(c, seps)) == SepBytes(Keys(seps), KeySize(c))
  {
    hide Encode, SepBytes;
    var rs, keys := SepRecords(c, seps), Keys(seps);
    if seps == [] {
      NoSepBytes(KeySize(c));
    } else {
      SepBytesAreSizes(c, seps[1..]);
      assert rs[1..] == SepRecords(c, seps[1..]);
      assert keys == [keys[0]] + Keys(seps[1..]);
      SepBytesConcat([keys[0]], Keys(seps[1..]), KeySize(c));
      SepBytesOne(keys[0], KeySize(c));
    }
  }

  lemma NoSepBytes(size: Key -> nat)
    ensures SepBytes([], size) == 0
  {
  }

  /** A node fits its page exactly when the bytes of its entries, or of its separators, do. */
  lemma NodeFits(c: Coding, node: Node)
    requires Coded(c, node)
    ensures ImageOk(ImageOf(c, node))
    ensures Fits(ImageOf(c, node)) <==>
            match node
            case Leaf(es, _) => Bytes(es) <= LEAF_CAPACITY
            case Internal(seps) => SepBytes(Keys(seps), KeySize(c)) <= LEAF_CAPACITY
  {
    hide Encode, EncodeRecord, SepBytes, Bytes, Fits;
    CodedImageOk(c, node);
    match node
    case Leaf(es, right) =>
      BytesAreSizes(es, Records(c, es));
      LeafFits(Records(c, es), right);
    case Internal(seps) =>
      SepBytesAreSizes(c, seps);
      InternalFits(SepRecords(c, seps), 0);
  }

  /** Every page of a tree fits exactly when the separators fit theirs: the leaves always do. */
  lemma TreeFitsIff(t: TreeState, c: Coding)
    requires StateOk(t) && forall p :: p in Pages(t) && p in t.nodes ==> Coded(c, t.nodes[p])
    requires Storable(c.key(NULL_KEY)) && |Encode(c.key(NULL_KEY))| == 1
    ensures forall p :: p in Pages(t) ==> p in t.nodes && ImageOk(ImageOf(c, t.nodes[p]))
    ensures (forall p :: p in Pages(t) ==> Fits(ImageOf(c, t.nodes[p]))) <==> SepsFit(t, KeySize(c))
  {
    hide Encode, SepBytes, Bytes, Fits, Coded, KeySize, CodesEntry, ImageOk;
    forall p | p in Pages(t)
      ensures p in t.nodes && ImageOk(ImageOf(c, t.nodes[p]))
      ensures Fits(ImageOf(c, t.nodes[p])) <==> (p == t.root && t.nodes[p].Internal? ==> SepsFit(t, KeySize(c)))
    {
      TreePage(t, p);
      NodeFits(c, t.nodes[p]);
    }
    assert t.root in Pages(t);
    if t.nodes[t.root].Leaf? {
      LeafRootFits(t, c);
    }
  }

  lemma TreePage(t: TreeState, p: PageId)
    requires StateOk(t) && p in Pages(t)
    ensures p in t.nodes && (t.nodes[p].Leaf? ==> Bytes(t.nodes[p].entries) <= LEAF_CAPACITY)
    ensures t.nodes[p].Internal? ==> p == t.root
  {
    hide Bytes, Covers;
    if p in t.chain {
      var i :| 0 <= i < |t.chain| && t.chain[i] == p;
      assert LinkedAt(t.nodes, t.chain, i);
    }
  }

  lemma LeafRootFits(t: TreeState, c: Coding)
    requires t.root in t.nodes && t.nodes[t.root].Leaf?
    requires Storable(c.key(NULL_KEY)) && |Encode(c.key(NULL_KEY))| == 1
    ensures SepsFit(t, KeySize(c))
  {
    hide Encode, SepBytes;
    SepBytesOne(NULL_KEY, KeySize(c));
  }

  // ----- the file -----

  /** What the file holds at a page, checked and decoded. */
  function NodeAt(pages: map<nat, seq<Byte>>, pageCount: nat, id: nat): Option<Image> {
    if !(0 < id < pageCount && id in pages) then None
    else
      var payload := Unsealed(pages[id]);
      if payload.None? || |payload.value| != PageFiles.PAYLOAD_SIZE then None else ImageIn(payload.value)
  }

  /** A node that was written is there, and no other page changed. */
  lemma StoredNodeLoads(pages: map<nat, seq<Byte>>, pageCount: nat, id: nat, n: Image)
    requires ImageOk(n) && Fits(n) && (n.LeafImage? ==> NamesOk(n.entries)) && 0 < id < pageCount
    ensures var pages' := pages[id := Sealed(PageOf(n))];
            && NodeAt(pages', pageCount, id) == Some(n)
            && forall p :: p != id ==> NodeAt(pages', pageCount, p) == NodeAt(pages, pageCount, p)
  {
    hide PageOf, ImageIn, Sealed, Unsealed, Fits;
    assert |PageOf(n)| == PageFiles.PAYLOAD_SIZE by { PageLength(n); }
    SealRoundTrip(PageOf(n));
    NodeRoundTrip(n);
  }

  lemma PageLength(n: Image)
    requires ImageOk(n) && Fits(n)
    ensures |PageOf(n)| == PageFiles.PAYLOAD_SIZE
  {
  }

  /** Writes a node's page and reads it back. */
  method WriteNode(file: PageFile, id: nat, n: Image) returns (ok: bool)
    requires ImageOk(n) && Fits(n) && (n.LeafImage? ==> NamesOk(n.entries))
    modifies file`pages
    ensures ok <==> 0 < id < file.pageCount
    ensures ok ==> NodeAt(file.pages, file.pageCount, id) == Some(n)
    ensures forall p :: p != id || !ok ==>
              NodeAt(file.pages, file.pageCount, p) == old(NodeAt(file.pages, file.pageCount, p))
  {
    hide PageOf, ImageIn, Unsealed, Fits, Sealed;
    PageLength(n);
    ghost var pages := file.pages;
    ok := file.WritePage(id, PageOf(n));
    if ok {
      StoredNodeLoads(pages, file.pageCount, id, n);
    }
  }

  method ReadNode(file: PageFile, id: nat) returns (r: Option<Image>)
    ensures r == NodeAt(file.pages, file.pageCount, id)
  {
    var payload := file.ReadPage(id);
    if payload.None? || |payload.value| != PageFiles.PAYLOAD_SIZE {
      return None;
    }
    r := LoadNode(payload.value);
  }
}
