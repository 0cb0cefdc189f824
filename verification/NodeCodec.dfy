/** Tree nodes as page payloads (loadNode and saveNode in src/BTree.cpp). */
module NodeCodec {
  import opened BitMath
  import opened Versions
  import opened TreeShape
  import opened ValueCodec
  import PageFiles

  const PAYLOAD_SIZE: nat := PageFiles.PAYLOAD_SIZE

  datatype LeafRecord = LeafRecord(key: Value, commitSeq: nat, txn: nat, tombstone: bool, payload: Tuple)
  datatype SepRecord = SepRecord(key: Value, child: nat)

  /** A node page, decoded. */
  datatype Image =
    | InternalImage(seps: seq<SepRecord>, right: nat)
    | LeafImage(entries: seq<LeafRecord>, right: nat)

  predicate RecordOk(e: LeafRecord) {
    && Storable(e.key) && e.commitSeq < TWO64 && e.txn < TWO64
    && TupleStorable(e.payload) && |EncodeTuple(e.payload)| < TWO32
  }

  predicate SepOk(e: SepRecord) {
    Storable(e.key) && e.child < TWO32
  }

  function Fixed(e: LeafRecord): seq<Byte>
    requires RecordOk(e)
  {
    Le(e.commitSeq, 8) + Le(e.txn, 8) + [if e.tombstone then 1 else 0]
  }

  function Sized(t: Tuple): seq<Byte>
    requires TupleStorable(t)
  {
    Le(|EncodeTuple(t)|, 4) + EncodeTuple(t)
  }

  function EncodeRecord(e: LeafRecord): seq<Byte>
    requires RecordOk(e)
  {
    Encode(e.key) + (Fixed(e) + Sized(e.payload))
  }

  function EncodeSep(e: SepRecord): seq<Byte>
    requires SepOk(e)
  {
    Encode(e.key) + Le(e.child, 4)
  }

  predicate RecordsOk(es: seq<LeafRecord>) {
    forall i :: 0 <= i < |es| ==> RecordOk(es[i])
  }

  predicate NamesOk(es: seq<LeafRecord>) {
    forall i :: 0 <= i < |es| ==> NamesDistinct(es[i].payload)
  }

  predicate SepsOk(es: seq<SepRecord>) {
    forall i :: 0 <= i < |es| ==> SepOk(es[i])
  }

  function EncodeRecords(es: seq<LeafRecord>): seq<Byte>
    requires RecordsOk(es)
  {
    if es == [] then [] else EncodeRecord(es[0]) + EncodeRecords(es[1..])
  }

  function EncodeSeps(es: seq<SepRecord>): seq<Byte>
    requires SepsOk(es)
  {
    if es == [] then [] else EncodeSep(es[0]) + EncodeSeps(es[1..])
  }

  predicate ImageOk(n: Image) {
    && n.right < TWO32
    && match n
       case InternalImage(seps, _) => |seps| < 0x1_0000 && SepsOk(seps)
       case LeafImage(es, _) => |es| < 0x1_0000 && RecordsOk(es)
  }

  function Count(n: Image): nat {
    match n
    case InternalImage(seps, _) => |seps|
    case LeafImage(es, _) => |es|
  }

  /** Kind, entry count, right sibling and one byte of padding. */
  function Header(n: Image): (r: seq<Byte>)
    ensures |r| == 8
  {
    [if n.InternalImage? then 0 else 1] + (Le(Count(n), 2) + (Le(n.right, 4) + [0]))
  }

  function Body(n: Image): seq<Byte>
    requires ImageOk(n)
  {
    match n
    case InternalImage(seps, _) => EncodeSeps(seps)
    case LeafImage(es, _) => EncodeRecords(es)
  }

  function Zeros(k: nat): seq<Byte> {
    seq(k, _ => 0)
  }

  predicate Fits(n: Image)
    requires ImageOk(n)
  {
    8 + |Body(n)| <= PAYLOAD_SIZE
  }

  function PageOf(n: Image): (page: seq<Byte>)
    requires ImageOk(n) && Fits(n)
    ensures |page| == PAYLOAD_SIZE
  {
    Header(n) + (Body(n) + Zeros(PAYLOAD_SIZE - 8 - |Body(n)|))
  }

  /** Where a page has its kind, count, right sibling and first entry, and how many bytes there are. */
  lemma PageLayout(n: Image)
    requires ImageOk(n) && Fits(n)
    ensures var p := PageOf(n);
            && |p| == 4088 && |Body(n)| <= 4080
            && p[0] == (if n.InternalImage? then 0 else 1) && NumAt(p, 1, 2) == Some(Count(n))
            && NumAt(p, 3, 4) == Some(n.right) && p[7] == 0
            && p[8..8 + |Body(n)|] == Body(n) && forall i :: 8 + |Body(n)| <= i < 4088 ==> p[i] == 0
  {
    hide Body;
    var p, h := PageOf(n), Header(n);
    assert p[..8] == h;
    Widths();
    assert p[1..3] == h[1..3] == Le(Count(n), 2);
    LeRoundTrip(Count(n), 2);
    assert p[3..7] == h[3..7] == Le(n.right, 4);
    LeRoundTrip(n.right, 4);
  }

  /** An entry's key, stamp, writer, tombstone flag, payload size and payload, one after the other. */
  lemma RecordLayout(e: LeafRecord)
    requires RecordOk(e)
    ensures var r, k := EncodeRecord(e), |Encode(e.key)|;
            && |r| == k + 21 + |EncodeTuple(e.payload)| && r[..k] == Encode(e.key)
            && NumAt(r, k, 8) == Some(e.commitSeq) && NumAt(r, k + 8, 8) == Some(e.txn)
            && r[k + 16] == (if e.tombstone then 1 else 0)
            && NumAt(r, k + 17, 4) == Some(|EncodeTuple(e.payload)|) && r[k + 21..] == EncodeTuple(e.payload)
  {
    hide Encode, EncodeTuple;
    var r, k := EncodeRecord(e), |Encode(e.key)|;
    Widths();
    assert r[k..k + 8] == Le(e.commitSeq, 8) && r[k + 8..k + 16] == Le(e.txn, 8);
    assert r[k + 17..k + 21] == Le(|EncodeTuple(e.payload)|, 4);
    LeRoundTrip(e.commitSeq, 8);
    LeRoundTrip(e.txn, 8);
    LeRoundTrip(|EncodeTuple(e.payload)|, 4);
  }

  // ----- decoding -----

  /** What follows the key. The tuple ends where its length prefix says, clamped to the page, whatever
      the tuple decoder consumed. */
  function RestAt(data: seq<Byte>, at: nat, key: Value): Option<Got<LeafRecord>> {
    var commitSeq, txn, len := NumAt(data, at, 8), NumAt(data, at + 8, 8), NumAt(data, at + 17, 4);
    if len.None? || commitSeq.None? || txn.None? then None
    else
      var payload := DecodeTuple(data, at + 21);
      var end := if at + 21 + len.value > |data| then |data| else at + 21 + len.value;
      if payload.None? then None
      else Some(Got(LeafRecord(key, commitSeq.value, txn.value, data[at + 16] != 0, payload.value), end))
  }

  function RecordAt(data: seq<Byte>, off: nat): Option<Got<LeafRecord>> {
    var key := Decode(data, off);
    if key.None? then None else RestAt(data, key.value.next, key.value.item)
  }

  function SepAt(data: seq<Byte>, off: nat): Option<Got<SepRecord>> {
    var key := Decode(data, off);
    if key.None? then None
    else
      var child := NumAt(data, key.value.next, 4);
      if child.None? then None else Some(Got(SepRecord(key.value.item, child.value), key.value.next + 4))
  }

  function RecordsAt(data: seq<Byte>, off: nat, n: nat, acc: seq<LeafRecord>): Option<seq<LeafRecord>>
    decreases n
  {
    if n == 0 then Some(acc)
    else
      var e := RecordAt(data, off);
      if e.None? then None else RecordsAt(data, e.value.next, n - 1, acc + [e.value.item])
  }

  function SepsAt(data: seq<Byte>, off: nat, n: nat, acc: seq<SepRecord>): Option<seq<SepRecord>>
    decreases n
  {
    if n == 0 then Some(acc)
    else
      var e := SepAt(data, off);
      if e.None? then None else SepsAt(data, e.value.next, n - 1, acc + [e.value.item])
  }

  /** Any kind byte but 0 means a leaf. */
  function ImageIn(page: seq<Byte>): Option<Image>
    requires |page| == PAYLOAD_SIZE
  {
    var n, right := NumAt(page, 1, 2).value, NumAt(page, 3, 4).value;
    if page[0] == 0 then
      var seps := SepsAt(page, 8, n, []);
      if seps.None? then None else Some(InternalImage(seps.value, right))
    else
      var es := RecordsAt(page, 8, n, []);
      if es.None? then None else Some(LeafImage(es.value, right))
  }

  // ----- round trip -----

  lemma FixedStands(data: seq<Byte>, at: nat, e: LeafRecord)
    requires RecordOk(e) && Stands(data, at, Fixed(e))
    ensures at + 17 <= |data|
    ensures NumAt(data, at, 8) == Some(e.commitSeq) && NumAt(data, at + 8, 8) == Some(e.txn)
    ensures data[at + 16] == if e.tombstone then 1 else 0
  {
    var flag: seq<Byte> := [if e.tombstone then 1 else 0];
    StandsApart(data, at, Le(e.commitSeq, 8) + Le(e.txn, 8), flag);
    StandsApart(data, at, Le(e.commitSeq, 8), Le(e.txn, 8));
    Widths();
    NumStands(data, at, e.commitSeq, 8);
    NumStands(data, at + 8, e.txn, 8);
    assert data[at + 16] == data[at + 16..at + 17][0];
  }

  lemma SizedStands(data: seq<Byte>, at: nat, t: Tuple)
    requires TupleStorable(t) && NamesDistinct(t) && |EncodeTuple(t)| < TWO32 && Stands(data, at, Sized(t))
    ensures NumAt(data, at, 4) == Some(|EncodeTuple(t)|) && DecodeTuple(data, at + 4) == Some(t)
    ensures at + 4 + |EncodeTuple(t)| <= |data|
  {
    StandsApart(data, at, Le(|EncodeTuple(t)|, 4), EncodeTuple(t));
    Widths();
    NumStands(data, at, |EncodeTuple(t)|, 4);
    TupleRoundTrip(data, at + 4, t);
  }

  lemma RestStands(data: seq<Byte>, at: nat, e: LeafRecord)
    requires RecordOk(e) && NamesDistinct(e.payload) && Stands(data, at, Fixed(e) + Sized(e.payload))
    ensures RestAt(data, at, e.key) == Some(Got(e, at + |Fixed(e) + Sized(e.payload)|))
  {
    hide NumAt, DecodeTuple;
    StandsApart(data, at, Fixed(e), Sized(e.payload));
    FixedStands(data, at, e);
    SizedStands(data, at + 17, e.payload);
  }

  lemma RecordParts(data: seq<Byte>, off: nat, at: nat, next: nat, e: LeafRecord)
    requires RecordOk(e) && Stands(data, off, EncodeRecord(e))
    requires at == off + |Encode(e.key)| && next == off + |EncodeRecord(e)|
    ensures Stands(data, off, Encode(e.key)) && Stands(data, at, Fixed(e) + Sized(e.payload))
    ensures next == at + |Fixed(e) + Sized(e.payload)|
  {
    StandsApart(data, off, Encode(e.key), Fixed(e) + Sized(e.payload));
  }

  lemma RecordStands(data: seq<Byte>, off: nat, at: nat, next: nat, e: LeafRecord)
    requires RecordOk(e) && NamesDistinct(e.payload) && Stands(data, off, EncodeRecord(e))
    requires at == off + |Encode(e.key)| && next == off + |EncodeRecord(e)|
    ensures RecordAt(data, off) == Some(Got(e, next))
  {
    hide Decode, RestAt;
    RecordParts(data, off, at, next, e);
    assert RestAt(data, at, e.key) == Some(Got(e, next)) by { RestStands(data, at, e); }
    assert Decode(data, off) == Some(Got(e.key, at)) by { ValueRoundTrip(data, off, e.key); }
  }

  lemma RecordComesBack(data: seq<Byte>, off: nat, next: nat, e: LeafRecord)
    requires RecordOk(e) && NamesDistinct(e.payload) && Stands(data, off, EncodeRecord(e))
    requires next == off + |EncodeRecord(e)|
    ensures RecordAt(data, off) == Some(Got(e, next))
  {
    RecordStands(data, off, off + |Encode(e.key)|, next, e);
  }

  lemma SepStands(data: seq<Byte>, off: nat, e: SepRecord)
    requires SepOk(e) && Stands(data, off, EncodeSep(e))
    ensures SepAt(data, off) == Some(Got(e, off + |EncodeSep(e)|))
  {
    hide Decode, NumAt;
    StandsApart(data, off, Encode(e.key), Le(e.child, 4));
    ValueRoundTrip(data, off, e.key);
    Widths();
    NumStands(data, off + |Encode(e.key)|, e.child, 4);
  }

  lemma {:induction false} RecordsRoundTrip(data: seq<Byte>, off: nat, es: seq<LeafRecord>, acc: seq<LeafRecord>,
                                            n: nat)
    requires RecordsOk(es) && NamesOk(es)
    requires Stands(data, off, EncodeRecords(es)) && n == |es|
    ensures RecordsAt(data, off, n, acc) == Some(acc + es)
    decreases n
  {
    hide RecordAt, EncodeRecord, Stands, NamesDistinct, RecordOk;
    if es == [] {
      assert acc + es == acc;
    } else {
      var e, next, m, acc' := es[0], off + |EncodeRecord(es[0])|, n - 1, acc + [es[0]];
      StandsApart(data, off, EncodeRecord(e), EncodeRecords(es[1..]));
      RecordComesBack(data, off, next, e);
      assert acc' + es[1..] == acc + es;
      RecordsRoundTrip(data, next, es[1..], acc', m);
    }
  }

  lemma {:induction false} SepsRoundTrip(data: seq<Byte>, off: nat, es: seq<SepRecord>, acc: seq<SepRecord>, n: nat)
    requires SepsOk(es) && Stands(data, off, EncodeSeps(es)) && n == |es|
    ensures SepsAt(data, off, n, acc) == Some(acc + es)
    decreases n
  {
    hide SepAt, EncodeSep, Stands;
    if es == [] {
      assert acc + es == acc;
    } else {
      var e, next, m, acc' := es[0], off + |EncodeSep(es[0])|, n - 1, acc + [es[0]];
      StandsApart(data, off, EncodeSep(e), EncodeSeps(es[1..]));
      SepStands(data, off, e);
      SepsRoundTrip(data, next, es[1..], acc', m);
      assert acc' + es[1..] == acc + es;
    }
  }

  lemma HeaderStands(page: seq<Byte>, n: Image)
    requires ImageOk(n) && Stands(page, 0, Header(n))
    ensures page[0] == if n.InternalImage? then 0 else 1
    ensures NumAt(page, 1, 2) == Some(Count(n)) && NumAt(page, 3, 4) == Some(n.right)
  {
    var kind: seq<Byte> := [if n.InternalImage? then 0 else 1];
    StandsApart(page, 0, kind, Le(Count(n), 2) + (Le(n.right, 4) + [0]));
    StandsApart(page, 1, Le(Count(n), 2), Le(n.right, 4) + [0]);
    StandsApart(page, 3, Le(n.right, 4), [0]);
    Widths();
    NumStands(page, 1, Count(n), 2);
    NumStands(page, 3, n.right, 4);
    assert page[0] == page[0..1][0];
  }

  /** Every node that fits its page comes back from it, provided no tuple repeats a column name. */
  lemma NodeRoundTrip(n: Image)
    requires ImageOk(n) && Fits(n)
    requires n.LeafImage? ==> NamesOk(n.entries)
    ensures ImageIn(PageOf(n)) == Some(n)
  {
    var page, rest := PageOf(n), Zeros(PAYLOAD_SIZE - 8 - |Body(n)|);
    assert Stands(page, 0, page);
    StandsApart(page, 0, Header(n), Body(n) + rest);
    StandsApart(page, 8, Body(n), rest);
    HeaderStands(page, n);
    match n {
      case InternalImage(seps, _) =>
        SepsRoundTrip(page, 8, seps, [], |seps|);
        assert [] + seps == seps;
      case LeafImage(es, _) =>
        RecordsRoundTrip(page, 8, es, [], |es|);
        assert [] + es == es;
    }
  }

  // ----- sizes -----

  /** The smallest entry: a Null key, both stamps, the flag, the length prefix and an empty tuple. */
  lemma RecordAtLeast26(e: LeafRecord)
    requires RecordOk(e)
    ensures |EncodeRecord(e)| >= MIN_ENTRY_BYTES
  {
  }

  lemma SmallestRecord()
    ensures var e := LeafRecord(Null, 0, 0, true, []); RecordOk(e) && |EncodeRecord(e)| == MIN_ENTRY_BYTES
  {
  }

  /** The sum the split test works with. */
  function SizeSum(es: seq<LeafRecord>): nat
    requires RecordsOk(es)
  {
    if es == [] then 0 else |EncodeRecord(es[0])| + SizeSum(es[1..])
  }

  lemma {:induction false} LeafFits(es: seq<LeafRecord>, right: nat)
    requires ImageOk(LeafImage(es, right))
    ensures |EncodeRecords(es)| == SizeSum(es)
    ensures Fits(LeafImage(es, right)) <==> SizeSum(es) <= LEAF_CAPACITY
  {
    if es != [] {
      LeafFits(es[1..], right);
    }
  }

  /** The bytes of an internal page's entries. */
  function SepSum(seps: seq<SepRecord>): nat
    requires SepsOk(seps)
  {
    if seps == [] then 0 else |Encode(seps[0].key)| + 4 + SepSum(seps[1..])
  }

  /** An internal node fits its page exactly when its keys, and four bytes each, sum to at most 4080. */
  lemma {:induction false} InternalFits(seps: seq<SepRecord>, right: nat)
    requires ImageOk(InternalImage(seps, right))
    ensures |EncodeSeps(seps)| == SepSum(seps)
    ensures Fits(InternalImage(seps, right)) <==> SepSum(seps) <= LEAF_CAPACITY
  {
    hide Encode;
    if seps != [] {
      InternalFits(seps[1..], right);
    }
  }

  /** A Null first key and m keys of c encoded bytes. */
  lemma {:induction false} EqualKeysSum(seps: seq<SepRecord>, c: nat)
    requires SepsOk(seps) && forall i :: 0 <= i < |seps| ==> |Encode(seps[i].key)| == c
    ensures SepSum(seps) == |seps| * (c + 4)
  {
    hide Encode;
    if seps != [] {
      EqualKeysSum(seps[1..], c);
    }
  }

  function TextKeys(m: nat, c: nat): (seps: seq<SepRecord>)
    requires m < TWO32 && c < TWO32
    ensures |seps| == m
  {
    seq(m, i requires 0 <= i < m => SepRecord(Text(Zeros(c)), i + 1))
  }

  /** 128 children under a Null key and 127 Text keys: keys of 28 bytes fit the page, keys of 29 need
      4196 bytes of 4080. */
  lemma LongKeysOverflow()
    ensures SepsOk(NullAndText(28)) && Fits(InternalImage(NullAndText(28), 0))
    ensures SepsOk(NullAndText(29)) && !Fits(InternalImage(NullAndText(29), 0))
  {
    hide Encode, Fits, TextKeys;
    TextSizes(127, 23);
    TextSizes(127, 24);
    NullAndKeys(TextKeys(127, 23), 28);
    NullAndKeys(TextKeys(127, 24), 29);
  }

  /** A Null key and 127 Text keys of c bytes each. */
  function NullAndText(c: nat): (seps: seq<SepRecord>)
    requires 5 <= c < TWO32
    ensures |seps| == 128
  {
    [SepRecord(Null, 0)] + TextKeys(127, c - 5)
  }

  lemma TextSizes(m: nat, c: nat)
    requires m < TWO32 && c < TWO32
    ensures SepsOk(TextKeys(m, c))
    ensures forall i :: 0 <= i < m ==> |Encode(TextKeys(m, c)[i].key)| == c + 5
  {
    forall i | 0 <= i < m ensures SepOk(TextKeys(m, c)[i]) && |Encode(TextKeys(m, c)[i].key)| == c + 5 {
      TextSize(c);
      assert TextKeys(m, c)[i] == SepRecord(Text(Zeros(c)), i + 1);
    }
  }

  lemma TextSize(c: nat)
    requires c < TWO32
    ensures Storable(Text(Zeros(c))) && |Encode(Text(Zeros(c)))| == c + 5
  {
    assert |Zeros(c)| == c && |Le(c, 4)| == 4;
  }

  lemma NullAndKeys(seps: seq<SepRecord>, c: nat)
    requires |seps| == 127 && SepsOk(seps) && forall i :: 0 <= i < |seps| ==> |Encode(seps[i].key)| == c
    ensures var all := [SepRecord(Null, 0)] + seps;
            SepsOk(all) && (Fits(InternalImage(all, 0)) <==> 5 + 127 * (c + 4) <= LEAF_CAPACITY)
  {
    var all := [SepRecord(Null, 0)] + seps;
    assert all[1..] == seps;
    InternalFits(all, 0);
    EqualKeysSum(seps, c);
  }

  /** Entries whose sizes are those of their records. */
  predicate SizedAs(es: seq<Entry>, rs: seq<LeafRecord>) {
    && |es| == |rs| && RecordsOk(rs)
    && forall i :: 0 <= i < |es| ==> es[i].bytes == |EncodeRecord(rs[i])|
  }

  lemma NoBytes()
    ensures Bytes([]) == 0
  {
  }

  lemma FirstBytes(es: seq<Entry>)
    requires es != []
    ensures Bytes(es) == es[0].bytes + Bytes(es[1..])
  {
    assert es == [es[0]] + es[1..];
    BytesConcat([es[0]], es[1..]);
    assert [es[0]][..0] == [];
    assert Bytes([es[0]][..0]) == 0;
  }

  /** What the tree counts is what the page takes. */
  lemma {:induction false} BytesAreSizes(es: seq<Entry>, rs: seq<LeafRecord>)
    requires SizedAs(es, rs)
    ensures Bytes(es) == SizeSum(rs) && forall e :: e in es ==> e.bytes >= MIN_ENTRY_BYTES
  {
    hide EncodeRecord, Bytes;
    if es == [] {
      NoBytes();
    } else {
      RecordAtLeast26(rs[0]);
      BytesAreSizes(es[1..], rs[1..]);
      FirstBytes(es);
    }
  }

  /** Records of at most 313 bytes never overflow a page: both halves of a leaf that splits can be saved. */
  lemma SmallRecordsFit(es: seq<Entry>, e: Entry, left: seq<LeafRecord>, right: seq<LeafRecord>, next: nat)
    requires LeafOk(es) && e.bytes >= MIN_ENTRY_BYTES && forall x :: x in es || x == e ==> x.bytes <= SAFE_ENTRY_BYTES
    requires SizedAs(LeftHalf(Inserted(es, e)), left) && SizedAs(RightHalf(Inserted(es, e)), right)
    requires ImageOk(LeafImage(left, next)) && ImageOk(LeafImage(right, next))
    ensures Fits(LeafImage(left, next)) && Fits(LeafImage(right, next))
  {
    hide Inserted, EncodeRecord, SizeSum;
    SmallEntriesFit(es, e);
    BytesAreSizes(LeftHalf(Inserted(es, e)), left);
    BytesAreSizes(RightHalf(Inserted(es, e)), right);
    LeafFits(left, next);
    LeafFits(right, next);
  }

  // ----- the code -----

  method RecordToBytes(e: LeafRecord) returns (r: seq<Byte>)
    requires RecordOk(e)
    ensures r == EncodeRecord(e)
  {
    var payload := TupleToBytes(e.payload);
    r := Encode(e.key) + (Fixed(e) + (Le(|payload|, 4) + payload));
  }

  /** Writes a leaf entry by entry and gives up at the first one that runs past the page. */
  method SaveLeaf(es: seq<LeafRecord>, right: nat) returns (page: Option<seq<Byte>>)
    requires ImageOk(LeafImage(es, right))
    ensures page.Some? <==> Fits(LeafImage(es, right))
    ensures page.Some? ==> page.value == PageOf(LeafImage(es, right))
  {
    hide EncodeRecord;
    var body := [];
    var i := 0;
    assert es[0..] == es;
    while i < |es|
      invariant i <= |es| && body + EncodeRecords(es[i..]) == EncodeRecords(es)
      invariant 8 + |body| <= PAYLOAD_SIZE
    {
      var r := RecordToBytes(es[i]);
      if 8 + |body| + |r| > PAYLOAD_SIZE {
        return None;
      }
      body := body + r;
      i := i + 1;
    }
    page := Some(Header(LeafImage(es, right)) + (body + Zeros(PAYLOAD_SIZE - 8 - |body|)));
  }

  /** Reads a node page back entry by entry. */
  method LoadNode(page: seq<Byte>) returns (r: Option<Image>)
    requires |page| == PAYLOAD_SIZE
    ensures r == ImageIn(page)
  {
    var n, right := FromLe(page[1..3]), FromLe(page[3..7]);
    if page[0] == 0 {
      var seps := LoadSeps(page, n);
      r := if seps.None? then None else Some(InternalImage(seps.value, right));
    } else {
      var es := LoadRecords(page, n);
      r := if es.None? then None else Some(LeafImage(es.value, right));
    }
  }

  method LoadRecords(page: seq<Byte>, n: nat) returns (r: Option<seq<LeafRecord>>)
    ensures r == RecordsAt(page, 8, n, [])
  {
    hide RecordAt;
    var es: seq<LeafRecord> := [];
    var off: nat, left: nat := 8, n;
    while left > 0
      invariant RecordsAt(page, off, left, es) == RecordsAt(page, 8, n, [])
    {
      var e := RecordAt(page, off);
      if e.None? {
        return None;
      }
      es, off, left := es + [e.value.item], e.value.next, left - 1;
    }
    r := Some(es);
  }

  method LoadSeps(page: seq<Byte>, n: nat) returns (r: Option<seq<SepRecord>>)
    ensures r == SepsAt(page, 8, n, [])
  {
    hide SepAt;
    var seps: seq<SepRecord> := [];
    var off: nat, left: nat := 8, n;
    while left > 0
      invariant SepsAt(page, off, left, seps) == SepsAt(page, 8, n, [])
    {
      var e := SepAt(page, off);
      if e.None? {
        return None;
      }
      seps, off, left := seps + [e.value.item], e.value.next, left - 1;
    }
    r := Some(seps);
  }
}
