/** Values and tuples as bytes (toBytes and fromBytes in includes/opendb/types/Value.hpp, encodeTuple and
    decodeTuple in src/BTree.cpp). */
module ValueCodec {
  import opened BitMath
  import opened Versions

  function Pow256(k: nat): (r: nat)
    ensures r >= 1
  {
    if k == 0 then 1 else 256 * Pow256(k - 1)
  }

  /** The k low bytes of a number, low byte first. */
  function Le(n: nat, k: nat): seq<Byte> {
    seq(k, i requires 0 <= i < k => ByteOf(n, i))
  }

  function ByteOf(n: nat, i: nat): Byte
    decreases i
  {
    if i == 0 then n % 256 else ByteOf(n / 256, i - 1)
  }

  lemma LeStep(n: nat, k: nat)
    requires k > 0
    ensures Le(n, k) == [n % 256] + Le(n / 256, k - 1)
  {
  }

  function FromLe(bs: seq<Byte>): nat {
    if bs == [] then 0 else bs[0] + 256 * FromLe(bs[1..])
  }

  /** A Double is the 64 bits it is stored as. */
  datatype Value =
    | Null
    | Bool(b: bool)
    | Int32(n: int)
    | Int64(n: int)
    | Double(bits: nat)
    | Text(s: seq<Byte>)
    | Blob(s: seq<Byte>)
    | Date(n: int)
    | Timestamp(n: int)

  const TWO31: int := 0x8000_0000
  const TWO32: int := 0x1_0000_0000
  const TWO63: int := 0x8000_0000_0000_0000
  const TWO64: int := 0x1_0000_0000_0000_0000

  /** The ranges of the machine types, and lengths that fit their 32-bit prefix. */
  predicate Storable(v: Value) {
    match v
    case Null => true
    case Bool(_) => true
    case Int32(n) => -TWO31 <= n < TWO31
    case Int64(n) => -TWO63 <= n < TWO63
    case Double(bits) => bits < TWO64
    case Text(s) => |s| < TWO32
    case Blob(s) => |s| < TWO32
    case Date(n) => -TWO31 <= n < TWO31
    case Timestamp(n) => -TWO63 <= n < TWO63
  }

  /** Two's complement. */
  function Unsigned(n: int, width: int): nat
    requires -width <= n
  {
    if n < 0 then n + width else n
  }

  function Signed(u: nat, width: int): int {
    if u >= width / 2 then u - width else u
  }

  function Tag(v: Value): Byte {
    match v
    case Null => 0
    case Bool(_) => 1
    case Int32(_) => 2
    case Int64(_) => 3
    case Double(_) => 4
    case Text(_) => 5
    case Blob(_) => 6
    case Date(_) => 7
    case Timestamp(_) => 8
  }

  function Payload(v: Value): seq<Byte>
    requires Storable(v)
  {
    match v
    case Null => []
    case Bool(b) => [if b then 1 else 0]
    case Int32(n) => Le(Unsigned(n, TWO32), 4)
    case Date(n) => Le(Unsigned(n, TWO32), 4)
    case Int64(n) => Le(Unsigned(n, TWO64), 8)
    case Timestamp(n) => Le(Unsigned(n, TWO64), 8)
    case Double(bits) => Le(bits, 8)
    case Text(s) => Le(|s|, 4) + s
    case Blob(s) => Le(|s|, 4) + s
  }

  function Encode(v: Value): seq<Byte>
    requires Storable(v)
  {
    [Tag(v)] + Payload(v)
  }

  /** The number in k bytes at an offset, if they are there. */
  function NumAt(data: seq<Byte>, off: nat, k: nat): Option<nat> {
    if off + k <= |data| then Some(FromLe(data[off..off + k])) else None
  }

  function BytesAt(data: seq<Byte>, off: nat, k: nat): Option<seq<Byte>> {
    if off + k <= |data| then Some(data[off..off + k]) else None
  }

  /** A decoded item and the offset right after it. */
  datatype Got<T> = Got(item: T, next: nat)

  function Prefixed(data: seq<Byte>, off: nat): Option<seq<Byte>> {
    var len := NumAt(data, off, 4);
    if len.None? then None else BytesAt(data, off + 4, len.value)
  }

  /** Nothing for an unknown tag or a value that runs past the end. */
  function Decode(data: seq<Byte>, off: nat): (r: Option<Got<Value>>)
    ensures r.Some? ==> off < r.value.next <= |data|
  {
    if off >= |data| then None
    else
      var tag := data[off];
      var at := off + 1;
      if tag == 0 then Some(Got(Null, at))
      else if tag == 1 then if at < |data| then Some(Got(Bool(data[at] != 0), at + 1)) else None
      else if tag == 2 || tag == 7 then
        var u := NumAt(data, at, 4);
        if u.None? then None
        else Some(Got(if tag == 7 then Date(Signed(u.value, TWO32)) else Int32(Signed(u.value, TWO32)), at + 4))
      else if tag == 3 || tag == 8 then
        var u := NumAt(data, at, 8);
        if u.None? then None
        else Some(Got(if tag == 8 then Timestamp(Signed(u.value, TWO64)) else Int64(Signed(u.value, TWO64)), at + 8))
      else if tag == 4 then
        var u := NumAt(data, at, 8);
        if u.None? then None else Some(Got(Double(u.value), at + 8))
      else if tag == 5 || tag == 6 then
        var s := Prefixed(data, at);
        if s.None? then None
        else Some(Got(if tag == 5 then Text(s.value) else Blob(s.value), at + 4 + |s.value|))
      else None
  }

  // ----- bytes at a place -----

  /** The bytes stand at the offset. */
  predicate Stands(data: seq<Byte>, off: nat, bs: seq<Byte>) {
    off + |bs| <= |data| && data[off..off + |bs|] == bs
  }

  lemma StandsApart(data: seq<Byte>, off: nat, a: seq<Byte>, b: seq<Byte>)
    ensures Stands(data, off, a + b) <==> Stands(data, off, a) && Stands(data, off + |a|, b)
  {
    if off + |a| + |b| <= |data| {
      var whole := data[off..off + |a + b|];
      assert whole[..|a|] == data[off..off + |a|] && whole[|a|..] == data[off + |a|..off + |a| + |b|];
      assert whole == whole[..|a|] + whole[|a|..];
      assert (a + b)[..|a|] == a && (a + b)[|a|..] == b;
    }
  }

  lemma {:induction false} LeRoundTrip(n: nat, k: nat)
    requires n < Pow256(k)
    ensures FromLe(Le(n, k)) == n
    decreases k
  {
    if k > 0 {
      LeRoundTrip(n / 256, k - 1);
      LeStep(n, k);
    }
  }

  lemma Widths()
    ensures Pow256(1) == 256 && Pow256(2) == 0x1_0000 && Pow256(4) == TWO32 && Pow256(8) == TWO64
  {
    assert Pow256(4) == 256 * (256 * Pow256(2));
    assert Pow256(6) == 256 * (256 * Pow256(4));
    assert Pow256(8) == 256 * (256 * Pow256(6));
  }

  lemma NumStands(data: seq<Byte>, off: nat, n: nat, k: nat)
    requires Stands(data, off, Le(n, k)) && n < Pow256(k)
    ensures NumAt(data, off, k) == Some(n)
  {
    LeRoundTrip(n, k);
  }

  lemma PrefixedStands(data: seq<Byte>, off: nat, s: seq<Byte>)
    requires Stands(data, off, Le(|s|, 4) + s) && |s| < TWO32
    ensures Prefixed(data, off) == Some(s)
  {
    StandsApart(data, off, Le(|s|, 4), s);
    Widths();
    NumStands(data, off, |s|, 4);
  }

  /** Wherever an encoded value stands, decoding there gives the value and the offset after it. */
  lemma ValueRoundTrip(data: seq<Byte>, off: nat, v: Value)
    requires Storable(v) && Stands(data, off, Encode(v))
    ensures Decode(data, off) == Some(Got(v, off + |Encode(v)|))
  {
    StandsApart(data, off, [Tag(v)], Payload(v));
    assert data[off] == data[off..off + 1][0] == Tag(v);
    PayloadRoundTrip(data, off + 1, v);
  }

  lemma PayloadRoundTrip(data: seq<Byte>, at: nat, v: Value)
    requires Storable(v) && Stands(data, at, Payload(v))
    ensures match v
            case Null => true
            case Bool(b) => at < |data| && data[at] == if b then 1 else 0
            case Int32(n) => NumAt(data, at, 4).Some? && Signed(NumAt(data, at, 4).value, TWO32) == n
            case Date(n) => NumAt(data, at, 4).Some? && Signed(NumAt(data, at, 4).value, TWO32) == n
            case Int64(n) => NumAt(data, at, 8).Some? && Signed(NumAt(data, at, 8).value, TWO64) == n
            case Timestamp(n) => NumAt(data, at, 8).Some? && Signed(NumAt(data, at, 8).value, TWO64) == n
            case Double(bits) => NumAt(data, at, 8) == Some(bits)
            case Text(s) => Prefixed(data, at) == Some(s)
            case Blob(s) => Prefixed(data, at) == Some(s)
  {
    match v
    case Null =>
    case Bool(_) => assert data[at] == data[at..at + 1][0];
    case Int32(n) => IntStands(data, at, n, 4, TWO32);
    case Date(n) => IntStands(data, at, n, 4, TWO32);
    case Int64(n) => IntStands(data, at, n, 8, TWO64);
    case Timestamp(n) => IntStands(data, at, n, 8, TWO64);
    case Double(bits) => Widths(); NumStands(data, at, bits, 8);
    case Text(s) => PrefixedStands(data, at, s);
    case Blob(s) => PrefixedStands(data, at, s);
  }

  lemma IntStands(data: seq<Byte>, at: nat, n: int, k: nat, width: int)
    requires (k == 4 && width == TWO32) || (k == 8 && width == TWO64)
    requires -(width / 2) <= n < width / 2 && Stands(data, at, Le(Unsigned(n, width), k))
    ensures NumAt(data, at, k).Some? && Signed(NumAt(data, at, k).value, width) == n
  {
    Widths();
    NumStands(data, at, Unsigned(n, width), k);
  }

  // ----- the format in bytes -----

  lemma LeOne(n: nat)
    requires n < 256
    ensures Le(n, 4) == [n, 0, 0, 0] && Le(n, 8) == [n, 0, 0, 0, 0, 0, 0, 0]
  {
    ByteSteps(n);
    ByteSteps(0);
  }

  lemma ByteSteps(n: nat)
    ensures Le(n, 0) == []
    ensures forall k: nat :: k > 0 ==> Le(n, k) == [n % 256] + Le(n / 256, k - 1)
  {
    forall k: nat | k > 0 ensures Le(n, k) == [n % 256] + Le(n / 256, k - 1) {
      LeStep(n, k);
    }
  }

  /** A tag from 0 to 8, and after it integers in two's complement and lengths, low byte first. */
  lemma ValueFormat(n: nat, s: seq<Byte>)
    requires n < 128 && |s| < 256
    ensures Encode(Null) == [0] && Encode(Bool(false)) == [1, 0] && Encode(Bool(true)) == [1, 1]
    ensures Encode(Int32(n)) == [2, n, 0, 0, 0] && Encode(Int64(n)) == [3, n, 0, 0, 0, 0, 0, 0, 0]
    ensures Encode(Double(n)) == [4, n, 0, 0, 0, 0, 0, 0, 0]
    ensures Encode(Text(s)) == [5, |s|, 0, 0, 0] + s && Encode(Blob(s)) == [6, |s|, 0, 0, 0] + s
    ensures Encode(Date(n)) == [7, n, 0, 0, 0] && Encode(Timestamp(n)) == [8, n, 0, 0, 0, 0, 0, 0, 0]
  {
    hide Le;
    LeOne(n);
    LeOne(|s|);
    assert [5] + ([|s|, 0, 0, 0] + s) == [5, |s|, 0, 0, 0] + s && [6] + ([|s|, 0, 0, 0] + s) == [6, |s|, 0, 0, 0] + s;
  }

  // ----- tuples -----

  datatype Column = Column(name: seq<Byte>, value: Value)
  type Tuple = seq<Column>

  predicate TupleStorable(t: Tuple) {
    |t| < TWO32 && forall i :: 0 <= i < |t| ==> |t[i].name| < TWO32 && Storable(t[i].value)
  }

  predicate NamesDistinct(t: Tuple) {
    forall i, j :: 0 <= i < j < |t| ==> t[i].name != t[j].name
  }

  /** Setting a column replaces the value of an existing one in place and appends a new one. */
  function SetColumn(t: Tuple, name: seq<Byte>, v: Value): Tuple {
    if t == [] then [Column(name, v)]
    else if t[0].name == name then [Column(name, v)] + t[1..]
    else [t[0]] + SetColumn(t[1..], name, v)
  }

  function EncodeColumn(c: Column): seq<Byte>
    requires |c.name| < TWO32 && Storable(c.value)
  {
    Le(|c.name|, 4) + c.name + Encode(c.value)
  }

  function EncodeColumns(t: Tuple): seq<Byte>
    requires forall i :: 0 <= i < |t| ==> |t[i].name| < TWO32 && Storable(t[i].value)
  {
    if t == [] then [] else EncodeColumn(t[0]) + EncodeColumns(t[1..])
  }

  function EncodeTuple(t: Tuple): seq<Byte>
    requires TupleStorable(t)
  {
    Le(|t|, 4) + EncodeColumns(t)
  }

  /** Reads up to n columns; a column that starts past the end ends the loop, a malformed value is an error. */
  function DecodeColumns(data: seq<Byte>, off: nat, n: nat, acc: Tuple): Option<Tuple>
    decreases n
  {
    if n == 0 || off + 4 > |data| then Some(acc)
    else
      var nlen := NumAt(data, off, 4).value;
      if off + 4 + nlen > |data| then Some(acc)
      else
        var v := Decode(data, off + 4 + nlen);
        if v.None? then None
        else DecodeColumns(data, v.value.next, n - 1, SetColumn(acc, data[off + 4..off + 4 + nlen], v.value.item))
  }

  function DecodeTuple(data: seq<Byte>, off: nat): Option<Tuple> {
    if off + 4 > |data| then Some([]) else DecodeColumns(data, off + 4, NumAt(data, off, 4).value, [])
  }

  lemma {:induction false} SetNewColumn(t: Tuple, name: seq<Byte>, v: Value)
    requires forall i :: 0 <= i < |t| ==> t[i].name != name
    ensures SetColumn(t, name, v) == t + [Column(name, v)]
  {
    if t != [] {
      SetNewColumn(t[1..], name, v);
      assert t == [t[0]] + t[1..];
    }
  }

  lemma ColumnStands(data: seq<Byte>, off: nat, c: Column)
    requires |c.name| < TWO32 && Storable(c.value) && Stands(data, off, EncodeColumn(c))
    ensures off + 4 + |c.name| <= |data|
    ensures NumAt(data, off, 4) == Some(|c.name|)
    ensures data[off + 4..off + 4 + |c.name|] == c.name
    ensures Decode(data, off + 4 + |c.name|) == Some(Got(c.value, off + |EncodeColumn(c)|))
  {
    hide Encode, Decode, Storable, NumAt;
    StandsApart(data, off, Le(|c.name|, 4) + c.name, Encode(c.value));
    StandsApart(data, off, Le(|c.name|, 4), c.name);
    Widths();
    NumStands(data, off, |c.name|, 4);
    ValueRoundTrip(data, off + 4 + |c.name|, c.value);
  }

  /** One round of the decoding loop over a column that stands at the offset. */
  lemma DecodeStep(data: seq<Byte>, off: nat, next: nat, n: nat, m: nat, acc: Tuple, acc': Tuple, c: Column)
    requires |c.name| < TWO32 && Storable(c.value) && Stands(data, off, EncodeColumn(c))
    requires acc' == SetColumn(acc, c.name, c.value) && next == off + |EncodeColumn(c)| && n == m + 1
    ensures DecodeColumns(data, off, n, acc) == DecodeColumns(data, next, m, acc')
  {
    hide Decode, EncodeColumn, NumAt, Stands;
    ColumnStands(data, off, c);
  }

  lemma FreshName(acc: Tuple, t: Tuple)
    requires NamesDistinct(acc + t) && t != []
    ensures SetColumn(acc, t[0].name, t[0].value) == acc + [t[0]] && acc + [t[0]] + t[1..] == acc + t
  {
    forall i | 0 <= i < |acc| ensures acc[i].name != t[0].name {
      assert (acc + t)[i] == acc[i] && (acc + t)[|acc|] == t[0];
    }
    SetNewColumn(acc, t[0].name, t[0].value);
  }

  /** The columns set one after another. */
  function SetAll(acc: Tuple, t: Tuple): Tuple
    decreases |t|
  {
    if t == [] then acc else SetAll(SetColumn(acc, t[0].name, t[0].value), t[1..])
  }

  lemma {:induction false} SetAllDistinct(acc: Tuple, t: Tuple)
    requires NamesDistinct(acc + t)
    ensures SetAll(acc, t) == acc + t
    decreases |t|
  {
    if t == [] {
      assert acc + t == acc;
    } else {
      FreshName(acc, t);
      SetAllDistinct(acc + [t[0]], t[1..]);
    }
  }

  lemma {:induction false} ColumnsDecode(data: seq<Byte>, off: nat, t: Tuple, acc: Tuple, n: nat)
    requires TupleStorable(t) && Stands(data, off, EncodeColumns(t)) && n == |t|
    ensures DecodeColumns(data, off, n, acc) == Some(SetAll(acc, t))
    decreases n
  {
    if t != [] {
      hide Decode, EncodeColumn, NumAt, Stands, SetColumn;
      var c, next, m := t[0], off + |EncodeColumn(t[0])|, n - 1;
      StandsApart(data, off, EncodeColumn(c), EncodeColumns(t[1..]));
      var acc' := SetColumn(acc, c.name, c.value);
      ColumnsDecode(data, next, t[1..], acc', m);
      DecodeStep(data, off, next, n, m, acc, acc', c);
    }
  }

  /** Decoding the bytes of any tuple sets its columns one after another, whatever their names. */
  lemma TupleDecodes(data: seq<Byte>, off: nat, t: Tuple)
    requires TupleStorable(t) && Stands(data, off, EncodeTuple(t))
    ensures DecodeTuple(data, off) == Some(SetAll([], t))
  {
    StandsApart(data, off, Le(|t|, 4), EncodeColumns(t));
    Widths();
    NumStands(data, off, |t|, 4);
    ColumnsDecode(data, off + 4, t, [], |t|);
  }

  /** Decoding gives the tuple back if no column name occurs twice. */
  lemma TupleRoundTrip(data: seq<Byte>, off: nat, t: Tuple)
    requires TupleStorable(t) && NamesDistinct(t) && Stands(data, off, EncodeTuple(t))
    ensures DecodeTuple(data, off) == Some(t)
  {
    TupleDecodes(data, off, t);
    assert [] + t == t;
    SetAllDistinct([], t);
  }

  lemma {:induction false} SetColumnNames(t: Tuple, name: seq<Byte>, v: Value)
    requires NamesDistinct(t)
    ensures NamesDistinct(SetColumn(t, name, v))
    ensures forall c :: c in SetColumn(t, name, v) ==> c.name == name || c in t
  {
    if t != [] && t[0].name != name {
      SetColumnNames(t[1..], name, v);
      assert t == [t[0]] + t[1..];
    }
  }

  /** Whatever the bytes are, the columns read from them have distinct names. */
  lemma {:induction false} DecodedNamesDistinct(data: seq<Byte>, off: nat, n: nat, acc: Tuple)
    requires NamesDistinct(acc)
    ensures var r := DecodeColumns(data, off, n, acc); r.Some? ==> NamesDistinct(r.value)
    decreases n
  {
    if n > 0 && off + 4 <= |data| {
      var nlen := NumAt(data, off, 4).value;
      if off + 4 + nlen <= |data| {
        var v := Decode(data, off + 4 + nlen);
        if v.Some? {
          var name := data[off + 4..off + 4 + nlen];
          SetColumnNames(acc, name, v.value.item);
          DecodedNamesDistinct(data, v.value.next, n - 1, SetColumn(acc, name, v.value.item));
        }
      }
    }
  }

  /** A tuple comes back from its bytes exactly when its column names are distinct. */
  lemma TupleComesBackIff(data: seq<Byte>, off: nat, t: Tuple)
    requires TupleStorable(t) && Stands(data, off, EncodeTuple(t))
    ensures DecodeTuple(data, off) == Some(t) <==> NamesDistinct(t)
  {
    if NamesDistinct(t) {
      TupleRoundTrip(data, off, t);
    } else if off + 4 <= |data| {
      DecodedNamesDistinct(data, off + 4, NumAt(data, off, 4).value, []);
    }
  }

  /** A repeated name collapses to one column with the last value, so such a tuple does not come back. */
  lemma RepeatedNameLost()
    ensures var t := [Column([97], Null), Column([97], Bool(true))];
            TupleStorable(t) && DecodeTuple(EncodeTuple(t), 0) == Some([Column([97], Bool(true))])
  {
    var a, b := Column([97], Null), Column([97], Bool(true));
    assert SetAll([a], [b]) == [b];
    assert SetAll([], [a, b]) == SetAll([a], [a, b][1..]);
    TupleDecodes(EncodeTuple([a, b]), 0, [a, b]);
  }

  // ----- the code -----

  method AppendLe(out: seq<Byte>, n: nat, k: nat) returns (r: seq<Byte>)
    ensures r == out + Le(n, k)
  {
    r := out;
    var i, rest := 0, n;
    while i < k
      invariant i <= k && r + Le(rest, k - i) == out + Le(n, k)
    {
      LeStep(rest, k - i);
      r := r + [rest % 256];
      rest := rest / 256;
      i := i + 1;
    }
  }

  method AppendColumn(out: seq<Byte>, c: Column) returns (r: seq<Byte>)
    requires |c.name| < TWO32 && Storable(c.value)
    ensures r == out + EncodeColumn(c)
  {
    r := AppendLe(out, |c.name|, 4);
    r := r + c.name;
    r := r + Encode(c.value);
  }

  method TupleToBytes(t: Tuple) returns (out: seq<Byte>)
    requires TupleStorable(t)
    ensures out == EncodeTuple(t)
  {
    out := AppendLe([], |t|, 4);
    out := AppendColumns(out, t);
  }

  method AppendColumns(start: seq<Byte>, t: Tuple) returns (out: seq<Byte>)
    requires TupleStorable(t)
    ensures out == start + EncodeColumns(t)
  {
    hide EncodeColumn, EncodeColumns, Storable;
    out := start;
    var i := 0;
    assert t[0..] == t;
    while i < |t|
      invariant i <= |t| && out + EncodeColumns(t[i..]) == start + EncodeColumns(t)
    {
      ColumnsFrom(out, t, i);
      out := AppendColumn(out, t[i]);
      i := i + 1;
    }
    assert EncodeColumns(t[i..]) == [] by { NoColumns(t[i..]); }
  }

  lemma NoColumns(t: Tuple)
    requires t == []
    ensures EncodeColumns(t) == []
  {
  }

  lemma ColumnsFrom(out: seq<Byte>, t: Tuple, i: nat)
    requires TupleStorable(t) && i < |t|
    ensures out + EncodeColumns(t[i..]) == (out + EncodeColumn(t[i])) + EncodeColumns(t[i + 1..])
  {
    assert t[i..][1..] == t[i + 1..];
  }

  /** Nothing if a value is malformed; `off` is not returned because loadNode skips by the length prefix. */
  method TupleFromBytes(data: seq<Byte>, start: nat) returns (r: Option<Tuple>)
    ensures r == DecodeTuple(data, start)
  {
    hide Decode;
    if start + 4 > |data| {
      return Some([]);
    }
    var count := FromLe(data[start..start + 4]);
    var t: Tuple := [];
    var off: nat, i: nat := start + 4, 0;
    while i < count
      invariant i <= count && DecodeColumns(data, off, count - i, t) == DecodeTuple(data, start)
    {
      if off + 4 > |data| {
        return Some(t);
      }
      var nlen := FromLe(data[off..off + 4]);
      off := off + 4;
      if off + nlen > |data| {
        return Some(t);
      }
      var name := data[off..off + nlen];
      var v := Decode(data, off + nlen);
      if v.None? {
        return None;
      }
      off := v.value.next;
      t := SetColumn(t, name, v.value.item);
      i := i + 1;
    }
    r := Some(t);
  }
}
