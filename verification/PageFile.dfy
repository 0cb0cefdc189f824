/** Checksummed pages in the file (readPage and writePage in src/Pager.cpp). */
module PageFiles {
  import opened BitMath
  import opened Versions
  import opened Crc

  const PAGE_SIZE: nat := 4096
  const HEADER_SIZE: nat := 8
  const PAYLOAD_SIZE: nat := 4088

  /** A checksum as it lies in the file: four bytes, low byte first. */
  function WordBytes(w: Word): seq<Byte> {
    BitsBelow256(w[..8]);
    BitsBelow256(w[8..16]);
    BitsBelow256(w[16..24]);
    BitsBelow256(w[24..]);
    [IntOf(w[..8]), IntOf(w[8..16]), IntOf(w[16..24]), IntOf(w[24..])]
  }

  function BytesWord(bs: seq<Byte>): Word
    requires |bs| == 4
  {
    BitsOf(bs[0], 8) + BitsOf(bs[1], 8) + BitsOf(bs[2], 8) + BitsOf(bs[3], 8)
  }

  lemma BitsBelow256(bits: Bits)
    requires |bits| == 8
    ensures IntOf(bits) < 256
  {
    BitsOfIntOf(bits);
    Pow2Of8();
  }

  lemma WordRoundTrip(w: Word)
    ensures BytesWord(WordBytes(w)) == w
  {
    hide IntOf, BitsOf;
    BitsOfIntOf(w[..8]);
    BitsOfIntOf(w[8..16]);
    BitsOfIntOf(w[16..24]);
    BitsOfIntOf(w[24..]);
    assert w == w[..8] + w[8..16] + w[16..24] + w[24..];
  }

  lemma WordInjective(a: seq<Byte>, b: seq<Byte>)
    requires |a| == |b| == 4 && BytesWord(a) == BytesWord(b)
    ensures a == b
  {
    var x, y := BytesWord(a), BytesWord(b);
    forall k | 0 <= k < 4 ensures a[k] == b[k] {
      assert x[8 * k..8 * k + 8] == BitsOf(a[k], 8) && y[8 * k..8 * k + 8] == BitsOf(b[k], 8);
      Pow2Of8();
      IntOfBitsOf(a[k], 8);
      IntOfBitsOf(b[k], 8);
    }
  }

  /** The page the file holds for a payload: checksum, four reserved zero bytes, payload. */
  function Sealed(payload: seq<Byte>): seq<Byte> {
    WordBytes(Crc32(payload)) + [0, 0, 0, 0] + payload
  }

  /** What a reader makes of a raw page. */
  function Unsealed(raw: seq<Byte>): Option<seq<Byte>> {
    if |raw| == PAGE_SIZE && BytesWord(raw[..4]) == Crc32(raw[HEADER_SIZE..]) then Some(raw[HEADER_SIZE..]) else None
  }

  /** A page of 4096 bytes: the checksum's bits low byte first, four zeros, and the payload. */
  lemma SealedLayout(payload: seq<Byte>)
    requires |payload| == 4088
    ensures var raw := Sealed(payload);
            && |raw| == 4096 && BytesWord(raw[..4]) == Crc32(payload)
            && raw[4..8] == [0, 0, 0, 0] && raw[8..] == payload
            && Unsealed(raw) == Some(payload)
  {
    SealRoundTrip(payload);
    WordRoundTrip(Crc32(payload));
    assert Sealed(payload)[..4] == WordBytes(Crc32(payload));
  }

  /** Reading a page back gives what was written. */
  lemma SealRoundTrip(payload: seq<Byte>)
    requires |payload| == PAYLOAD_SIZE
    ensures Unsealed(Sealed(payload)) == Some(payload)
  {
    var raw := Sealed(payload);
    assert raw[..4] == WordBytes(Crc32(payload));
    assert raw[HEADER_SIZE..] == payload;
    WordRoundTrip(Crc32(payload));
  }

  /**
   A written page that was damaged inside one window of up to four payload bytes is rejected, and
   so is one whose checksum bytes were damaged; damage to the reserved bytes goes unnoticed.
   */
  lemma DamageRejected(head: seq<Byte>, m: seq<Byte>, m': seq<Byte>, tail: seq<Byte>, crc': seq<Byte>,
                       reserved: seq<Byte>)
    requires |head + m + tail| == PAYLOAD_SIZE && |m| == |m'| <= 4 && |crc'| == |reserved| == 4
    ensures m != m' ==> Unsealed(WordBytes(Crc32(head + m + tail)) + reserved + (head + m' + tail)) == None
    ensures crc' != WordBytes(Crc32(head + m + tail)) ==> Unsealed(crc' + reserved + (head + m + tail)) == None
    ensures Unsealed(WordBytes(Crc32(head + m + tail)) + reserved + (head + m + tail)) == Some(head + m + tail)
  {
    var sum := WordBytes(Crc32(head + m + tail));
    WordRoundTrip(Crc32(head + m + tail));
    var p, p' := head + m + tail, head + m' + tail;
    if m != m' {
      WindowChangeDetected(head, m, m', tail);
    }
    if BytesWord(crc') == BytesWord(sum) {
      WordInjective(crc', sum);
    }
  }

  class PageFile {
    var pageCount: nat
    var pages: map<nat, seq<Byte>>

    /** Refuses page 0, pages past the end and payloads of the wrong size. */
    method WritePage(id: nat, data: seq<Byte>) returns (ok: bool)
      modifies this`pages
      ensures ok <==> |data| == PAYLOAD_SIZE && 0 < id < pageCount
      ensures pages == if ok then old(pages)[id := Sealed(data)] else old(pages)
    {
      if |data| != PAYLOAD_SIZE || id == 0 || id >= pageCount {
        return false;
      }
      var crc := ComputeCrc32(data);
      pages := pages[id := WordBytes(crc) + [0, 0, 0, 0] + data];
      ok := true;
    }

    method ReadPage(id: nat) returns (r: Option<seq<Byte>>)
      ensures r == if 0 < id < pageCount && id in pages then Unsealed(pages[id]) else None
    {
      if id == 0 || id >= pageCount || id !in pages || |pages[id]| != PAGE_SIZE {
        return None;
      }
      var raw := pages[id];
      var computed := ComputeCrc32(raw[HEADER_SIZE..]);
      if BytesWord(raw[..4]) != computed {
        return None;
      }
      r := Some(raw[HEADER_SIZE..]);
    }
  }
}
