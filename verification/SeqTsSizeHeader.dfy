/** The 20-byte header in front of every unit of a framed stream: size, sequence number, time stamp. */
module SeqTsSizeHeader {
  import opened Words
  import opened ByteCodec

  const HEADER_SIZE: nat := 20

  datatype Header = Header(size: uint64, seqNum: uint32, ts: uint64)

  function Encode(h: Header): (bs: Bytes)
    ensures |bs| == HEADER_SIZE
  {
    BigEndian(h.size, 8) + BigEndian(h.seqNum, 4) + BigEndian(h.ts, 8)
  }

  function Decode(bs: Bytes): Header
    requires |bs| >= HEADER_SIZE
  {
    FieldBounds(bs);
    Header(FromBigEndian(bs[0..8]), FromBigEndian(bs[8..12]), FromBigEndian(bs[12..20]))
  }

  lemma FieldBounds(bs: Bytes)
    requires |bs| >= HEADER_SIZE
    ensures FromBigEndian(bs[0..8]) < TWO_64
    ensures FromBigEndian(bs[8..12]) < TWO_32
    ensures FromBigEndian(bs[12..20]) < TWO_64
  {
    WordSizes();
    FromBigEndianBound(bs[0..8]);
    FromBigEndianBound(bs[8..12]);
    FromBigEndianBound(bs[12..20]);
  }

  /** A header read back from the front of a packet is the header that was written. */
  lemma HeaderRoundTrip(h: Header, payload: Bytes)
    ensures Decode(Encode(h) + payload) == h
  {
    WordSizes();
    BigEndianRoundTrip(h.size, 8);
    BigEndianRoundTrip(h.seqNum, 4);
    BigEndianRoundTrip(h.ts, 8);
    var bs := Encode(h) + payload;
    assert bs[0..8] == BigEndian(h.size, 8);
    assert bs[8..12] == BigEndian(h.seqNum, 4);
    assert bs[12..20] == BigEndian(h.ts, 8);
  }

  /** Every 20 bytes are the encoding of exactly one header. */
  lemma DecodeInverse(bs: Bytes)
    requires |bs| == HEADER_SIZE
    ensures Encode(Decode(bs)) == bs
  {
    BigEndianInverse(bs[0..8]);
    BigEndianInverse(bs[8..12]);
    BigEndianInverse(bs[12..20]);
  }

  /** Size, number and time stamp follow each other, each with its highest byte first. */
  lemma WireFormat(h: Header, i: nat)
    ensures i < 8 ==> Encode(h)[7 - i] == h.size / Pow256(i) % 256
    ensures i < 4 ==> Encode(h)[11 - i] == h.seqNum / Pow256(i) % 256
    ensures i < 8 ==> Encode(h)[19 - i] == h.ts / Pow256(i) % 256
  {
    if i < 8 {
      BigEndianDigits(h.size, 8, i);
      BigEndianDigits(h.ts, 8, i);
    }
    if i < 4 {
      BigEndianDigits(h.seqNum, 4, i);
    }
  }

  /** Only the header at the front matters. */
  lemma DecodeFront(bs: Bytes)
    requires |bs| >= HEADER_SIZE
    ensures Decode(bs) == Decode(bs[..HEADER_SIZE])
  {
    assert bs[..HEADER_SIZE][0..8] == bs[0..8];
    assert bs[..HEADER_SIZE][8..12] == bs[8..12];
    assert bs[..HEADER_SIZE][12..20] == bs[12..20];
  }

  // ---- The header as an object, written and read through a buffer iterator --------------------------

  /** `bs` with `mid` in place of the bytes from `at` on. */
  function Overwrite(bs: Bytes, at: nat, mid: Bytes): (r: Bytes)
    requires at + |mid| <= |bs|
    ensures |r| == |bs| && r[at..at + |mid|] == mid
    ensures forall i | 0 <= i < |bs| && !(at <= i < at + |mid|) :: r[i] == bs[i]
  {
    bs[..at] + mid + bs[at + |mid|..]
  }

  lemma OverwriteOn(bs: Bytes, at: nat, a: Bytes, b: Bytes)
    requires at + |a| + |b| <= |bs|
    ensures Overwrite(Overwrite(bs, at, a), at + |a|, b) == Overwrite(bs, at, a + b)
  {
  }

  class Iterator {
    const data: array<Byte>
    var current: nat

    constructor (data: array<Byte>, start: nat)
      ensures this.data == data && current == start
    {
      this.data, current := data, start;
    }

    /** WriteHtonU32 and WriteHtonU64, for `w` equal to 4 and 8. */
    method WriteHton(v: nat, w: nat)
      requires current + w <= data.Length
      modifies this, data
      ensures data[..] == Overwrite(old(data[..]), old(current), BigEndian(v, w))
      ensures current == old(current) + w
    {
      ghost var bytes := BigEndian(v, w);
      var rest := v;
      assert bytes[..w] == bytes;
      for k := w downto 0
        invariant current == old(current)
        invariant forall i | 0 <= i < data.Length && !(current + k <= i < current + w) :: data[i] == old(data[i])
        invariant bytes[..k] == BigEndian(rest, k)
        invariant forall j | k <= j < w :: data[current + j] == bytes[j]
      {
        assert bytes[k] == bytes[..k + 1][k] == rest % 256;
        assert bytes[..k] == bytes[..k + 1][..k] == BigEndian(rest / 256, k);
        data[current + k] := rest % 256;
        rest := rest / 256;
      }
      current := current + w;
    }

    /** ReadNtohU32 and ReadNtohU64, for `w` equal to 4 and 8. */
    method ReadNtoh(w: nat) returns (v: nat)
      requires current + w <= data.Length
      modifies this
      ensures v == FromBigEndian(data[old(current)..old(current) + w])
      ensures current == old(current) + w
    {
      v := 0;
      for k := 0 to w
        invariant current == old(current)
        invariant v == FromBigEndian(data[current..current + k])
      {
        assert data[current..current + k + 1][..k] == data[current..current + k];
        v := 256 * v + data[current + k];
      }
      current := current + w;
    }
  }

  class HeaderObject {
    var size: uint64
    var seqNum: uint32
    var ts: uint64

    constructor (h: Header)
      ensures View() == h
    {
      size, seqNum, ts := h.size, h.seqNum, h.ts;
    }

    ghost function View(): Header
      reads this
    {
      Header(size, seqNum, ts)
    }

    method Serialize(i: Iterator)
      requires i.current + HEADER_SIZE <= i.data.Length
      modifies i, i.data
      ensures i.data[..] == Overwrite(old(i.data[..]), old(i.current), Encode(View()))
    {
      ghost var was, at := i.data[..], i.current;
      ghost var a, b, c := BigEndian(size, 8), BigEndian(seqNum, 4), BigEndian(ts, 8);
      OverwriteOn(was, at, a, b);
      OverwriteOn(was, at, a + b, c);
      i.WriteHton(size, 8);
      i.WriteHton(seqNum, 4);
      i.WriteHton(ts, 8);
    }

    method Deserialize(i: Iterator)
      requires i.current + HEADER_SIZE <= i.data.Length
      modifies this, i
      ensures View() == Decode(i.data[old(i.current)..])
    {
      ghost var bs := i.data[i.current..];
      FieldBounds(bs);
      assert i.data[i.current..i.current + 8] == bs[0..8];
      assert i.data[i.current + 8..i.current + 12] == bs[8..12];
      assert i.data[i.current + 12..i.current + 20] == bs[12..20];
      size := i.ReadNtoh(8);
      seqNum := i.ReadNtoh(4);
      ts := i.ReadNtoh(8);
    }
  }
}
