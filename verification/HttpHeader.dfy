/** The 22-byte header that stands in for an HTTP message head. */
module HttpHeader {
  import opened Words
  import opened ByteCodec

  const HEADER_SIZE: nat := 22

  datatype ContentType = NotSet | MainObject | EmbeddedObject

  datatype Header = Header(contentType: uint16, contentLength: uint32, clientTs: uint64, serverTs: uint64)

  function Code(t: ContentType): uint16 {
    match t
    case NotSet => 0
    case MainObject => 1
    case EmbeddedObject => 2
  }

  function GetContentType(h: Header): Result<ContentType> {
    if h.contentType == 0 then Ok(NotSet)
    else if h.contentType == 1 then Ok(MainObject)
    else if h.contentType == 2 then Ok(EmbeddedObject)
    else Fatal("Unknown Content-Type")
  }

  function Serialize(h: Header): (bs: Bytes)
    ensures |bs| == HEADER_SIZE
  {
    LittleEndian(h.contentType, 2) + LittleEndian(h.contentLength, 4)
    + LittleEndian(h.clientTs, 8) + LittleEndian(h.serverTs, 8)
  }

  function Deserialize(bs: Bytes): Header
    requires |bs| >= HEADER_SIZE
  {
    FieldBounds(bs);
    Header(FromLittleEndian(bs[0..2]), FromLittleEndian(bs[2..6]),
           FromLittleEndian(bs[6..14]), FromLittleEndian(bs[14..22]))
  }

  lemma FieldBounds(bs: Bytes)
    requires |bs| >= HEADER_SIZE
    ensures FromLittleEndian(bs[0..2]) < 0x1_0000
    ensures FromLittleEndian(bs[2..6]) < TWO_32
    ensures FromLittleEndian(bs[6..14]) < TWO_64
    ensures FromLittleEndian(bs[14..22]) < TWO_64
  {
    WordSizes();
    FromLittleEndianBound(bs[0..2]);
    FromLittleEndianBound(bs[2..6]);
    FromLittleEndianBound(bs[6..14]);
    FromLittleEndianBound(bs[14..22]);
  }

  lemma Fields(a: Bytes, b: Bytes, c: Bytes, d: Bytes, rest: Bytes)
    requires |a| == 2 && |b| == 4 && |c| == 8 && |d| == 8
    ensures var bs := a + b + c + d + rest;
            && bs[0..2] == a && bs[2..6] == b && bs[6..14] == c && bs[14..22] == d
            && bs[..22] == a + b + c + d && bs[22..] == rest
  {
  }

  /** Reading a header back from the front of a packet gives the header that was written. */
  lemma HeaderRoundTrip(h: Header, content: Bytes)
    ensures Deserialize(Serialize(h) + content) == h
    ensures (Serialize(h) + content)[..HEADER_SIZE] == Serialize(h)
    ensures (Serialize(h) + content)[HEADER_SIZE..] == content
  {
    WordSizes();
    LittleEndianRoundTrip(h.contentType, 2);
    LittleEndianRoundTrip(h.contentLength, 4);
    LittleEndianRoundTrip(h.clientTs, 8);
    LittleEndianRoundTrip(h.serverTs, 8);
    Fields(LittleEndian(h.contentType, 2), LittleEndian(h.contentLength, 4),
           LittleEndian(h.clientTs, 8), LittleEndian(h.serverTs, 8), content);
  }

  /** The codes of the content types; no other code is one. */
  lemma CodesOfTypes(h: Header)
    ensures Code(NotSet) == 0 && Code(MainObject) == 1 && Code(EmbeddedObject) == 2
    ensures GetContentType(h).Ok? <==> h.contentType <= 2
    ensures GetContentType(h).Ok? ==> Code(GetContentType(h).value) == h.contentType
  {
  }

  /** Type, length, client time and server time follow each other, each with its lowest byte first. */
  lemma WireFormat(h: Header, i: nat)
    ensures i < 2 ==> Serialize(h)[i] == h.contentType / Pow256(i) % 256
    ensures i < 4 ==> Serialize(h)[2 + i] == h.contentLength / Pow256(i) % 256
    ensures i < 8 ==> Serialize(h)[6 + i] == h.clientTs / Pow256(i) % 256
    ensures i < 8 ==> Serialize(h)[14 + i] == h.serverTs / Pow256(i) % 256
  {
    if i < 2 {
      LittleEndianDigits(h.contentType, 2, i);
    }
    if i < 4 {
      LittleEndianDigits(h.contentLength, 4, i);
    }
    if i < 8 {
      LittleEndianDigits(h.clientTs, 8, i);
      LittleEndianDigits(h.serverTs, 8, i);
    }
  }
}
