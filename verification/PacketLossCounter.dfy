/** PacketLossCounter as an object: a ring of bits packed into bytes. */
module PacketLossCounter {
  import opened Words
  import opened Division
  import opened LossHistory

  function Bit(b: bv8, j: nat): bool
    requires j < 8
  {
    (b >> (7 - j)) & 1 == 1
  }

  lemma SetOneBit(b: bv8, j: nat, i: nat)
    requires j < 8 && i < 8
    ensures Bit(b | (0x80 >> j), i) == (i == j || Bit(b, i))
  {
  }

  lemma ClearOneBit(b: bv8, j: nat, i: nat)
    requires j < 8 && i < 8
    ensures Bit(b & !(0x80 >> j), i) == (i != j && Bit(b, i))
  {
  }

  lemma AllOnes(i: nat)
    requires i < 8
    ensures Bit(0xFF, i)
  {
  }

  lemma FreshBits(bytes: seq<bv8>)
    requires bytes != [] && forall j | 0 <= j < |bytes| :: bytes[j] == 0xFF
    ensures forall j | 0 <= j < 8 * |bytes| :: BitsOf(bytes)[j]
    ensures Follows(BitsOf(bytes), [], 0)
  {
    forall j: nat | j < 8 * |bytes|
      ensures BitsOf(bytes)[j]
    {
      AllOnes(j % 8);
    }
    FreshRingFollows(BitsOf(bytes));
  }

  /** A place in a ring of whole bytes has the same bit position as the number it stands for. */
  lemma BitPosition(x: int, bytes: nat)
    requires bytes > 0
    ensures x % (bytes * 8) % 8 == x % 8
    ensures 0 <= x % (bytes * 8) / 8 < bytes
  {
    var w := bytes * 8;
    Quotient(x, w);
    var q := x / w;
    assert x == x % w + (q * bytes) * 8;
    AddMultiple(x % w, 8, q * bytes);
  }

  function BitOf(bytes: seq<bv8>, place: nat): bool
    requires place < 8 * |bytes|
  {
    Bit(bytes[place / 8], place % 8)
  }

  function BitsOf(bytes: seq<bv8>): (ring: Ring)
    ensures |ring| == 8 * |bytes|
  {
    seq(8 * |bytes|, j requires 0 <= j < 8 * |bytes| => BitOf(bytes, j))
  }

  function WithBit(b: bv8, j: nat, val: bool): bv8
    requires j < 8
  {
    if val then b | (0x80 >> j) else b & !(0x80 >> j)
  }

  lemma WithBitChangesOne(b: bv8, j: nat, val: bool, i: nat)
    requires j < 8 && i < 8
    ensures Bit(WithBit(b, j, val), i) == if i == j then val else Bit(b, i)
  {
    SetOneBit(b, j, i);
    ClearOneBit(b, j, i);
  }

  /** The effect of writing one bit of one byte on every place of the ring. */
  lemma WriteChangesOnePlace(before: seq<bv8>, after: seq<bv8>, byte: nat, bit: nat, val: bool)
    requires byte < |before| && bit < 8
    requires after == before[byte := WithBit(before[byte], bit, val)]
    ensures BitsOf(after) == BitsOf(before)[8 * byte + bit := val]
  {
    forall j: nat | j < 8 * |before|
      ensures BitOf(after, j) == if j == 8 * byte + bit then val else BitOf(before, j)
    {
      if j / 8 == byte {
        WithBitChangesOne(before[byte], bit, val, j % 8);
      }
    }
  }

  class PacketLossCounter {
    var lost: uint32
    var bitMapSize: uint16
    var lastMaxSeqNum: uint32
    var receiveBitMap: array<bv8>
    ghost var history: History

    /** The window in bits. */
    ghost function Window(): nat
      reads this
    {
      bitMapSize * 8
    }

    ghost predicate RingValid()
      reads this
    {
      bitMapSize > 0 && receiveBitMap.Length == bitMapSize
    }

    /** The places of the ring, byte by byte. */
    ghost function Bits(): (ring: Ring)
      requires RingValid()
      reads this, receiveBitMap
      ensures |ring| == Window()
    {
      BitsOf(receiveBitMap[..])
    }

    ghost predicate Valid()
      reads this, receiveBitMap
    {
      && RingValid()
      && lastMaxSeqNum == MaxOf(history)
      && Tracks(lastMaxSeqNum)
    }

    /** The ring and the count agree with the history, with the window ending at `max`. */
    ghost predicate Tracks(max: int)
      requires RingValid()
      reads this, receiveBitMap
    {
      && Follows(Bits(), history, max)
      && lost == CountUnmarked(history, Window(), max - Window())
    }

    /** A window of 0 is let through, but has no place to look at. */
    constructor (winSize: nat)
      requires winSize < 256 && winSize % 8 == 0
      ensures winSize > 0 ==> Valid()
      ensures fresh(receiveBitMap) && history == [] && lost == 0 && Window() == winSize
    {
      lost, lastMaxSeqNum, history := 0, 0, [];
      bitMapSize := winSize / 8;
      receiveBitMap := new bv8[winSize / 8](_ => 0xFF);
      new;
      if winSize > 0 {
        FreshBits(receiveBitMap[..]);
      }
    }

    /**
     The new window starts with every place marked and the count as it was.  Before the first packet that
     is a fresh counter; later on it forgets which numbers of the window are missing.
     */
    method SetBitMapSize(winSize: uint16)
      requires winSize % 8 == 0
      modifies this`bitMapSize, this`receiveBitMap
      ensures fresh(receiveBitMap) && receiveBitMap.Length == bitMapSize && Window() == winSize
      ensures winSize > 0 ==> RingValid() && forall j | 0 <= j < winSize :: Bits()[j]
      ensures winSize > 0 && history == [] && lost == 0 && lastMaxSeqNum == 0 ==> Valid()
    {
      bitMapSize := winSize / 8;
      receiveBitMap := new bv8[bitMapSize](_ => 0xFF);
      if winSize > 0 {
        FreshBits(receiveBitMap[..]);
      }
    }

    /** The count is that of the numbers up to max - window that no arrival marked in time. */
    method GetLost() returns (n: uint32)
      requires Valid()
      ensures n == CountUnmarked(history, Window(), MaxOf(history) - Window())
    {
      n := lost;
    }

    method GetBit(seqNum: uint32) returns (b: bool)
      requires RingValid()
      ensures b == Bits()[seqNum % Window()]
    {
      BitPosition(seqNum, bitMapSize);
      b := (receiveBitMap[(seqNum % (bitMapSize * 8)) / 8] >> (7 - (seqNum % 8))) & 0x01 == 1;
    }

    /** Writes one bit of one byte. */
    method WriteBit(byte: nat, bit: nat, val: bool)
      requires RingValid() && byte < bitMapSize && bit < 8
      modifies receiveBitMap
      ensures RingValid() && Bits() == old(Bits())[8 * byte + bit := val]
    {
      ghost var before := receiveBitMap[..];
      if val {
        receiveBitMap[byte] := receiveBitMap[byte] | (0x80 >> bit);
      } else {
        receiveBitMap[byte] := receiveBitMap[byte] & !(0x80 >> bit);
      }
      WriteChangesOnePlace(before, receiveBitMap[..], byte, bit, val);
    }

    method SetBit(seqNum: uint32, val: bool)
      requires RingValid()
      modifies receiveBitMap
      ensures RingValid() && Bits() == old(Bits())[seqNum % Window() := val]
    {
      BitPosition(seqNum, bitMapSize);
      WriteBit((seqNum % (bitMapSize * 8)) / 8, seqNum % 8, val);
    }

    /** One round of the loop: the number that falls out of the window is counted unless it was marked. */
    method Advance(i: uint32)
      requires RingValid() && MaxOf(history) < i && Tracks(i - 1)
      modifies this`lost, receiveBitMap
      ensures RingValid() && Tracks(i)
    {
      AdvanceFollows(Bits(), history, i);
      CountStep(history, Window(), i - Window());
      var received := GetBit(i);
      if !received {
        lost := lost + 1;
      }
      SetBit(i, false);
    }

    /** The loop does not end for the largest sequence number (see LoopEndsIff). */
    method NotifyReceived(seqNum: uint32)
      requires Valid() && seqNum < 0xFFFF_FFFF
      modifies this, receiveBitMap
      ensures Valid() && receiveBitMap == old(receiveBitMap) && Window() == old(Window())
      ensures history == old(history) + [seqNum]
    {
      var i := lastMaxSeqNum + 1;
      while i <= seqNum
        invariant lastMaxSeqNum < i && (i <= seqNum + 1 || i == lastMaxSeqNum + 1)
        invariant unchanged(this`history, this`bitMapSize, this`receiveBitMap, this`lastMaxSeqNum)
        invariant RingValid() && Tracks(i - 1)
      {
        Advance(i);
        i := i + 1;
      }
      ghost var max := if seqNum > lastMaxSeqNum then seqNum else lastMaxSeqNum;
      MaxGrows(history, seqNum);
      MarkFollows(Bits(), history, seqNum, max);
      SetBit(seqNum, true);
      CountStays(history, Window(), seqNum, max - Window());
      history := history + [seqNum];
      if seqNum > lastMaxSeqNum {
        lastMaxSeqNum := seqNum;
      }
    }
  }
}
