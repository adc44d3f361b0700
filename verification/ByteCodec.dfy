/**
 Fixed-width integers as bytes: low byte first, as Buffer::Iterator::WriteU16/32/64 store them,
 and high byte first, as WriteHtonU32/64 store them.
 */
module ByteCodec {
  import opened Words
  import opened Division

  function Pow256(w: nat): (p: nat)
    ensures p > 0
  {
    if w == 0 then 1 else 256 * Pow256(w - 1)
  }

  lemma WordSizes()
    ensures Pow256(2) == 0x1_0000
    ensures Pow256(4) == TWO_32
    ensures Pow256(8) == TWO_64
  {
    assert Pow256(2) == 256 * 256 by {
      assert Pow256(1) == 256;
    }
    assert Pow256(4) == 256 * (256 * Pow256(2));
    assert Pow256(6) == 256 * (256 * Pow256(4));
    assert Pow256(8) == 256 * (256 * Pow256(6));
  }

  function LittleEndian(v: nat, w: nat): (bs: Bytes)
    ensures |bs| == w
  {
    if w == 0 then [] else [v % 256] + LittleEndian(v / 256, w - 1)
  }

  function FromLittleEndian(bs: Bytes): nat {
    if bs == [] then 0 else bs[0] + 256 * FromLittleEndian(bs[1..])
  }

  function BigEndian(v: nat, w: nat): (bs: Bytes)
    ensures |bs| == w
  {
    if w == 0 then [] else BigEndian(v / 256, w - 1) + [v % 256]
  }

  function FromBigEndian(bs: Bytes): nat {
    if bs == [] then 0 else 256 * FromBigEndian(bs[..|bs| - 1]) + bs[|bs| - 1]
  }

  lemma {:induction false} LittleEndianRoundTrip(v: nat, w: nat)
    requires v < Pow256(w)
    ensures FromLittleEndian(LittleEndian(v, w)) == v
  {
    if w > 0 {
      LittleEndianRoundTrip(v / 256, w - 1);
      assert LittleEndian(v, w)[1..] == LittleEndian(v / 256, w - 1);
    }
  }

  lemma {:induction false} BigEndianRoundTrip(v: nat, w: nat)
    requires v < Pow256(w)
    ensures FromBigEndian(BigEndian(v, w)) == v
  {
    if w > 0 {
      BigEndianRoundTrip(v / 256, w - 1);
      assert BigEndian(v, w)[..w - 1] == BigEndian(v / 256, w - 1);
    }
  }

  lemma {:induction false} FromLittleEndianBound(bs: Bytes)
    ensures FromLittleEndian(bs) < Pow256(|bs|)
  {
    if bs != [] {
      FromLittleEndianBound(bs[1..]);
    }
  }

  lemma {:induction false} FromBigEndianBound(bs: Bytes)
    ensures FromBigEndian(bs) < Pow256(|bs|)
  {
    if bs != [] {
      FromBigEndianBound(bs[..|bs| - 1]);
    }
  }

  /** Decoding loses nothing either: a byte string is the encoding of what it decodes to. */
  lemma {:induction false} BigEndianInverse(bs: Bytes)
    ensures BigEndian(FromBigEndian(bs), |bs|) == bs
  {
    if bs != [] {
      var front := bs[..|bs| - 1];
      BigEndianInverse(front);
      assert FromBigEndian(bs) / 256 == FromBigEndian(front);
      assert bs == front + [bs[|bs| - 1]];
    }
  }

  /** The `i`-th byte is the `i`-th digit, counted from the lowest or from the highest. */
  lemma {:induction false} LittleEndianDigits(v: nat, w: nat, i: nat)
    requires i < w
    ensures LittleEndian(v, w)[i] == v / Pow256(i) % 256
    decreases w
  {
    if i > 0 {
      LittleEndianDigits(v / 256, w - 1, i - 1);
      assert v / 256 / Pow256(i - 1) == v / Pow256(i) by {
        DivideTwice(v, Pow256(i - 1));
      }
    }
  }

  lemma {:induction false} BigEndianDigits(v: nat, w: nat, i: nat)
    requires i < w
    ensures BigEndian(v, w)[w - 1 - i] == v / Pow256(i) % 256
    decreases w
  {
    if i > 0 {
      BigEndianDigits(v / 256, w - 1, i - 1);
      assert v / 256 / Pow256(i - 1) == v / Pow256(i) by {
        DivideTwice(v, Pow256(i - 1));
      }
    }
  }

  lemma DivideTwice(v: nat, p: nat)
    requires p > 0
    ensures v / 256 / p == v / (256 * p)
  {
    var m := v / 256;
    Quotient(m, p);
    var q, r := m / p, 256 * (m % p) + v % 256;
    assert m == q * p + m % p;
    assert 256 * (q * p) == q * (256 * p);
    assert v == q * (256 * p) + r;
    DivModUnique(v, 256 * p, q, r);
  }
}
