/** The slot of an index in a ring: `index & (capacity - 1)`. */
module SlotMask {
  import opened Division

  /** Bitwise and of two non-negative numbers. */
  function And(a: nat, b: nat): nat {
    if a == 0 || b == 0 then 0 else 2 * And(a / 2, b / 2) + (a % 2) * (b % 2)
  }

  function Slot(index: nat, capacity: nat): (slot: nat)
    requires capacity > 0
    ensures slot < capacity
  {
    AndBound(index, capacity - 1);
    And(index, capacity - 1)
  }

  lemma {:induction false} AndBound(a: nat, b: nat)
    ensures And(a, b) <= b
  {
    if a != 0 && b != 0 {
      AndBound(a / 2, b / 2);
      assert (a % 2) * (b % 2) <= b % 2;
    }
  }

  /** The `i`-th binary digit. */
  function Digit(a: nat, i: nat): nat {
    if i == 0 then a % 2 else Digit(a / 2, i - 1)
  }

  lemma LastDigit(x: nat, y: nat, n: nat)
    requires x < 2 && y < 2
    ensures (2 * n + x * y) / 2 == n && ((2 * n + x * y) % 2 == 1 <==> x == 1 && y == 1)
  {
    if x == 1 {
      assert x * y == y;
    } else {
      assert x * y == 0;
    }
  }

  /** Digit by digit, the mask keeps what both have. */
  lemma {:induction false} AndDigits(a: nat, b: nat, i: nat)
    ensures Digit(And(a, b), i) == 1 <==> Digit(a, i) == 1 && Digit(b, i) == 1
    decreases i
  {
    if a == 0 || b == 0 {
      ZeroDigits(i);
    } else {
      LastDigit(a % 2, b % 2, And(a / 2, b / 2));
      if i > 0 {
        AndDigits(a / 2, b / 2, i - 1);
      }
    }
  }

  lemma {:induction false} ZeroDigits(i: nat)
    ensures Digit(0, i) == 0
  {
    if i > 0 {
      ZeroDigits(i - 1);
    }
  }

  predicate IsPowerOfTwo(c: nat) {
    c > 0 && (c == 1 || (c % 2 == 0 && IsPowerOfTwo(c / 2)))
  }

  lemma DoubleProduct(q: int, h: int)
    ensures q * (2 * h) == 2 * (q * h)
  {
  }

  lemma RemainderByDouble(i: nat, h: nat)
    requires h > 0
    ensures i % (2 * h) == 2 * (i / 2 % h) + i % 2
  {
    var m := i / 2;
    var q, r := m / h, m % h;
    Quotient(m, h);
    DoubleProduct(q, h);
    DivModUnique(i, 2 * h, q, 2 * r + i % 2);
  }

  /** For a power of two the mask is the remainder. */
  lemma {:induction false} MaskIsRemainder(i: nat, c: nat)
    requires IsPowerOfTwo(c)
    ensures And(i, c - 1) == i % c
    decreases c
  {
    if c > 1 {
      var h := c / 2;
      RemainderByDouble(i, h);
      if i > 0 {
        MaskIsRemainder(i / 2, h);
        assert (c - 1) / 2 == h - 1 && (c - 1) % 2 == 1;
        assert And(i, c - 1) == 2 * And(i / 2, h - 1) + i % 2;
      }
    }
  }

  /** Any `c` indices in a row have slots of their own. */
  ghost predicate SlotsDistinct(c: nat)
    requires c > 0
  {
    forall i: nat, j: nat | i < j < i + c :: Slot(i, c) != Slot(j, c)
  }

  /** For any other capacity, some power of two below it shares its slot with index 0. */
  lemma {:induction false} MaskCollides(c: nat) returns (j: nat)
    requires c > 0 && !IsPowerOfTwo(c)
    ensures 0 < j < c && And(j, c - 1) == 0
    decreases c
  {
    if c % 2 == 1 {
      j := 1;
      assert And(1, c - 1) == 2 * And(0, (c - 1) / 2) + 1 * ((c - 1) % 2);
    } else {
      var k := MaskCollides(c / 2);
      j := 2 * k;
      assert (c - 1) / 2 == c / 2 - 1;
      assert And(j, c - 1) == 2 * And(k, c / 2 - 1) + 0 * ((c - 1) % 2);
    }
  }

  /** The ring's slots are usable exactly when the capacity is a power of two. */
  lemma DistinctIffPowerOfTwo(c: nat)
    requires c > 0
    ensures SlotsDistinct(c) <==> IsPowerOfTwo(c)
  {
    if IsPowerOfTwo(c) {
      forall i: nat, j: nat | i < j < i + c
        ensures Slot(i, c) != Slot(j, c)
      {
        MaskIsRemainder(i, c);
        MaskIsRemainder(j, c);
        if i % c == j % c {
          SameRemainder(i, j, c);
        }
      }
    } else {
      var j := MaskCollides(c);
      assert Slot(0, c) == Slot(j, c);
    }
  }
}
