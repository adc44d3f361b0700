/**
 What a loss count with a window of `w` sequence numbers means, said of the plain list of the numbers
 received and of nothing else.
 */
module LossHistory {
  import opened Words
  import opened Division

  type History = seq<uint32>

  function Front(h: History): History
    requires h != []
  {
    h[..|h| - 1]
  }

  function Last(h: History): uint32
    requires h != []
  {
    h[|h| - 1]
  }

  /** The highest number received, or 0. */
  function MaxOf(h: History): uint32 {
    if h == [] then 0
    else if Last(h) > MaxOf(Front(h)) then Last(h) else MaxOf(Front(h))
  }

  /** `k` is among the last `w` numbers up to `max`. */
  predicate InWindow(k: int, max: int, w: nat) {
    max - w < k <= max
  }

  /** While `k` was in the window, something arrived that has the same place in a ring of `w` places. */
  predicate Marked(h: History, w: nat, k: int)
    requires w > 0
  {
    h != [] && (Marked(Front(h), w, k) || (Last(h) % w == k % w && InWindow(k, MaxOf(h), w)))
  }

  /** How many of 1 ... n were never marked. */
  function CountUnmarked(h: History, w: nat, n: int): (c: nat)
    requires w > 0
    ensures n >= 0 ==> c <= n
    ensures n <= 0 ==> c == 0
    decreases if n < 0 then 0 else n
  {
    if n <= 0 then 0 else CountUnmarked(h, w, n - 1) + if Marked(h, w, n) then 0 else 1
  }

  lemma CountStep(h: History, w: nat, n: int)
    requires w > 0
    ensures CountUnmarked(h, w, n)
         == CountUnmarked(h, w, n - 1) + if n <= 0 || Marked(h, w, n) then 0 else 1
  {
  }

  lemma {:induction false} MaxGrows(h: History, x: uint32)
    ensures MaxOf(h + [x]) == if x > MaxOf(h) then x else MaxOf(h)
    ensures Front(h + [x]) == h && Last(h + [x]) == x
  {
    assert Front(h + [x]) == h;
  }

  lemma {:induction false} MarkedUpToMax(h: History, w: nat, k: int)
    requires w > 0 && Marked(h, w, k)
    ensures k <= MaxOf(h)
  {
    if Marked(Front(h), w, k) {
      MarkedUpToMax(Front(h), w, k);
    }
  }

  /** An arrival changes nothing for the numbers that are outside the window after it. */
  lemma {:induction false} CountStays(h: History, w: nat, x: uint32, n: int)
    requires w > 0 && n <= MaxOf(h + [x]) - w
    ensures CountUnmarked(h + [x], w, n) == CountUnmarked(h, w, n)
    decreases if n < 0 then 0 else n
  {
    if n > 0 {
      CountStays(h, w, x, n - 1);
      MaxGrows(h, x);
    }
  }

  // ---- A ring of bits that follows the history --------------------------------------------------------

  type Ring = seq<bool>

  /** The place for `k` says whether `k` was marked; places of numbers below 1 say so from the start. */
  predicate Agrees(ring: Ring, h: History, k: int)
    requires ring != []
  {
    ring[k % |ring|] == (k <= 0 || Marked(h, |ring|, k))
  }

  ghost predicate Follows(ring: Ring, h: History, max: int) {
    ring != [] && forall k | InWindow(k, max, |ring|) :: Agrees(ring, h, k)
  }

  lemma FreshRingFollows(ring: Ring)
    requires ring != [] && forall j | 0 <= j < |ring| :: ring[j]
    ensures Follows(ring, [], 0)
  {
  }

  lemma DistinctPlaces(k: int, i: int, w: nat)
    requires w > 0 && i - w < k < i
    ensures k % w != i % w
  {
    if k % w == i % w {
      SameRemainder(k, i, w);
    }
  }

  lemma AdvanceAgrees(ring: Ring, h: History, i: int, k: int, place: nat)
    requires Follows(ring, h, i - 1) && MaxOf(h) < i && InWindow(k, i, |ring|) && place == i % |ring|
    ensures Agrees(ring[place := false], h, k)
  {
    if k == i {
      if Marked(h, |ring|, i) {
        MarkedUpToMax(h, |ring|, i);
      }
    } else {
      assert Agrees(ring, h, k);
      DistinctPlaces(k, i, |ring|);
    }
  }

  lemma SamePlace(i: int, w: nat, k: int)
    requires w > 0 && k == i - w
    ensures k % w == i % w
  {
    AddMultiple(i, w, -1);
  }

  lemma AdvanceTells(ring: Ring, h: History, i: int)
    requires Follows(ring, h, i - 1)
    ensures ring[i % |ring|] == (i - |ring| <= 0 || Marked(h, |ring|, i - |ring|))
  {
    SamePlace(i, |ring|, i - |ring|);
    assert Agrees(ring, h, i - |ring|);
  }

  lemma ClearFollows(ring: Ring, h: History, i: int, place: nat)
    requires Follows(ring, h, i - 1) && MaxOf(h) < i && place == i % |ring|
    ensures Follows(ring[place := false], h, i)
  {
    var cleared := ring[place := false];
    forall k | InWindow(k, i, |cleared|)
      ensures Agrees(cleared, h, k)
    {
      AdvanceAgrees(ring, h, i, k, place);
    }
  }

  /** The window moves on to `i`: the place for `i` has told about `i - w`, and is cleared for `i`. */
  lemma AdvanceFollows(ring: Ring, h: History, i: int)
    requires Follows(ring, h, i - 1) && MaxOf(h) < i
    ensures ring[i % |ring|] == (i - |ring| <= 0 || Marked(h, |ring|, i - |ring|))
    ensures Follows(ring[i % |ring| := false], h, i)
  {
    AdvanceTells(ring, h, i);
    ClearFollows(ring, h, i, i % |ring|);
  }

  /** The arrival of `x` is recorded: its place is set, whichever number of the window that stands for. */
  lemma MarkFollows(ring: Ring, h: History, x: uint32, max: int)
    requires Follows(ring, h, max) && max == MaxOf(h + [x])
    ensures Follows(ring[x % |ring| := true], h + [x], max)
  {
    MaxGrows(h, x);
    forall k | InWindow(k, max, |ring|)
      ensures Agrees(ring[x % |ring| := true], h + [x], k)
    {
      assert Agrees(ring, h, k);
    }
  }

  // ---- What the count says about the numbers received -------------------------------------------------

  /** The `j`-th arrival is `k` itself, while `k` is still in the window. */
  predicate InTime(h: History, w: nat, k: int, j: nat) {
    j < |h| && h[j] == k && InWindow(k, MaxOf(h[..j + 1]), w)
  }

  /** The `j`-th arrival is another number that shares `k`'s place, while `k` is in the window. */
  predicate Aliases(h: History, w: nat, k: int, j: nat)
    requires w > 0
  {
    j < |h| && h[j] != k && h[j] % w == k % w && InWindow(k, MaxOf(h[..j + 1]), w)
  }

  lemma {:induction false} MarkedBySome(h: History, w: nat, k: int)
    requires w > 0
    ensures Marked(h, w, k) <==> exists j :: InTime(h, w, k, j) || Aliases(h, w, k, j)
  {
    if h != [] {
      var f, n := Front(h), |h| - 1;
      MarkedBySome(f, w, k);
      assert h[..n + 1] == h;
      forall j | 0 <= j < n
        ensures InTime(f, w, k, j) == InTime(h, w, k, j)
        ensures Aliases(f, w, k, j) == Aliases(h, w, k, j)
      {
        assert f[..j + 1] == h[..j + 1];
      }
      if Last(h) % w == k % w && InWindow(k, MaxOf(h), w) {
        assert InTime(h, w, k, n) || Aliases(h, w, k, n);
      }
      if Marked(f, w, k) {
        var j :| InTime(f, w, k, j) || Aliases(f, w, k, j);
        assert InTime(h, w, k, j) || Aliases(h, w, k, j);
      }
    }
  }

  lemma {:induction false} AtMostMax(h: History, j: nat)
    requires j < |h|
    ensures h[j] <= MaxOf(h)
  {
    if j < |h| - 1 {
      AtMostMax(Front(h), j);
    }
  }

  /**
   A number is counted lost exactly when it did not arrive in time and no stale packet, one already
   outside the window itself, took its place in the ring.
   */
  lemma CountedIff(h: History, w: nat, k: int)
    requires w > 0
    ensures !Marked(h, w, k) <==> (forall j :: !InTime(h, w, k, j)) && (forall j :: !Aliases(h, w, k, j))
    ensures forall j: nat | Aliases(h, w, k, j) :: h[j] + w <= MaxOf(h[..j + 1])
  {
    MarkedBySome(h, w, k);
    forall j: nat | Aliases(h, w, k, j)
      ensures h[j] + w <= MaxOf(h[..j + 1])
    {
      var m := MaxOf(h[..j + 1]);
      AtMostMax(h[..j + 1], j);
      if h[j] + w > m {
        if h[j] <= k {
          SameRemainder(h[j], k, w);
        } else {
          SameRemainder(k, h[j], w);
        }
      }
    }
  }

  /** The numbers among 1 ... n that are counted lost. */
  function Counted(h: History, w: nat, n: int): set<int>
    requires w > 0
  {
    set k | 1 <= k <= n && !Marked(h, w, k)
  }

  lemma {:induction false} CountIsSize(h: History, w: nat, n: int)
    requires w > 0
    ensures |Counted(h, w, n)| == CountUnmarked(h, w, n)
    decreases if n < 0 then 0 else n
  {
    if n > 0 {
      CountIsSize(h, w, n - 1);
      var more := if Marked(h, w, n) then {} else {n};
      assert Counted(h, w, n) == Counted(h, w, n - 1) + more;
    } else {
      assert Counted(h, w, n) == {};
    }
  }

  /** Every arrival of `k` finds the window already past it: by then `k` has been counted. */
  predicate OnlyAfterTheWindow(h: History, w: nat, k: int) {
    forall j | 0 <= j < |h| && h[j] == k :: k + w <= MaxOf(h[..j + 1])
  }

  lemma CountedCameLate(h: History, w: nat, k: int)
    requires w > 0 && !Marked(h, w, k)
    ensures OnlyAfterTheWindow(h, w, k)
  {
    CountedIff(h, w, k);
    forall j | 0 <= j < |h| && h[j] == k
      ensures k + w <= MaxOf(h[..j + 1])
    {
      assert !InTime(h, w, k, j);
      AtMostMax(h[..j + 1], j);
    }
  }

  /**
   Whatever the order of arrival, the count is that of distinct numbers, none of which had arrived when
   the window moved past it.
   */
  lemma NeverOvercounts(h: History, w: nat, n: int)
    requires w > 0
    ensures |Counted(h, w, n)| == CountUnmarked(h, w, n)
    ensures forall k | k in Counted(h, w, n) :: OnlyAfterTheWindow(h, w, k)
  {
    CountIsSize(h, w, n);
    forall k | k in Counted(h, w, n)
      ensures OnlyAfterTheWindow(h, w, k)
    {
      CountedCameLate(h, w, k);
    }
  }

  /** Every packet arrives above the window's lower end. */
  predicate NoStale(h: History, w: nat) {
    h == [] || (NoStale(Front(h), w) && Last(h) + w > MaxOf(Front(h)))
  }

  function CountMissing(h: History, n: int): nat
    decreases if n < 0 then 0 else n
  {
    if n <= 0 then 0 else CountMissing(h, n - 1) + if n in h then 0 else 1
  }

  lemma {:induction false} MarkedIffReceived(h: History, w: nat, k: int)
    requires w > 0 && NoStale(h, w)
    ensures Marked(h, w, k) <==> k in h
  {
    if h != [] {
      var f, x, m := Front(h), Last(h), MaxOf(h);
      MarkedIffReceived(f, w, k);
      assert h == f + [x];
      if x % w == k % w && InWindow(k, m, w) {
        if x <= k {
          SameRemainder(x, k, w);
        } else {
          SameRemainder(k, x, w);
        }
      }
    }
  }

  /** Without stale packets the count is exact: the numbers up to max - w that never arrived. */
  lemma {:induction false} ExactWithoutStale(h: History, w: nat, n: int)
    requires w > 0 && NoStale(h, w)
    ensures CountUnmarked(h, w, n) == CountMissing(h, n)
    decreases if n < 0 then 0 else n
  {
    if n > 0 {
      ExactWithoutStale(h, w, n - 1);
      MarkedIffReceived(h, w, n);
    }
  }

  /** The verdict on each number up to the highest is right: it is marked exactly when it has arrived. */
  ghost predicate AllRight(h: History, w: nat)
    requires w > 0
  {
    forall k | 1 <= k <= MaxOf(h) :: Marked(h, w, k) <==> k in h
  }

  /** The number of the window up to `max` that has the same place as `x`. */
  function AliasOf(x: int, max: int, w: nat): (k: int)
    requires w > 0
    ensures InWindow(k, max, w)
  {
    max - (max - x) % w
  }

  lemma AliasIs(x: int, max: int, w: nat, k: int)
    requires w > 0 && InWindow(k, max, w)
    ensures k % w == x % w <==> k == AliasOf(x, max, w)
  {
    var a := AliasOf(x, max, w);
    Quotient(max - x, w);
    AddMultiple(x, w, (max - x) / w);
    assert a == x + (max - x) / w * w;
    if k % w == x % w {
      if k <= a {
        SameRemainder(k, a, w);
      } else {
        SameRemainder(a, k, w);
      }
    }
  }

  /** What one more arrival changes: only the number it stands for in the window becomes marked. */
  lemma OneMoreMarked(h: History, w: nat, x: uint32, k: int)
    requires w > 0
    ensures var max := MaxOf(h + [x]);
            Marked(h + [x], w, k) <==> Marked(h, w, k) || k == AliasOf(x, max, w)
  {
    MaxGrows(h, x);
    if InWindow(k, MaxOf(h + [x]), w) {
      AliasIs(x, MaxOf(h + [x]), w, k);
    }
  }

  lemma InTimeStaysRight(h: History, w: nat, x: uint32)
    requires w > 0 && AllRight(h, w) && x + w > MaxOf(h)
    ensures AllRight(h + [x], w)
  {
    MaxGrows(h, x);
    var max := MaxOf(h + [x]);
    AliasIs(x, max, w, x);
    forall k | 1 <= k <= max
      ensures Marked(h + [x], w, k) <==> k in h + [x]
    {
      OneMoreMarked(h, w, x, k);
      if k > MaxOf(h) {
        if Marked(h, w, k) {
          MarkedUpToMax(h, w, k);
        }
        if k in h {
          var j :| 0 <= j < |h| && h[j] == k;
          AtMostMax(h, j);
        }
      }
    }
  }

  lemma StaleStaysRightIff(h: History, w: nat, x: uint32)
    requires w > 0 && AllRight(h, w) && x + w <= MaxOf(h)
    ensures AllRight(h + [x], w) <==> (x == 0 || x in h) && AliasOf(x, MaxOf(h), w) in h
  {
    MaxGrows(h, x);
    var max := MaxOf(h);
    var a := AliasOf(x, max, w);
    OneMoreMarked(h, w, x, x);
    OneMoreMarked(h, w, x, a);
    if (x == 0 || x in h) && a in h {
      forall k | 1 <= k <= max
        ensures Marked(h + [x], w, k) <==> k in h + [x]
      {
        OneMoreMarked(h, w, x, k);
      }
    } else if x > 0 && x !in h {
      assert !Marked(h + [x], w, x) && x in h + [x];
    } else {
      assert Marked(h + [x], w, a) && a !in h + [x];
    }
  }

  /**
   While every verdict is right, the next packet keeps it so exactly when it is not older than the window,
   or when it is a duplicate whose place in the ring belongs to a number that has arrived too.
   */
  lemma StaysRightIff(h: History, w: nat, x: uint32)
    requires w > 0 && AllRight(h, w)
    ensures AllRight(h + [x], w) <==>
              x + w > MaxOf(h) || ((x == 0 || x in h) && AliasOf(x, MaxOf(h), w) in h)
  {
    if x + w > MaxOf(h) {
      InTimeStaysRight(h, w, x);
    } else {
      StaleStaysRightIff(h, w, x);
    }
  }

  /** With a window of 8, the late packet 1 hides the loss of 9. */
  lemma StaleHidesLoss()
    ensures var h := [10, 1, 20]; 9 !in h && 9 <= MaxOf(h) - 8 && Marked(h, 8, 9)
  {
    var h: History := [10, 1, 20];
    assert Front(h) == [10, 1] && Front(Front(h)) == [10] && Front(Front(Front(h))) == [];
    assert MaxOf([10]) == 10 && MaxOf([10, 1]) == 10 && MaxOf(h) == 20;
    assert Marked([10, 1], 8, 9);
  }

  // ---- The loop over sequence numbers -------------------------------------------------------------------

  /** The loop variable after `n` rounds; 32-bit unsigned arithmetic wraps. */
  function LoopIndex(lastMax: uint32, n: nat): uint32 {
    (lastMax + 1 + n) % TWO_32
  }

  /** `for (i = lastMax + 1; i <= seqNum; i++)` ends for every sequence number except the largest. */
  lemma LoopEndsIff(lastMax: uint32, seqNum: uint32)
    ensures (exists n :: LoopIndex(lastMax, n) > seqNum) <==> seqNum < 0xFFFF_FFFF
  {
    if seqNum < 0xFFFF_FFFF {
      var n := 2 * TWO_32 - 2 - lastMax;
      assert LoopIndex(lastMax, n) == 0xFFFF_FFFF;
    }
  }
}
