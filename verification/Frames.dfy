/** A stream as a sequence of frames, and how many whole frames a prefix of it holds. */
module Frames {
  import opened Words

  function Concat(fs: seq<Bytes>): Bytes {
    if fs == [] then [] else fs[0] + Concat(fs[1..])
  }

  lemma {:induction false} ConcatAppend(fs: seq<Bytes>, gs: seq<Bytes>)
    ensures Concat(fs + gs) == Concat(fs) + Concat(gs)
  {
    if fs == [] {
      assert fs + gs == gs;
    } else {
      assert (fs + gs)[1..] == fs[1..] + gs;
      ConcatAppend(fs[1..], gs);
    }
  }

  lemma ConcatOne(f: Bytes)
    ensures Concat([f]) == f
  {
    assert [f][1..] == [];
  }

  lemma ConcatSnoc(fs: seq<Bytes>, f: Bytes)
    ensures Concat(fs + [f]) == Concat(fs) + f
  {
    ConcatAppend(fs, [f]);
    ConcatOne(f);
  }

  lemma ConcatSplit(fs: seq<Bytes>, n: nat)
    requires n <= |fs|
    ensures Concat(fs) == Concat(fs[..n]) + Concat(fs[n..])
  {
    assert fs == fs[..n] + fs[n..];
    ConcatAppend(fs[..n], fs[n..]);
  }

  /** The number of frames that lie whole within the first `len` bytes. */
  function Whole(fs: seq<Bytes>, len: nat): (n: nat)
    ensures n <= |fs|
  {
    if fs == [] || len < |fs[0]| then 0 else 1 + Whole(fs[1..], len - |fs[0]|)
  }

  /** `Whole` is the largest count whose frames fit. */
  lemma {:induction false} WholeIsLargest(fs: seq<Bytes>, len: nat)
    ensures |Concat(fs[..Whole(fs, len)])| <= len
    ensures Whole(fs, len) < |fs| ==> |Concat(fs[..Whole(fs, len) + 1])| > len
    ensures len == |Concat(fs)| && (forall i | 0 <= i < |fs| :: fs[i] != []) ==> Whole(fs, len) == |fs|
  {
    var n := Whole(fs, len);
    if fs == [] {
    } else if n == 0 {
      ConcatOne(fs[0]);
      assert fs[..1] == [fs[0]];
    } else {
      WholeIsLargest(fs[1..], len - |fs[0]|);
      assert fs[..n][1..] == fs[1..][..n - 1];
      if n < |fs| {
        assert fs[..n + 1][1..] == fs[1..][..n];
      }
    }
  }

  /** Reading on from a cut counts on from there. */
  lemma {:induction false} WholeInTwo(fs: seq<Bytes>, len: nat, rest: nat, more: nat)
    requires rest == len - |Concat(fs[..Whole(fs, len)])|
    ensures Whole(fs[Whole(fs, len)..], rest) == 0
    ensures Whole(fs, len + more) == Whole(fs, len) + Whole(fs[Whole(fs, len)..], rest + more)
  {
    var n := Whole(fs, len);
    if n > 0 {
      assert fs[..n][1..] == fs[1..][..n - 1];
      assert fs[n..] == fs[1..][n - 1..];
      WholeInTwo(fs[1..], len - |fs[0]|, rest, more);
    } else {
      assert fs[..0] == [];
      assert fs[0..] == fs;
    }
  }

  /** What lies past the last whole frame is less than the next frame. */
  lemma {:induction false} RestIsShort(fs: seq<Bytes>, len: nat)
    ensures |Concat(fs[..Whole(fs, len)])| <= len
    ensures Whole(fs, len) < |fs| ==> len - |Concat(fs[..Whole(fs, len)])| < |fs[Whole(fs, len)]|
  {
    var n := Whole(fs, len);
    if n > 0 {
      RestIsShort(fs[1..], len - |fs[0]|);
      assert fs[..n][1..] == fs[1..][..n - 1];
    }
  }
}
