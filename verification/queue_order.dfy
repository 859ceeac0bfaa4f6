/**
 * The sequence transformations behind the queue's mutations, on any element
 * type. Index 0 is the head of the queue.
 */
module QueueOrder {

  /** The sequence with the element at `i` taken out. */
  function RemoveAt<T>(s: seq<T>, i: nat): (r: seq<T>)
    requires i < |s|
    ensures |r| == |s| - 1
    ensures forall k | 0 <= k < i :: r[k] == s[k]
    ensures forall k | i <= k < |r| :: r[k] == s[k + 1]
  {
    s[..i] + s[i + 1..]
  }

  /**
   * Rotation of the head to the tail (the reordering `skip` applies): each
   * element moves one place towards the head and the old head becomes last.
   */
  function HeadToTail<T>(s: seq<T>): (r: seq<T>)
    requires |s| > 0
    ensures |r| == |s|
    ensures r[|r| - 1] == s[0]
    ensures forall k | 0 <= k < |s| - 1 :: r[k] == s[k + 1]
  {
    s[1..] + [s[0]]
  }

  /**
   * The element at `from` taken out and put back so that it sits at `to`
   * (the reordering `move` applies once its indices are checked). After the
   * removal the sequence is one shorter, so `to` may be its length: then the
   * element is appended.
   */
  function MoveItem<T>(s: seq<T>, from: nat, to: nat): (r: seq<T>)
    requires from < |s| && to < |s|
    ensures |r| == |s|
    ensures r[to] == s[from]
    ensures RemoveAt(r, to) == RemoveAt(s, from)
  {
    var item := s[from];
    var rest := s[..from] + s[from + 1..];
    if to >= |rest| then
      assert rest + [item] == rest[..to] + [item] + rest[to..];
      rest + [item]
    else
      assert rest == rest[..to] + rest[to..];
      rest[..to] + [item] + rest[to..]
  }

  /** Moving an element to where it already is changes nothing. */
  lemma MoveInPlace<T>(s: seq<T>, i: nat)
    requires i < |s|
    ensures MoveItem(s, i, i) == s
  {
    assert s == s[..i] + [s[i]] + s[i + 1..];
  }

  /** Rotation keeps every element, with its multiplicity. */
  lemma HeadToTailPermutes<T>(s: seq<T>)
    requires |s| > 0
    ensures multiset(HeadToTail(s)) == multiset(s)
  {
    assert s == [s[0]] + s[1..];
  }

  /** A move keeps every element, with its multiplicity. */
  lemma MoveItemPermutes<T>(s: seq<T>, from: nat, to: nat)
    requires from < |s| && to < |s|
    ensures multiset(MoveItem(s, from, to)) == multiset(s)
  {
    var r := MoveItem(s, from, to);
    RemovedOnce(s, from);
    RemovedOnce(r, to);
  }

  lemma RemovedOnce<T>(s: seq<T>, i: nat)
    requires i < |s|
    ensures multiset(s) == multiset(RemoveAt(s, i)) + multiset{s[i]}
  {
    assert s == s[..i] + [s[i]] + s[i + 1..];
  }

  /** Two sequences that agree at `i` and agree once `i` is removed are equal. */
  lemma RemoveAtInjective<T>(a: seq<T>, b: seq<T>, i: nat)
    requires |a| == |b| && i < |a|
    requires a[i] == b[i]
    requires RemoveAt(a, i) == RemoveAt(b, i)
    ensures a == b
  {
    forall k | 0 <= k < |a|
      ensures a[k] == b[k]
    {
      if k < i {
        assert a[k] == RemoveAt(a, i)[k];
      } else if k > i {
        assert a[k] == RemoveAt(a, i)[k - 1];
      }
    }
  }

  /**
   * Where every element ends up after a move: the elements outside the span
   * between the two indices stay put, and those inside shift by one place
   * towards the vacated index.
   */
  lemma MovePositions<T>(s: seq<T>, from: nat, to: nat)
    requires from < |s| && to < |s|
    ensures forall k | 0 <= k < |s| && k < from && k < to :: MoveItem(s, from, to)[k] == s[k]
    ensures forall k | 0 <= k < |s| && k > from && k > to :: MoveItem(s, from, to)[k] == s[k]
    ensures from < to ==> forall k | from <= k < to :: MoveItem(s, from, to)[k] == s[k + 1]
    ensures to < from ==> forall k | to < k <= from :: MoveItem(s, from, to)[k] == s[k - 1]
  {
    var r := MoveItem(s, from, to);
    var rest := RemoveAt(s, from);
    forall k | 0 <= k < |s| && k != to
      ensures r[k] == (if k < to then rest[k] else rest[k - 1])
    {
      if k < to {
        assert r[k] == RemoveAt(r, to)[k];
      } else {
        assert r[k] == RemoveAt(r, to)[k - 1];
      }
    }
  }

  /** Moving an element back from `to` to `from` undoes the move. */
  lemma MoveUndo<T>(s: seq<T>, from: nat, to: nat)
    requires from < |s| && to < |s|
    ensures MoveItem(MoveItem(s, from, to), to, from) == s
  {
    var r := MoveItem(s, from, to);
    var back := MoveItem(r, to, from);
    RemoveAtInjective(back, s, from);
  }

  /** Rotating the head to the tail is the move of index 0 to the last index. */
  lemma HeadToTailIsMove<T>(s: seq<T>)
    requires |s| > 0
    ensures HeadToTail(s) == MoveItem(s, 0, |s| - 1)
  {
    var r := HeadToTail(s);
    assert RemoveAt(r, |s| - 1) == s[1..];
    assert RemoveAt(s, 0) == s[1..];
    RemoveAtInjective(r, MoveItem(s, 0, |s| - 1), |s| - 1);
  }

  /** `k` successive head-to-tail rotations. */
  function Rotations<T>(s: seq<T>, k: nat): (r: seq<T>)
    requires |s| > 0
    ensures |r| == |s|
  {
    if k == 0 then s else HeadToTail(Rotations(s, k - 1))
  }

  /** After `k` rotations the first `k` elements have moved, in order, to the tail. */
  lemma {:induction false} RotationsSplit<T>(s: seq<T>, k: nat)
    requires 0 < |s| && k <= |s|
    ensures Rotations(s, k) == s[k..] + s[..k]
  {
    if k > 0 {
      RotationsSplit(s, k - 1);
      var prev := s[k - 1..] + s[..k - 1];
      assert prev[0] == s[k - 1];
      assert prev[1..] == s[k..] + s[..k - 1];
      assert s[..k] == s[..k - 1] + [s[k - 1]];
    }
  }

  /** As many rotations as there are elements bring the sequence back to its order. */
  lemma FullCycleRestores<T>(s: seq<T>)
    requires |s| > 0
    ensures Rotations(s, |s|) == s
  {
    RotationsSplit(s, |s|);
  }
}
