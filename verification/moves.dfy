/**
 * Row reordering and deletion in a table (`moveFile`, `moveAuthor` and the
 * delete button's splice in main.go).  Both move functions run one algorithm
 * over their own row type, so it is written once, generic in the row type.
 *
 * `Moved` and `Deleted` are the specifications; `Move` is the algorithm as the
 * program runs it, shifting a backing array in place.
 */
module Moves {

  /** The (src, dst) pairs a move accepts over n rows; any other pair makes an index or slice expression panic. */
  predicate MoveAllowed(n: int, src: int, dst: int)
  {
    && 0 <= src < n
    && ((src == 0 && dst == -1) || (src == n - 1 && dst == n) || 0 <= dst < n)
  }

  /** `s` without its element at `i`. */
  function Remove<T>(s: seq<T>, i: int): (r: seq<T>)
    requires 0 <= i < |s|
    ensures |r| == |s| - 1
  {
    s[..i] + s[i + 1..]
  }

  /** `s` with `x` inserted so that it ends up at index `i`. */
  function Insert<T>(s: seq<T>, i: int, x: T): (r: seq<T>)
    requires 0 <= i <= |s|
    ensures |r| == |s| + 1
  {
    s[..i] + [x] + s[i..]
  }

  /**
   * The result of moving row `src` towards `dst`: moving the first row up
   * (dst == -1) rotates it to the end, moving the last row down (dst == n)
   * rotates it to the front, and any other move takes the row out and puts it
   * back at `dst`.
   */
  function Moved<T>(s: seq<T>, src: int, dst: int): seq<T>
    requires MoveAllowed(|s|, src, dst)
  {
    if src == 0 && dst == -1 then s[1..] + [s[0]]
    else if src == |s| - 1 && dst == |s| then [s[src]] + s[..src]
    else Insert(Remove(s, src), dst, s[src])
  }

  /** The index at which the moved row ends up. */
  function Landing(n: int, src: int, dst: int): int
  {
    if src == 0 && dst == -1 then n - 1
    else if src == n - 1 && dst == n then 0
    else dst
  }

  /** The delete button's splice: a negative index (no selection) changes nothing. */
  function Deleted<T>(s: seq<T>, row: int): seq<T>
    requires row < |s|
  {
    if row < 0 then s else Remove(s, row)
  }

  // ---------------------------------------------------------------------------
  // Properties of the specification

  /**
   * Every move, the two wrap-arounds included, is one relocation: the moved
   * row lands at `Landing`, and taking it out again leaves exactly the other
   * rows in their original order.
   */
  lemma MoveIsRelocation<T>(s: seq<T>, src: int, dst: int)
    requires MoveAllowed(|s|, src, dst)
    ensures 0 <= Landing(|s|, src, dst) < |s|
    ensures Moved(s, src, dst) == Insert(Remove(s, src), Landing(|s|, src, dst), s[src])
    ensures Moved(s, src, dst)[Landing(|s|, src, dst)] == s[src]
    ensures Remove(Moved(s, src, dst), Landing(|s|, src, dst)) == Remove(s, src)
  {
    var f := Landing(|s|, src, dst);
    var rest := Remove(s, src);
    var r := Insert(rest, f, s[src]);
    if src == 0 && dst == -1 {
      assert rest == s[1..];
      assert r == s[1..] + [s[0]];
    } else if src == |s| - 1 && dst == |s| {
      assert rest == s[..src];
      assert r == [s[src]] + s[..src];
    }
    assert r[..f] == rest[..f];
    assert r[f + 1..] == rest[f..];
    assert rest == rest[..f] + rest[f..];
  }

  lemma RemoveMultiset<T>(s: seq<T>, i: int)
    requires 0 <= i < |s|
    ensures multiset(Remove(s, i)) + multiset{s[i]} == multiset(s)
  {
    assert s == s[..i] + [s[i]] + s[i + 1..];
  }

  lemma InsertMultiset<T>(s: seq<T>, i: int, x: T)
    requires 0 <= i <= |s|
    ensures multiset(Insert(s, i, x)) == multiset(s) + multiset{x}
  {
    assert s == s[..i] + s[i..];
  }

  /** A move never loses, duplicates or invents a row: the result is a permutation of the input. */
  lemma MovePermutes<T>(s: seq<T>, src: int, dst: int)
    requires MoveAllowed(|s|, src, dst)
    ensures |Moved(s, src, dst)| == |s|
    ensures multiset(Moved(s, src, dst)) == multiset(s)
  {
    MoveIsRelocation(s, src, dst);
    RemoveMultiset(s, src);
    InsertMultiset(Remove(s, src), Landing(|s|, src, dst), s[src]);
  }

  /** Moving a row to a neighbouring index inside the table swaps the two rows and leaves every other index alone. */
  lemma MoveToNeighbourSwaps<T>(s: seq<T>, src: int, dst: int)
    requires 0 <= src < |s| && 0 <= dst < |s|
    requires dst == src - 1 || dst == src + 1
    ensures MoveAllowed(|s|, src, dst)
    ensures |Moved(s, src, dst)| == |s|
    ensures Moved(s, src, dst)[dst] == s[src]
    ensures Moved(s, src, dst)[src] == s[dst]
    ensures forall k :: 0 <= k < |s| && k != src && k != dst ==> Moved(s, src, dst)[k] == s[k]
  {
    var r := Moved(s, src, dst);
    var rest := Remove(s, src);
    assert r == rest[..dst] + [s[src]] + rest[dst..];
    forall k | 0 <= k < |s| && k != src && k != dst
      ensures r[k] == s[k]
    {
      if k < dst {
        assert r[k] == rest[k];
      } else {
        assert r[k] == rest[k - 1];
      }
    }
  }

  /** Deleting row `row` shortens the table by one and shifts exactly the later rows up; the rest keep their order. */
  lemma DeleteRemovesOne<T>(s: seq<T>, row: int)
    requires 0 <= row < |s|
    ensures |Deleted(s, row)| == |s| - 1
    ensures forall i :: 0 <= i < |s| - 1 ==> Deleted(s, row)[i] == if i < row then s[i] else s[i + 1]
    ensures multiset(Deleted(s, row)) + multiset{s[row]} == multiset(s)
  {
    RemoveMultiset(s, row);
  }

  // ---------------------------------------------------------------------------
  // The algorithm

  /** `copy(a[from:], a[from+1:])`: every slot from `from` on takes its right neighbour's value; the last keeps its own. */
  method ShiftTowardFront<T>(a: array<T>, from: int)
    requires 0 <= from < a.Length
    modifies a
    ensures forall k :: 0 <= k < a.Length ==>
      a[k] == if from <= k < a.Length - 1 then old(a[k + 1]) else old(a[k])
  {
    var i := from;
    while i < a.Length - 1
      invariant from <= i <= a.Length - 1
      invariant forall k :: 0 <= k < a.Length ==>
        a[k] == if from <= k < i then old(a[k + 1]) else old(a[k])
    {
      a[i] := a[i + 1];
      i := i + 1;
    }
  }

  /** `copy(a[at+1:], a[at:])`: every slot after `at` takes its left neighbour's value (copied back to front, as `copy` handles overlap). */
  method ShiftTowardBack<T>(a: array<T>, at: int)
    requires 0 <= at < a.Length
    modifies a
    ensures forall k :: 0 <= k < a.Length ==>
      a[k] == if at < k then old(a[k - 1]) else old(a[k])
  {
    var i := a.Length - 1;
    while i > at
      invariant at <= i <= a.Length - 1
      invariant forall k :: 0 <= k < a.Length ==>
        a[k] == if i < k then old(a[k - 1]) else old(a[k])
    {
      a[i] := a[i - 1];
      i := i - 1;
    }
  }

  /**
   * `moveFile` / `moveAuthor`: the two wrap-arounds build a new slice; any
   * other move shifts the backing array left over `src`, shifts it right
   * from `dst`, and stores the moved row at `dst`.
   */
  method Move<T>(s: seq<T>, src: int, dst: int) returns (r: seq<T>)
    requires MoveAllowed(|s|, src, dst)
    ensures r == Moved(s, src, dst)
  {
    var value := s[src];
    if src == 0 && dst == -1 {
      r := s[src + 1..] + [value];
      return;
    }
    if src == |s| - 1 && dst == |s| {
      r := [value] + s[..src];
      return;
    }
    var n := |s|;
    var a := new T[n](i requires 0 <= i < n => s[i]);
    ghost var rest := Remove(s, src);
    ShiftTowardFront(a, src);
    assert forall k :: 0 <= k < n - 1 ==> a[k] == rest[k];
    // The code now drops the last slot and appends an empty row there; that
    // slot is always overwritten below (by the shift, or by the moved row
    // when dst is the last index), so the placeholder is not modelled.
    ghost var shifted := a[..];
    ShiftTowardBack(a, dst);
    a[dst] := value;
    r := a[..];
    forall k | 0 <= k < n
      ensures r[k] == Insert(rest, dst, value)[k]
    {
      if k > dst {
        assert r[k] == shifted[k - 1] == rest[k - 1];
      } else if k < dst {
        assert r[k] == shifted[k] == rest[k];
      }
    }
  }
}
