/**
  `Array.prototype.sort(comparefn)` for the table's comparator, as one
  concrete algorithm: insertion sort, where `comparefn(x, y) < 0` puts `x`
  before `y`. The comparator is a plain function value and need not be
  consistent; the functions give the outcome on sequences and the methods
  produce the same outcome in place on an array.
 */
module ArraySort {

  /** Inserts `x` in front of the first element the comparator puts it before. */
  function Insert<T>(x: T, t: seq<T>, cmp: (T, T) -> int): (r: seq<T>)
    ensures |r| == |t| + 1
  {
    if t == [] then [x]
    else if cmp(x, t[0]) < 0 then [x] + t
    else [t[0]] + Insert(x, t[1..], cmp)
  }

  /** Insertion sort: each element, last to first, is inserted into the sorted rest. */
  function SortBy<T>(s: seq<T>, cmp: (T, T) -> int): (r: seq<T>)
    ensures |r| == |s|
  {
    if s == [] then []
    else Insert(s[0], SortBy(s[1..], cmp), cmp)
  }

  /** Inserting adds exactly the one element. */
  lemma {:induction false} InsertPermutes<T>(x: T, t: seq<T>, cmp: (T, T) -> int)
    ensures multiset(Insert(x, t, cmp)) == multiset(t) + multiset{x}
  {
    if t != [] && cmp(x, t[0]) >= 0 {
      InsertPermutes(x, t[1..], cmp);
      assert t == [t[0]] + t[1..];
    }
  }

  /** Sorting keeps exactly the elements of the input, each as often, whatever the comparator. */
  lemma {:induction false} SortByPermutes<T>(s: seq<T>, cmp: (T, T) -> int)
    ensures multiset(SortBy(s, cmp)) == multiset(s)
  {
    if s != [] {
      SortByPermutes(s[1..], cmp);
      InsertPermutes(s[0], SortBy(s[1..], cmp), cmp);
      assert s == [s[0]] + s[1..];
    }
  }

  /** `Insert` skips over a prefix none of whose elements the comparator puts `x` before. */
  lemma {:induction false} InsertSkipsPrefix<T>(x: T, t: seq<T>, m: nat, cmp: (T, T) -> int)
    requires m <= |t|
    requires forall k :: 0 <= k < m ==> cmp(x, t[k]) >= 0
    ensures Insert(x, t, cmp) == t[..m] + Insert(x, t[m..], cmp)
  {
    if m > 0 {
      var tail := t[1..];
      assert Insert(x, t, cmp) == [t[0]] + Insert(x, tail, cmp);
      forall k | 0 <= k < m - 1
        ensures cmp(x, tail[k]) >= 0
      {
        assert tail[k] == t[k + 1];
      }
      InsertSkipsPrefix(x, tail, m - 1, cmp);
      assert tail[m - 1..] == t[m..];
      assert t[..m] == [t[0]] + tail[..m - 1];
    }
  }

  /** `x` goes in front when the comparator puts it before the first element, or there is none. */
  lemma InsertAtFront<T>(x: T, t: seq<T>, cmp: (T, T) -> int)
    requires t == [] || cmp(x, t[0]) < 0
    ensures Insert(x, t, cmp) == [x] + t
  {
  }

  /** `x` lands right after the prefix it is not put before, in front of the first element it is. */
  lemma InsertStopsAt<T>(x: T, t: seq<T>, m: nat, cmp: (T, T) -> int)
    requires m <= |t|
    requires forall k :: 0 <= k < m ==> cmp(x, t[k]) >= 0
    requires m == |t| || cmp(x, t[m]) < 0
    ensures Insert(x, t, cmp) == t[..m] + [x] + t[m..]
  {
    InsertSkipsPrefix(x, t, m, cmp);
    InsertAtFront(x, t[m..], cmp);
  }

  /**
    Shifts one slot left every element of `a[i + 1..]`, from the front, that
    the comparator does not put `x` before; `j` is the slot left free.
   */
  method ShiftAhead<T>(a: array<T>, i: nat, x: T, cmp: (T, T) -> int) returns (j: nat)
    requires i < a.Length
    modifies a
    ensures i <= j < a.Length
    ensures forall k :: 0 <= k < i ==> a[k] == old(a[k])
    ensures forall k :: i <= k < j ==> a[k] == old(a[k + 1])
    ensures forall k :: j < k < a.Length ==> a[k] == old(a[k])
    ensures forall k :: i < k <= j ==> cmp(x, old(a[k])) >= 0
    ensures j + 1 == a.Length || cmp(x, old(a[j + 1])) < 0
  {
    j := i;
    while j + 1 < a.Length && cmp(x, a[j + 1]) >= 0
      invariant i <= j < a.Length
      invariant forall k :: 0 <= k < i ==> a[k] == old(a[k])
      invariant forall k :: i <= k < j ==> a[k] == old(a[k + 1])
      invariant forall k :: j < k < a.Length ==> a[k] == old(a[k])
      invariant forall k :: i < k <= j ==> cmp(x, old(a[k])) >= 0
    {
      a[j] := a[j + 1];
      j := j + 1;
    }
  }

  /** Moves `a[i]` into the sorted run `a[i + 1..]`. */
  method InsertIntoSuffix<T>(a: array<T>, i: nat, cmp: (T, T) -> int)
    requires i < a.Length
    modifies a
    ensures a[..i] == old(a[..i])
    ensures a[i..] == Insert(old(a[i]), old(a[i + 1..]), cmp)
  {
    var x := a[i];
    ghost var t := a[i + 1..];
    var j := ShiftAhead(a, i, x, cmp);
    a[j] := x;
    ghost var m := j - i;
    InsertStopsAt(x, t, m, cmp);
    ghost var r := t[..m] + [x] + t[m..];
    forall k | i <= k < a.Length
      ensures a[k] == r[k - i]
    {
      if k < j {
        assert r[k - i] == t[k - i];
      } else if k > j {
        assert r[k - i] == t[k - 1 - i];
      }
    }
    assert |a[i..]| == |r|;
    assert forall k :: 0 <= k < |r| ==> a[i..][k] == a[i + k];
    assert a[i..] == r;
  }

  /** Sorts `a` in place, ending with exactly the outcome `SortBy` describes. */
  method SortInPlace<T>(a: array<T>, cmp: (T, T) -> int)
    modifies a
    ensures a[..] == SortBy(old(a[..]), cmp)
  {
    ghost var s := a[..];
    var i := a.Length;
    while i > 0
      invariant 0 <= i <= a.Length
      invariant a[..i] == s[..i]
      invariant a[i..] == SortBy(s[i..], cmp)
    {
      i := i - 1;
      assert s[i..][1..] == s[i + 1..];
      InsertIntoSuffix(a, i, cmp);
      assert a[..i] == s[..i];
    }
    assert s[0..] == s;
  }
}
