/** Sequence helpers: sorting by an integer key (the ordered results of the
    repository's queries, built one row at a time) and the left fold that
    applies a list of changes in turn. */
module Sequences {

  predicate SortedBy<T>(s: seq<T>, key: T -> int)
  {
    forall i, j :: 0 <= i < j < |s| ==> key(s[i]) <= key(s[j])
  }

  predicate Distinct<T(==)>(s: seq<T>)
  {
    forall i, j :: 0 <= i < j < |s| ==> s[i] != s[j]
  }

  /** The position after every element whose key does not exceed `x`'s. */
  function InsertPos<T>(s: seq<T>, x: T, key: T -> int): (p: nat)
    ensures p <= |s|
    ensures forall i :: 0 <= i < p ==> key(s[i]) <= key(x)
    ensures SortedBy(s, key) ==> forall i :: p <= i < |s| ==> key(x) < key(s[i])
  {
    if s == [] || key(x) < key(s[0]) then 0 else 1 + InsertPos(s[1..], x, key)
  }

  /** `x` inserted into `s` at the position that keeps `s` sorted, after rows of equal key. */
  function Insert<T>(s: seq<T>, x: T, key: T -> int): (r: seq<T>)
    ensures multiset(r) == multiset(s) + multiset{x}
    ensures SortedBy(s, key) ==> SortedBy(r, key)
  {
    var p := InsertPos(s, x, key);
    InsertAtPos(s, x, key, p);
    s[..p] + [x] + s[p..]
  }

  lemma InsertAtPos<T>(s: seq<T>, x: T, key: T -> int, p: nat)
    requires p <= |s|
    requires forall i :: 0 <= i < p ==> key(s[i]) <= key(x)
    requires SortedBy(s, key) ==> forall i :: p <= i < |s| ==> key(x) < key(s[i])
    ensures multiset(s[..p] + [x] + s[p..]) == multiset(s) + multiset{x}
    ensures SortedBy(s, key) ==> SortedBy(s[..p] + [x] + s[p..], key)
  {
    assert s == s[..p] + s[p..];
    if SortedBy(s, key) {
      InsertAtPosSorted(s, x, key, p);
    }
  }

  lemma InsertAtPosSorted<T>(s: seq<T>, x: T, key: T -> int, p: nat)
    requires p <= |s| && SortedBy(s, key)
    requires forall i :: 0 <= i < p ==> key(s[i]) <= key(x)
    requires forall i :: p <= i < |s| ==> key(x) < key(s[i])
    ensures SortedBy(s[..p] + [x] + s[p..], key)
  {
    var r := s[..p] + [x] + s[p..];
    forall i, j | 0 <= i < j < |r| ensures key(r[i]) <= key(r[j]) {
      if j < p {
        assert r[i] == s[i] && r[j] == s[j];
      } else if j == p {
        assert r[i] == s[i] && r[j] == x;
      } else if i < p {
        assert r[i] == s[i] && r[j] == s[j - 1];
      } else if i == p {
        assert r[i] == x && r[j] == s[j - 1];
      } else {
        assert r[i] == s[i - 1] && r[j] == s[j - 1];
      }
    }
  }

  lemma InsertDistinct<T>(s: seq<T>, x: T, key: T -> int)
    requires Distinct(s) && x !in s
    ensures Distinct(Insert(s, x, key))
  {
    var p := InsertPos(s, x, key);
    var r := Insert(s, x, key);
    assert r == s[..p] + [x] + s[p..];
    forall i, j | 0 <= i < j < |r| ensures r[i] != r[j] {
      assert r[i] == (if i < p then s[i] else if i == p then x else s[i - 1]);
      assert r[j] == (if j < p then s[j] else if j == p then x else s[j - 1]);
    }
  }

  /** Applies `step` to each element of `xs` in turn, first to last. */
  function FoldLeft<R, A>(r: R, xs: seq<A>, step: (R, A) -> R): R
    decreases |xs|
  {
    if xs == [] then r else step(FoldLeft(r, xs[..|xs| - 1], step), xs[|xs| - 1])
  }

  lemma {:induction false} FoldLeftAppend<R, A>(r: R, xs: seq<A>, ys: seq<A>, step: (R, A) -> R)
    ensures FoldLeft(r, xs + ys, step) == FoldLeft(FoldLeft(r, xs, step), ys, step)
    decreases |ys|
  {
    if ys == [] {
      assert xs + ys == xs;
    } else {
      var n := |ys| - 1;
      assert (xs + ys)[..|xs + ys| - 1] == xs + ys[..n];
      FoldLeftAppend(r, xs, ys[..n], step);
    }
  }
}
