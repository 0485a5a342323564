/**
 Comparators that answer -1, 0 or 1: what makes one an ordering, how one lifts to
 padded sequences, and the stable sort every report uses.
 */
module Ordering {
  import opened Text

  function Sign(v: int): (r: int)
    ensures r == -1 || r == 0 || r == 1
  {
    if v > 0 then 1 else if v < 0 then -1 else 0
  }

  function CompareInts(a: int, b: int): int { Sign(a - b) }

  /** `cmp` orders `dom` totally, up to ties: swapping the arguments flips the sign,
      and "not above" is transitive. */
  ghost predicate PreorderOn<T(!new)>(cmp: (T, T) -> int, dom: T -> bool) {
    && (forall x, y | dom(x) && dom(y) :: cmp(x, y) == -cmp(y, x))
    && (forall x, y, z | dom(x) && dom(y) && dom(z) && cmp(x, y) <= 0 && cmp(y, z) <= 0 :: cmp(x, z) <= 0)
  }

  ghost predicate Preorder<T(!new)>(cmp: (T, T) -> int) { PreorderOn(cmp, (x: T) => true) }

  function Head<T>(xs: seq<T>, pad: T): T { if xs == [] then pad else xs[0] }

  function Tail<T>(xs: seq<T>): seq<T> { if xs == [] then [] else xs[1..] }

  /** Lexicographic comparison of two sequences, the shorter one continued for ever
      with `pad`. */
  function LexCmp<T>(cmp: (T, T) -> int, pad: T, xs: seq<T>, ys: seq<T>): int
    decreases |xs| + |ys|
  {
    if xs == [] && ys == [] then 0
    else
      var c := cmp(Head(xs, pad), Head(ys, pad));
      if c != 0 then c else LexCmp(cmp, pad, Tail(xs), Tail(ys))
  }

  lemma {:induction false} LexFlips<T(!new)>(cmp: (T, T) -> int, pad: T, xs: seq<T>, ys: seq<T>)
    requires Preorder(cmp)
    ensures LexCmp(cmp, pad, xs, ys) == -LexCmp(cmp, pad, ys, xs)
    decreases |xs| + |ys|
  {
    if xs != [] || ys != [] {
      LexFlips(cmp, pad, Tail(xs), Tail(ys));
    }
  }

  lemma {:induction false} LexTransitive<T(!new)>(cmp: (T, T) -> int, pad: T, xs: seq<T>, ys: seq<T>, zs: seq<T>)
    requires Preorder(cmp)
    requires LexCmp(cmp, pad, xs, ys) <= 0 && LexCmp(cmp, pad, ys, zs) <= 0
    ensures LexCmp(cmp, pad, xs, zs) <= 0
    decreases |xs| + |ys| + |zs|
  {
    if xs != [] || ys != [] || zs != [] {
      var x, y, z := Head(xs, pad), Head(ys, pad), Head(zs, pad);
      assert cmp(pad, pad) == 0;
      assert cmp(x, y) <= 0 && cmp(y, z) <= 0;
      assert cmp(x, z) <= 0;
      if cmp(x, z) == 0 {
        assert cmp(z, x) <= 0;
        assert cmp(y, x) <= 0 && cmp(z, y) <= 0;
        LexTransitive(cmp, pad, Tail(xs), Tail(ys), Tail(zs));
      }
    }
  }

  /** A common prefix does not matter. */
  lemma {:induction false} LexCommonPrefix<T(!new)>(cmp: (T, T) -> int, pad: T, p: seq<T>, xs: seq<T>, ys: seq<T>)
    requires Preorder(cmp)
    ensures LexCmp(cmp, pad, p + xs, p + ys) == LexCmp(cmp, pad, xs, ys)
  {
    if p == [] {
      assert p + xs == xs && p + ys == ys;
    } else {
      assert cmp(p[0], p[0]) == 0;
      assert (p + xs)[1..] == p[1..] + xs && (p + ys)[1..] == p[1..] + ys;
      LexCommonPrefix(cmp, pad, p[1..], xs, ys);
    }
  }

  lemma IntsArePreordered()
    ensures Preorder(CompareInts)
  {}

  lemma StringsArePreordered()
    ensures Preorder(CompareStrings)
  {
    forall a, b ensures CompareStrings(a, b) == -CompareStrings(b, a) {
      CompareStringsFlips(a, b);
    }
    forall a, b, c | CompareStrings(a, b) <= 0 && CompareStrings(b, c) <= 0 ensures CompareStrings(a, c) <= 0 {
      CompareStringsTransitive(a, b, c);
    }
  }

  // ------------------------------------------------------------- stable sorting

  ghost predicate Sorted<T>(cmp: (T, T) -> int, xs: seq<T>) {
    forall i, j | 0 <= i < j < |xs| :: cmp(xs[i], xs[j]) <= 0
  }

  function Insert<T>(cmp: (T, T) -> int, x: T, xs: seq<T>): (r: seq<T>)
    ensures multiset(r) == multiset(xs) + multiset{x}
  {
    if xs == [] then [x]
    else if cmp(x, xs[0]) <= 0 then
      [x] + xs
    else
      assert xs == [xs[0]] + xs[1..];
      [xs[0]] + Insert(cmp, x, xs[1..])
  }

  /** `sort.SliceStable` with less(a, b) meaning cmp(a, b) < 0. */
  function StableSort<T>(cmp: (T, T) -> int, xs: seq<T>): (r: seq<T>)
    ensures multiset(r) == multiset(xs)
    ensures |r| == |xs|
  {
    if xs == [] then []
    else
      assert xs == [xs[0]] + xs[1..];
      var r := Insert(cmp, xs[0], StableSort(cmp, xs[1..]));
      assert |multiset(r)| == |multiset(xs)|;
      r
  }

  lemma {:induction false} InsertKeepsSorted<T(!new)>(cmp: (T, T) -> int, x: T, xs: seq<T>)
    requires Preorder(cmp) && Sorted(cmp, xs)
    ensures Sorted(cmp, Insert(cmp, x, xs))
  {
    if xs == [] {
    } else if cmp(x, xs[0]) <= 0 {
    } else {
      var rest := Insert(cmp, x, xs[1..]);
      InsertKeepsSorted(cmp, x, xs[1..]);
      forall j | 0 <= j < |rest| ensures cmp(xs[0], rest[j]) <= 0 {
        assert rest[j] in multiset(rest);
        assert rest[j] == x || rest[j] in xs[1..];
      }
    }
  }

  lemma {:induction false} SortIsSorted<T(!new)>(cmp: (T, T) -> int, xs: seq<T>)
    requires Preorder(cmp)
    ensures Sorted(cmp, StableSort(cmp, xs))
  {
    if xs != [] {
      SortIsSorted(cmp, xs[1..]);
      InsertKeepsSorted(cmp, xs[0], StableSort(cmp, xs[1..]));
    }
  }

  /** The elements that tie with `k`, in order: what a stable sort leaves alone. */
  function Ties<T>(cmp: (T, T) -> int, k: T, xs: seq<T>): seq<T> {
    if xs == [] then []
    else (if cmp(xs[0], k) == 0 then [xs[0]] else []) + Ties(cmp, k, xs[1..])
  }

  lemma TiesCons<T>(cmp: (T, T) -> int, k: T, x: T, xs: seq<T>)
    ensures Ties(cmp, k, [x] + xs) == (if cmp(x, k) == 0 then [x] else []) + Ties(cmp, k, xs)
  {}

  lemma {:induction false} InsertIsStable<T(!new)>(cmp: (T, T) -> int, x: T, xs: seq<T>, k: T)
    requires Preorder(cmp)
    ensures Ties(cmp, k, Insert(cmp, x, xs)) == Ties(cmp, k, [x] + xs)
  {
    hide Ties;
    hide Preorder;
    if xs == [] {
      assert [x] + xs == [x];
    } else if cmp(x, xs[0]) > 0 {
      var y, ys := xs[0], xs[1..];
      assert xs == [y] + ys;
      InsertIsStable(cmp, x, ys, k);
      TiesCons(cmp, k, y, Insert(cmp, x, ys));
      TiesCons(cmp, k, x, ys);
      TiesCons(cmp, k, x, xs);
      TiesCons(cmp, k, y, ys);
      NotBothTie(cmp, x, y, k);
    }
  }

  lemma NotBothTie<T(!new)>(cmp: (T, T) -> int, x: T, y: T, k: T)
    requires Preorder(cmp) && cmp(x, y) > 0
    ensures cmp(x, k) != 0 || cmp(y, k) != 0
  {}

  /** StableSort yields the sorted permutation that keeps every group of ties in its
      original order. */
  lemma {:induction false} StableSortIsStable<T(!new)>(cmp: (T, T) -> int, xs: seq<T>, k: T)
    requires Preorder(cmp)
    ensures Sorted(cmp, StableSort(cmp, xs))
    ensures Ties(cmp, k, StableSort(cmp, xs)) == Ties(cmp, k, xs)
  {
    SortIsSorted(cmp, xs);
    if xs != [] {
      var rest := StableSort(cmp, xs[1..]);
      StableSortIsStable(cmp, xs[1..], k);
      InsertIsStable(cmp, xs[0], rest, k);
      assert ([xs[0]] + rest)[1..] == rest;
    }
  }
}
