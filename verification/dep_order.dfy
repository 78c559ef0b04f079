/** The order in which new resource blocks are written:
    `sorted(deps, key=lambda x: x[0].lower())` (scripts/update_formulas.py:191).
    Python compares strings by code point, lexicographically, and its sort is
    stable; the model is an insertion sort that keeps both promises. */
module DepOrder {
  import opened Text
  import opened Deps

  /** Python's `a < b` on strings. */
  predicate StrLess(a: string, b: string)
    decreases |a|
  {
    if |a| == 0 then |b| > 0
    else if |b| == 0 then false
    else if a[0] == b[0] then StrLess(a[1..], b[1..])
    else a[0] < b[0]
  }

  lemma {:induction false} StrLessAsymmetric(a: string, b: string)
    requires StrLess(a, b)
    ensures !StrLess(b, a)
    decreases |a|
  {
    if |a| > 0 && |b| > 0 && a[0] == b[0] {
      StrLessAsymmetric(a[1..], b[1..]);
    }
  }

  lemma {:induction false} StrLessTotal(a: string, b: string)
    requires !StrLess(a, b) && !StrLess(b, a)
    ensures a == b
    decreases |a|
  {
    if |a| > 0 && |b| > 0 {
      StrLessTotal(a[1..], b[1..]);
      assert a == [a[0]] + a[1..] && b == [b[0]] + b[1..];
    }
  }

  lemma {:induction false} StrLessTransitive(a: string, b: string, c: string)
    requires StrLess(a, b) && StrLess(b, c)
    ensures StrLess(a, c)
    decreases |a|
  {
    if |a| > 0 && a[0] == b[0] && b[0] == c[0] {
      StrLessTransitive(a[1..], b[1..], c[1..]);
    }
  }

  /** The sort key: the dependency's name, lower-cased. */
  function Key(d: Dep): string {
    Lower(d.name)
  }

  /** Neighbours are in order; with `StrLess` a strict total order this makes
      every pair in order (`SortedPairs`). */
  predicate Sorted(ds: seq<Dep>) {
    forall i :: 0 < i < |ds| ==> !StrLess(Key(ds[i]), Key(ds[i - 1]))
  }

  lemma {:induction false} SortedPairs(ds: seq<Dep>, i: nat, j: nat)
    requires Sorted(ds) && i < j < |ds|
    ensures !StrLess(Key(ds[j]), Key(ds[i]))
    decreases j - i
  {
    if i + 1 < j {
      SortedPairs(ds, i, j - 1);
      StrNotLessTransitive(Key(ds[i]), Key(ds[j - 1]), Key(ds[j]));
    }
  }

  /** `a <= b` and `b <= c` give `a <= c`. */
  lemma {:induction false} StrNotLessTransitive(a: string, b: string, c: string)
    requires !StrLess(b, a) && !StrLess(c, b)
    ensures !StrLess(c, a)
    decreases |a|
  {
    if |a| > 0 && |b| > 0 && |c| > 0 && a[0] == b[0] && b[0] == c[0] {
      StrNotLessTransitive(a[1..], b[1..], c[1..]);
    }
  }

  /** The elements of `ds` whose key is `k`, in order. */
  function WithKey(ds: seq<Dep>, k: string): (r: seq<Dep>)
    ensures forall d :: d in r ==> d in ds && Key(d) == k
  {
    if |ds| == 0 then []
    else if Key(ds[0]) == k then [ds[0]] + WithKey(ds[1..], k)
    else WithKey(ds[1..], k)
  }

  /** `d` placed before the first element whose key is not smaller. */
  function Insert(d: Dep, ds: seq<Dep>): (r: seq<Dep>)
    ensures |r| == |ds| + 1
    ensures multiset(r) == multiset(ds) + multiset{d}
  {
    if |ds| == 0 || !StrLess(Key(ds[0]), Key(d)) then [d] + ds
    else
      assert ds == [ds[0]] + ds[1..];
      [ds[0]] + Insert(d, ds[1..])
  }

  lemma {:induction false} InsertSorted(d: Dep, ds: seq<Dep>)
    requires Sorted(ds)
    ensures Sorted(Insert(d, ds))
    ensures |ds| > 0 ==> Insert(d, ds)[0] == d || Insert(d, ds)[0] == ds[0]
    decreases |ds|
  {
    if |ds| > 0 && StrLess(Key(ds[0]), Key(d)) {
      var rest := Insert(d, ds[1..]);
      InsertSorted(d, ds[1..]);
      if |rest| > 0 && rest[0] == d {
        StrLessAsymmetric(Key(ds[0]), Key(d));
      }
    }
  }

  /** Inserting `d` adds it in front of the elements sharing its key. */
  lemma {:induction false} InsertStable(d: Dep, ds: seq<Dep>, k: string)
    requires Sorted(ds)
    ensures WithKey(Insert(d, ds), k) == if Key(d) == k then [d] + WithKey(ds, k) else WithKey(ds, k)
    decreases |ds|
  {
    if |ds| == 0 || !StrLess(Key(ds[0]), Key(d)) {
      assert ([d] + ds)[1..] == ds;
    } else {
      var rest := Insert(d, ds[1..]);
      assert ([ds[0]] + rest)[1..] == rest;
      InsertStable(d, ds[1..], k);
      if Key(ds[0]) == k && Key(d) == k {
        assert !StrLess(k, k) by {
          StrLessIrreflexive(k);
        }
      }
    }
  }

  lemma {:induction false} StrLessIrreflexive(a: string)
    ensures !StrLess(a, a)
    decreases |a|
  {
    if |a| > 0 {
      StrLessIrreflexive(a[1..]);
    }
  }

  /** `sorted(deps, key=lambda x: x[0].lower())` */
  function SortDeps(ds: seq<Dep>): (r: seq<Dep>)
    ensures |r| == |ds| && multiset(r) == multiset(ds)
  {
    if |ds| == 0 then []
    else
      assert ds == [ds[0]] + ds[1..];
      Insert(ds[0], SortDeps(ds[1..]))
  }

  /** The sort orders by key and is stable: for every key, the dependencies
      with that key keep their order. */
  lemma {:induction false} SortDepsSortedStable(ds: seq<Dep>, k: string)
    ensures Sorted(SortDeps(ds))
    ensures WithKey(SortDeps(ds), k) == WithKey(ds, k)
    decreases |ds|
  {
    if |ds| > 0 {
      SortDepsSortedStable(ds[1..], k);
      InsertSorted(ds[0], SortDeps(ds[1..]));
      InsertStable(ds[0], SortDeps(ds[1..]), k);
    }
  }
}
