// Generic values and sequence helpers shared by the three utility modules:
// an optional value (JavaScript's `undefined` / `null`), a result that can
// carry a thrown error, and the list operations the TypeScript code uses
// (`Array.prototype.filter`, a `Set` built from a list, a `reduce` that sums).

module Common {

  /** A value that may be missing: `undefined` or `null` in the source. */
  datatype Option<+T> = None | Some(value: T)

  /** The outcome of a call that may throw: `Error(message)` is the thrown `Error`. */
  datatype Result<+T> = Ok(value: T) | Error(message: string)

  /** No element occurs twice. */
  predicate Distinct<T(==)>(xs: seq<T>)
  {
    forall i, j :: 0 <= i < j < |xs| ==> xs[i] != xs[j]
  }

  /** `xs.filter(p)`: the elements satisfying `p`, in their original order. */
  function Filter<T(!new)>(xs: seq<T>, p: T -> bool): (ys: seq<T>)
    ensures |ys| <= |xs|
    ensures forall i :: 0 <= i < |ys| ==> p(ys[i])
    ensures forall x :: x in ys <==> x in xs && p(x)
  {
    if |xs| == 0 then []
    else (if p(xs[0]) then [xs[0]] else []) + Filter(xs[1..], p)
  }

  /** Filtering keeps every element that satisfies `p` as often as it occurs. */
  lemma {:induction false} FilterCount<T(!new)>(xs: seq<T>, p: T -> bool, x: T)
    ensures multiset(Filter(xs, p))[x] == if p(x) then multiset(xs)[x] else 0
  {
    if |xs| > 0 {
      FilterCount(xs[1..], p, x);
      assert xs == [xs[0]] + xs[1..];
    }
  }

  /** Filtering a list extended by one element extends the filtered list by at most that element. */
  lemma {:induction false} FilterSnoc<T(!new)>(xs: seq<T>, x: T, p: T -> bool)
    ensures Filter(xs + [x], p) == Filter(xs, p) + (if p(x) then [x] else [])
  {
    if |xs| == 0 {
      assert xs + [x] == [x];
    } else {
      var ys := xs + [x];
      assert ys[0] == xs[0] && ys[1..] == xs[1..] + [x];
      FilterSnoc(xs[1..], x, p);
      var h := if p(xs[0]) then [xs[0]] else [];
      assert Filter(ys, p) == h + Filter(xs[1..] + [x], p);
      assert Filter(xs, p) == h + Filter(xs[1..], p);
    }
  }

  /** Filtering with a predicate no element satisfies gives the empty list. */
  lemma {:induction false} FilterNone<T(!new)>(xs: seq<T>, p: T -> bool)
    requires forall x :: x in xs ==> !p(x)
    ensures Filter(xs, p) == []
  {
    if |xs| > 0 {
      FilterNone(xs[1..], p);
    }
  }

  /** Filtering with a predicate every element satisfies gives the list back. */
  lemma {:induction false} FilterAll<T(!new)>(xs: seq<T>, p: T -> bool)
    requires forall i :: 0 <= i < |xs| ==> p(xs[i])
    ensures Filter(xs, p) == xs
  {
    if |xs| > 0 {
      FilterAll(xs[1..], p);
    }
  }

  /** Filters whose predicates agree on every element of the list give the same result. */
  lemma {:induction false} FilterExt<T(!new)>(xs: seq<T>, p: T -> bool, q: T -> bool)
    requires forall x :: x in xs ==> p(x) == q(x)
    ensures Filter(xs, p) == Filter(xs, q)
  {
    if |xs| > 0 {
      FilterExt(xs[1..], p, q);
    }
  }

  /** Filtering by `p` and then by `q` is filtering once by their conjunction. */
  lemma {:induction false} FilterFilter<T(!new)>(xs: seq<T>, p: T -> bool, q: T -> bool, pq: T -> bool)
    requires forall x :: pq(x) == (p(x) && q(x))
    ensures Filter(Filter(xs, p), q) == Filter(xs, pq)
  {
    if |xs| > 0 {
      FilterFilter(xs[1..], p, q, pq);
      var rest := Filter(xs[1..], p);
      if p(xs[0]) {
        var ys := [xs[0]] + rest;
        assert ys[0] == xs[0] && ys[1..] == rest;
        assert Filter(xs, p) == ys;
      } else {
        assert Filter(xs, p) == rest;
      }
    }
  }

  /**
   * The distinct elements of `xs` in first-seen order, which is the order in
   * which a JavaScript `Set` (or `Map`) built from `xs` enumerates them.
   */
  function Dedup<T(==,!new)>(xs: seq<T>): (ds: seq<T>)
    ensures Distinct(ds)
    ensures forall x :: x in ds <==> x in xs
    ensures |xs| > 0 ==> |ds| > 0 && ds[0] == xs[0]
  {
    if |xs| == 0 then []
    else
      var d := Dedup(xs[..|xs| - 1]);
      assert forall x :: x in xs[..|xs| - 1] ==> x in xs;
      assert forall x :: x in xs ==> x in xs[..|xs| - 1] || x == xs[|xs| - 1];
      if xs[|xs| - 1] in d then d else d + [xs[|xs| - 1]]
  }

  /** `xs.reduce((sum, x) => sum + f(x), 0)`: a left fold of `f` over `xs`. */
  function SumOf<T>(xs: seq<T>, f: T -> int): int
  {
    if |xs| == 0 then 0 else SumOf(xs[..|xs| - 1], f) + f(xs[|xs| - 1])
  }

  /** The sum of a concatenation is the sum of the parts. */
  lemma {:induction false} SumOfAppend<T>(xs: seq<T>, ys: seq<T>, f: T -> int)
    ensures SumOf(xs + ys, f) == SumOf(xs, f) + SumOf(ys, f)
  {
    if |ys| == 0 {
      assert xs + ys == xs;
    } else {
      SumOfAppend(xs, ys[..|ys| - 1], f);
      assert (xs + ys)[..|xs + ys| - 1] == xs + ys[..|ys| - 1];
    }
  }

  /** Lists whose terms agree position by position have the same sum. */
  lemma {:induction false} SumOfPointwise<A, B>(xs: seq<A>, ys: seq<B>, f: A -> int, g: B -> int)
    requires |xs| == |ys|
    requires forall i :: 0 <= i < |xs| ==> f(xs[i]) == g(ys[i])
    ensures SumOf(xs, f) == SumOf(ys, g)
  {
    if |xs| > 0 {
      SumOfPointwise(xs[..|xs| - 1], ys[..|ys| - 1], f, g);
    }
  }

  /** Taking one element out of a list takes its value out of the sum. */
  lemma SumOfRemove<T>(xs: seq<T>, j: nat, f: T -> int)
    requires j < |xs|
    ensures SumOf(xs, f) == f(xs[j]) + SumOf(xs[..j] + xs[j + 1..], f)
  {
    assert xs == xs[..j] + ([xs[j]] + xs[j + 1..]);
    SumOfAppend(xs[..j], [xs[j]] + xs[j + 1..], f);
    SumOfAppend([xs[j]], xs[j + 1..], f);
    SumOfAppend(xs[..j], xs[j + 1..], f);
    assert SumOf([xs[j]], f) == f(xs[j]) by {
      assert [xs[j]][..0] == [];
    }
  }

  /** A sum does not depend on the order of its terms. */
  lemma {:induction false} SumOfPermutation<T>(xs: seq<T>, ys: seq<T>, f: T -> int)
    requires multiset(xs) == multiset(ys)
    ensures SumOf(xs, f) == SumOf(ys, f)
    decreases |xs|
  {
    if |xs| > 0 {
      var last := xs[|xs| - 1];
      MultisetRemove(xs, |xs| - 1);
      assert xs[..|xs| - 1] + xs[|xs|..] == xs[..|xs| - 1];
      assert last in multiset(ys);
      var j :| 0 <= j < |ys| && ys[j] == last;
      MultisetRemove(ys, j);
      SumOfPermutation(xs[..|xs| - 1], ys[..j] + ys[j + 1..], f);
      SumOfRemove(ys, j, f);
    } else {
      assert |multiset(ys)| == 0;
    }
  }

  /** Taking the element at `j` out of a list takes one occurrence of it out of the multiset. */
  lemma MultisetRemove<T>(xs: seq<T>, j: nat)
    requires j < |xs|
    ensures multiset(xs[..j] + xs[j + 1..]) == multiset(xs) - multiset{xs[j]}
  {
    assert xs == xs[..j] + [xs[j]] + xs[j + 1..];
  }
}
