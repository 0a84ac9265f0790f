/** `Array.prototype.filter` and the order-preserving sub-sequence relation
    its result stands in to its input. */
module Seqs {

  /** `a` can be obtained from `b` by deleting elements, keeping the order
      of the rest. */
  ghost predicate IsSubseq<T>(a: seq<T>, b: seq<T>)
    decreases |b|
  {
    if a == [] then true
    else if b == [] then false
    else if a[0] == b[0] then IsSubseq(a[1..], b[1..])
    else IsSubseq(a, b[1..])
  }

  /** `s.filter(p)`: the elements satisfying `p`, each as often as in `s`,
      in their order in `s`. */
  function Filter<T(!new)>(s: seq<T>, p: T -> bool): (r: seq<T>)
    ensures |r| <= |s|
    ensures forall x :: x in r <==> x in s && p(x)
    ensures IsSubseq(r, s)
  {
    if |s| == 0 then []
    else
      assert s == [s[0]] + s[1..];
      var rest := Filter(s[1..], p);
      if p(s[0]) then
        assert ([s[0]] + rest)[1..] == rest;
        [s[0]] + rest
      else
        rest
  }

  /** Each element passing the filter occurs in the result as often as in
      the input; the others do not occur. */
  lemma {:induction false} FilterCounts<T(!new)>(s: seq<T>, p: T -> bool)
    ensures forall x :: multiset(Filter(s, p))[x] == if p(x) then multiset(s)[x] else 0
  {
    if |s| > 0 {
      FilterCounts(s[1..], p);
      assert s == [s[0]] + s[1..];
      if p(s[0]) {
        assert Filter(s, p) == [s[0]] + Filter(s[1..], p);
      }
    }
  }

  /** A filter that every element passes leaves the sequence as it was. */
  lemma {:induction false} FilterKeepsAll<T(!new)>(s: seq<T>, p: T -> bool)
    requires forall x :: x in s ==> p(x)
    ensures Filter(s, p) == s
  {
    if |s| > 0 {
      FilterKeepsAll(s[1..], p);
      assert s == [s[0]] + s[1..];
    }
  }

  lemma FilterSingle<T(!new)>(x: T, p: T -> bool)
    ensures Filter([x], p) == if p(x) then [x] else []
  {
    assert [x][1..] == [];
  }

  /** Dropping a last element that passes the filter drops the last
      element of the filtered sequence. */
  lemma FilterDropLast<T(!new)>(r: seq<T>, p: T -> bool)
    requires r != [] && p(r[|r| - 1])
    ensures Filter(r, p) != []
    ensures Filter(r[..|r| - 1], p) == Filter(r, p)[..|Filter(r, p)| - 1]
  {
    var last := r[|r| - 1];
    var front := r[..|r| - 1];
    assert r == front + [last];
    FilterAppend(front, [last], p);
    FilterSingle(last, p);
    var kept := Filter(front, p);
    assert Filter(r, p) == kept + [last];
    assert (kept + [last])[..|kept|] == kept;
  }

  lemma {:induction false} FilterAppend<T(!new)>(a: seq<T>, b: seq<T>, p: T -> bool)
    ensures Filter(a + b, p) == Filter(a, p) + Filter(b, p)
    decreases |a|
  {
    if a == [] {
      assert a + b == b;
    } else {
      assert (a + b)[0] == a[0];
      assert (a + b)[1..] == a[1..] + b;
      FilterAppend(a[1..], b, p);
    }
  }
}
