/**
 * `Array.prototype.filter` and `Array.from(new Set(...))` over sequences,
 * each characterised by the positions of the input it keeps.
 */
module Seqs {

  /** `idx` lists strictly increasing positions of `b` that hold `a`'s elements in order. */
  ghost predicate PicksOut<T>(a: seq<T>, b: seq<T>, idx: seq<nat>) {
    && |idx| == |a|
    && (forall i :: 0 <= i < |idx| ==> idx[i] < |b| && a[i] == b[idx[i]])
    && (forall i, j :: 0 <= i < j < |idx| ==> idx[i] < idx[j])
  }

  /** `a` is an order-preserving subsequence of `b`. */
  ghost predicate IsSubsequence<T>(a: seq<T>, b: seq<T>) {
    exists idx :: PicksOut(a, b, idx)
  }

  // -------------------------------------------------------------- filter

  /** `s.filter(p)`. */
  function Filter<T>(p: T -> bool, s: seq<T>): (r: seq<T>)
    ensures |r| <= |s|
    ensures forall i :: 0 <= i < |r| ==> r[i] in s && p(r[i])
    ensures forall i :: 0 <= i < |s| && p(s[i]) ==> s[i] in r
    decreases |s|
  {
    if s == [] then []
    else
      var init := Filter(p, s[..|s| - 1]);
      assert s == s[..|s| - 1] + [s[|s| - 1]];
      if p(s[|s| - 1]) then init + [s[|s| - 1]] else init
  }

  lemma PicksOutExtend<T>(a: seq<T>, b: seq<T>, idx: seq<nat>, y: T)
    requires PicksOut(a, b, idx)
    ensures PicksOut(a, b + [y], idx)
  {
  }

  lemma PicksOutSnoc<T>(a: seq<T>, b: seq<T>, idx: seq<nat>, y: T)
    requires PicksOut(a, b, idx)
    ensures PicksOut(a + [y], b + [y], idx + [|b|])
  {
    var a', b', idx' := a + [y], b + [y], idx + [|b|];
    forall i | 0 <= i < |idx'|
      ensures idx'[i] < |b'| && a'[i] == b'[idx'[i]]
    {
      if i < |idx| {
        assert idx'[i] == idx[i] && a'[i] == a[i] && b'[idx[i]] == b[idx[i]];
      }
    }
  }

  /** The positions of `s` whose element satisfies `p`, in increasing order. */
  ghost function KeptPositions<T>(p: T -> bool, s: seq<T>): seq<nat>
    decreases |s|
  {
    if s == [] then []
    else KeptPositions(p, s[..|s| - 1]) + (if p(s[|s| - 1]) then [|s| - 1] else [])
  }

  lemma {:induction false} KeptPositionsAreSatisfying<T>(p: T -> bool, s: seq<T>)
    ensures forall k :: k in KeptPositions(p, s) <==> 0 <= k < |s| && p(s[k])
    decreases |s|
  {
    if s != [] {
      var n := |s| - 1;
      var init := s[..n];
      KeptPositionsAreSatisfying(p, init);
      assert KeptPositions(p, s) == KeptPositions(p, init) + (if p(s[n]) then [n] else []);
      assert forall k :: 0 <= k < n ==> s[k] == init[k];
    }
  }

  /** The filter keeps exactly the positions whose element satisfies `p`, in order. */
  lemma {:induction false} FilterKeepsExactly<T>(p: T -> bool, s: seq<T>)
    ensures PicksOut(Filter(p, s), s, KeptPositions(p, s))
    ensures forall k :: k in KeptPositions(p, s) <==> 0 <= k < |s| && p(s[k])
    decreases |s|
  {
    KeptPositionsAreSatisfying(p, s);
    if s != [] {
      var n := |s| - 1;
      var init := s[..n];
      assert s == init + [s[n]];
      FilterKeepsExactly(p, init);
      FilterSnoc(p, init, s[n]);
      if p(s[n]) {
        PicksOutSnoc(Filter(p, init), init, KeptPositions(p, init), s[n]);
      } else {
        PicksOutExtend(Filter(p, init), init, KeptPositions(p, init), s[n]);
      }
    }
  }

  lemma FilterIsSubsequence<T>(p: T -> bool, s: seq<T>)
    ensures IsSubsequence(Filter(p, s), s)
  {
    FilterKeepsExactly(p, s);
  }

  lemma {:induction false} FilterAppend<T>(p: T -> bool, a: seq<T>, b: seq<T>)
    ensures Filter(p, a + b) == Filter(p, a) + Filter(p, b)
    decreases |b|
  {
    if b == [] {
      assert a + b == a;
    } else {
      var m := |b| - 1;
      assert (a + b)[..|a + b| - 1] == a + b[..m];
      FilterAppend(p, a, b[..m]);
    }
  }

  /** A predicate that holds of every element removes nothing. */
  lemma {:induction false} FilterAll<T>(p: T -> bool, s: seq<T>)
    requires forall x :: x in s ==> p(x)
    ensures Filter(p, s) == s
    decreases |s|
  {
    if s != [] {
      var n := |s| - 1;
      assert forall x :: x in s[..n] ==> x in s;
      FilterAll(p, s[..n]);
      assert s == s[..n] + [s[n]];
    }
  }

  /** Predicates that agree on the elements give the same filter. */
  lemma {:induction false} FilterCongruent<T>(p: T -> bool, q: T -> bool, s: seq<T>)
    requires forall x :: x in s ==> p(x) == q(x)
    ensures Filter(p, s) == Filter(q, s)
    decreases |s|
  {
    if s != [] {
      var n := |s| - 1;
      assert forall x :: x in s[..n] ==> x in s;
      FilterCongruent(p, q, s[..n]);
    }
  }

  lemma FilterSingleton<T>(p: T -> bool, x: T)
    ensures Filter(p, [x]) == if p(x) then [x] else []
  {
    assert [x][..0] == [];
  }

  lemma FilterSnoc<T>(p: T -> bool, s: seq<T>, x: T)
    ensures Filter(p, s + [x]) == Filter(p, s) + if p(x) then [x] else []
  {
    assert (s + [x])[..|s|] == s;
  }

  /** Filtering by `q` then by `p` is filtering once by their conjunction `pq`. */
  lemma {:induction false} FilterFilter<T>(p: T -> bool, q: T -> bool, pq: T -> bool, s: seq<T>)
    requires forall x :: x in s ==> pq(x) == (p(x) && q(x))
    ensures Filter(p, Filter(q, s)) == Filter(pq, s)
    decreases |s|
  {
    if s != [] {
      var n := |s| - 1;
      var init, x := s[..n], s[n];
      assert forall y :: y in init ==> y in s;
      FilterFilter(p, q, pq, init);
      assert x in s;
      var kept := if q(x) then [x] else [];
      assert s == init + [x];
      FilterSnoc(q, init, x);
      FilterSnoc(pq, init, x);
      calc {
        Filter(p, Filter(q, s));
        Filter(p, Filter(q, init) + kept);
        { FilterAppend(p, Filter(q, init), kept); }
        Filter(p, Filter(q, init)) + Filter(p, kept);
        { FilterSingleton(p, x); }
        Filter(pq, init) + (if pq(x) then [x] else []);
        Filter(pq, s);
      }
    }
  }

  // ------------------------------------------------------------ distinct

  /** `Array.from(new Set(s))`: each value once, in order of first occurrence. */
  function Distinct<T(==)>(s: seq<T>): (r: seq<T>)
    ensures forall i :: 0 <= i < |r| ==> r[i] in s
    ensures forall i :: 0 <= i < |s| ==> s[i] in r
    ensures forall i, j :: 0 <= i < j < |r| ==> r[i] != r[j]
    decreases |s|
  {
    if s == [] then []
    else
      var d := Distinct(s[..|s| - 1]);
      assert s == s[..|s| - 1] + [s[|s| - 1]];
      if s[|s| - 1] in d then d else d + [s[|s| - 1]]
  }

  /** Position `k` of `s` holds the first occurrence of its value. */
  ghost predicate FirstOccurrenceAt<T>(s: seq<T>, k: int) {
    0 <= k < |s| && forall j :: 0 <= j < k ==> s[j] != s[k]
  }

  /** The positions of `s` holding a value's first occurrence, in increasing order. */
  ghost function FirstPositions<T>(s: seq<T>): seq<nat>
    decreases |s|
  {
    if s == [] then []
    else FirstPositions(s[..|s| - 1]) + (if s[|s| - 1] in s[..|s| - 1] then [] else [|s| - 1])
  }

  lemma {:induction false} FirstPositionsAreFirst<T>(s: seq<T>)
    ensures forall k :: k in FirstPositions(s) <==> FirstOccurrenceAt(s, k)
    decreases |s|
  {
    if s != [] {
      var n := |s| - 1;
      var init := s[..n];
      FirstPositionsAreFirst(init);
      assert FirstPositions(s) == FirstPositions(init) + (if s[n] in init then [] else [n]);
      forall k | 0 <= k
        ensures k in FirstPositions(s) <==> FirstOccurrenceAt(s, k)
      {
        if k < n {
          assert FirstOccurrenceAt(s, k) <==> FirstOccurrenceAt(init, k);
        }
      }
    }
  }

  /** The distinct list keeps exactly the first occurrence of every value, in order. */
  lemma {:induction false} DistinctKeepsFirstOccurrences<T>(s: seq<T>)
    ensures PicksOut(Distinct(s), s, FirstPositions(s))
    ensures forall k :: k in FirstPositions(s) <==> FirstOccurrenceAt(s, k)
    decreases |s|
  {
    FirstPositionsAreFirst(s);
    if s != [] {
      var n := |s| - 1;
      var init := s[..n];
      assert s == init + [s[n]];
      DistinctKeepsFirstOccurrences(init);
      assert FirstPositions(s) == FirstPositions(init) + (if s[n] in init then [] else [n]);
      if s[n] in init {
        assert Distinct(s) == Distinct(init);
        PicksOutExtend(Distinct(init), init, FirstPositions(init), s[n]);
      } else {
        assert Distinct(s) == Distinct(init) + [s[n]];
        PicksOutSnoc(Distinct(init), init, FirstPositions(init), s[n]);
      }
    }
  }
}
