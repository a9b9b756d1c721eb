/** Sequence helpers mirroring the JavaScript array methods the source calls:
    `filter`, `map`, `findIndex`, `find` and `indexOf`, and the notion of a
    subsequence used to state what the de-duplicating helpers keep. */
module Seqs {
  import opened Wrappers

  /** `array.filter(p)`: the elements that satisfy `p`, in their order. */
  function Filter<T>(s: seq<T>, p: T -> bool): (r: seq<T>)
    ensures |r| <= |s|
    ensures forall i :: 0 <= i < |r| ==> r[i] in s && p(r[i])
    ensures forall i :: 0 <= i < |s| && p(s[i]) ==> s[i] in r
  {
    if s == [] then [] else (if p(s[0]) then [s[0]] else []) + Filter(s[1..], p)
  }

  lemma {:induction false} FilterConcat<T>(a: seq<T>, b: seq<T>, p: T -> bool)
    ensures Filter(a + b, p) == Filter(a, p) + Filter(b, p)
  {
    if a == [] {
      assert a + b == b;
    } else {
      assert (a + b)[0] == a[0];
      assert (a + b)[1..] == a[1..] + b;
      FilterConcat(a[1..], b, p);
    }
  }

  /** Filtering keeps every occurrence of an element that satisfies `p` and no
      occurrence of one that does not, so it only depends on the multiset. */
  lemma {:induction false} FilterMultiset<T>(s: seq<T>, p: T -> bool)
    ensures forall x :: multiset(Filter(s, p))[x] == if p(x) then multiset(s)[x] else 0
  {
    if s != [] {
      FilterMultiset(s[1..], p);
      assert s == [s[0]] + s[1..];
    }
  }

  lemma FilterPermutation<T>(a: seq<T>, b: seq<T>, p: T -> bool)
    requires multiset(a) == multiset(b)
    ensures multiset(Filter(a, p)) == multiset(Filter(b, p))
  {
    FilterMultiset(a, p);
    FilterMultiset(b, p);
  }

  /** Filtering with a predicate every element satisfies changes nothing. */
  lemma {:induction false} FilterAll<T>(s: seq<T>, p: T -> bool)
    requires forall j :: 0 <= j < |s| ==> p(s[j])
    ensures Filter(s, p) == s
  {
    if s != [] {
      FilterAll(s[1..], p);
    }
  }

  /** Filtering with a predicate no element satisfies gives the empty sequence. */
  lemma {:induction false} FilterNone<T>(s: seq<T>, p: T -> bool)
    requires forall j :: 0 <= j < |s| ==> !p(s[j])
    ensures Filter(s, p) == []
  {
    if s != [] {
      FilterNone(s[1..], p);
    }
  }

  /** `array.map(f)`. */
  function Map<T, U>(s: seq<T>, f: T -> U): seq<U>
  {
    seq(|s|, i requires 0 <= i < |s| => f(s[i]))
  }

  lemma MultisetWithout<T>(b: seq<T>, k: int)
    requires 0 <= k < |b|
    ensures multiset(b[..k] + b[k + 1..]) == multiset(b) - multiset{b[k]}
  {
    assert b == b[..k] + [b[k]] + b[k + 1..];
  }

  lemma MapWithout<T, U>(b: seq<T>, k: int, f: T -> U)
    requires 0 <= k < |b|
    ensures multiset(Map(b[..k] + b[k + 1..], f)) == multiset(Map(b, f)) - multiset{f(b[k])}
  {
    var m := Map(b, f);
    assert Map(b[..k] + b[k + 1..], f) == m[..k] + m[k + 1..];
    MultisetWithout(m, k);
  }

  lemma MultisetCancel<T>(ma: multiset<T>, mb: multiset<T>, x: T)
    requires ma - multiset{x} == mb - multiset{x}
    requires x in ma && x in mb
    ensures ma == mb
  {
    assert ma == (ma - multiset{x}) + multiset{x};
    assert mb == (mb - multiset{x}) + multiset{x};
  }

  /** Mapping a permutation gives a permutation. */
  lemma {:induction false} MapPermutation<T, U>(a: seq<T>, b: seq<T>, f: T -> U)
    requires multiset(a) == multiset(b)
    ensures multiset(Map(a, f)) == multiset(Map(b, f))
  {
    if a == [] {
      assert |b| == |multiset(b)| == 0;
    } else {
      assert a[0] in multiset(b);
      var k :| 0 <= k < |b| && b[k] == a[0];
      MultisetWithout(a, 0);
      MultisetWithout(b, k);
      assert a[..0] + a[1..] == a[1..];
      MapPermutation(a[1..], b[..k] + b[k + 1..], f);
      MapWithout(a, 0, f);
      MapWithout(b, k, f);
      assert Map(a, f)[0] == f(a[0]) && Map(b, f)[k] == f(a[0]);
      MultisetCancel(multiset(Map(a, f)), multiset(Map(b, f)), f(a[0]));
    }
  }

  /** `r` is obtained from `s` by deleting elements, keeping the order. */
  predicate IsSubsequence<T(==)>(r: seq<T>, s: seq<T>)
    decreases |s|
  {
    if r == [] then true
    else if s == [] then false
    else (r[|r| - 1] == s[|s| - 1] && IsSubsequence(r[..|r| - 1], s[..|s| - 1]))
         || IsSubsequence(r, s[..|s| - 1])
  }

  lemma {:induction false} SubsequenceElements<T>(r: seq<T>, s: seq<T>)
    requires IsSubsequence(r, s)
    ensures |r| <= |s|
    ensures forall i :: 0 <= i < |r| ==> r[i] in s
  {
    if r != [] {
      var s' := s[..|s| - 1];
      if r[|r| - 1] == s[|s| - 1] && IsSubsequence(r[..|r| - 1], s') {
        SubsequenceElements(r[..|r| - 1], s');
        assert r == r[..|r| - 1] + [s[|s| - 1]];
        assert s == s' + [s[|s| - 1]];
      } else {
        SubsequenceElements(r, s');
        assert s == s' + [s[|s| - 1]];
      }
    }
  }

  /** `array.findIndex(p)`: the first index whose element satisfies `p`, or -1. */
  function FindIndex<T>(s: seq<T>, p: T -> bool): (r: int)
    ensures -1 <= r < |s|
    ensures 0 <= r ==> p(s[r]) && forall j :: 0 <= j < r ==> !p(s[j])
    ensures r < 0 ==> forall j :: 0 <= j < |s| ==> !p(s[j])
  {
    if s == [] then -1
    else if p(s[0]) then 0
    else
      var j := FindIndex(s[1..], p);
      if j < 0 then -1 else j + 1
  }

  lemma {:induction false} FindIndexAppend<T>(a: seq<T>, x: T, p: T -> bool)
    ensures FindIndex(a + [x], p)
            == if 0 <= FindIndex(a, p) then FindIndex(a, p) else if p(x) then |a| else -1
  {
    if a == [] {
      assert a + [x] == [x];
    } else {
      assert (a + [x])[0] == a[0];
      assert (a + [x])[1..] == a[1..] + [x];
      FindIndexAppend(a[1..], x, p);
    }
  }

  /** `array.find(p)`: the first element that satisfies `p`, if any. */
  function Find<T>(s: seq<T>, p: T -> bool): (r: Option<T>)
    ensures r.Some? <==> exists i :: 0 <= i < |s| && p(s[i])
    ensures r.Some? ==> r.value in s && p(r.value)
  {
    var i := FindIndex(s, p);
    if i < 0 then None else Some(s[i])
  }

  /** What `find` returns is the element at the index `findIndex` returns, so no
      earlier element satisfies `p`. */
  lemma FindFirst<T>(s: seq<T>, p: T -> bool)
    ensures Find(s, p).Some? ==> 0 <= FindIndex(s, p) && Find(s, p).value == s[FindIndex(s, p)]
    ensures Find(s, p).Some? ==> forall j :: 0 <= j < FindIndex(s, p) ==> !p(s[j])
  {
  }

  lemma FindAppend<T>(a: seq<T>, x: T, p: T -> bool)
    ensures Find(a + [x], p) == if Find(a, p).Some? then Find(a, p) else if p(x) then Some(x) else None
  {
    FindIndexAppend(a, x, p);
    var i := FindIndex(a, p);
    if 0 <= i {
      assert (a + [x])[i] == a[i];
    }
  }

  /** `array.indexOf(x)`: the first index holding `x`, or -1. */
  function IndexOf<T(==)>(s: seq<T>, x: T): (r: int)
    ensures -1 <= r < |s|
    ensures r < 0 <==> x !in s
    ensures 0 <= r ==> s[r] == x && x !in s[..r]
  {
    FindIndex(s, y => y == x)
  }
}
