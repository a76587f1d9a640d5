/** Sequence helpers: order-preserving filtering and a stable sort by a string key.

    `Filter` is what a Python list comprehension `[x for x in s if p(x)]`
    computes; `SortBy` is what `sorted(s, key=k)` computes when the keys are
    strings (a stable sort, ties keep their original order).
 */
module Seqs {
  import opened Wrappers
  import opened Strings

  function Filter<T>(s: seq<T>, p: T -> bool): (r: seq<T>)
    ensures |r| <= |s|
    ensures forall i :: 0 <= i < |r| ==> p(r[i])
  {
    if |s| == 0 then [] else (if p(s[0]) then [s[0]] else []) + Filter(s[1..], p)
  }

  /** Adding the members not yet in a set adds every member. */
  lemma FilterNotInUnion<T>(existing: set<T>, s: seq<T>, p: T -> bool)
    requires forall x :: p(x) <==> x !in existing
    ensures existing + (set x | x in Filter(s, p)) == existing + set x | x in s
  {
    FilterMembers(s, p);
  }

  /** The filtered sequence holds exactly the members of `s` that satisfy `p`. */
  lemma {:induction false} FilterMembers<T>(s: seq<T>, p: T -> bool)
    ensures forall x :: x in Filter(s, p) <==> x in s && p(x)
    decreases |s|
  {
    if |s| > 0 {
      FilterMembers(s[1..], p);
      assert s == [s[0]] + s[1..];
    }
  }

  function Map<T, U>(s: seq<T>, f: T -> U): (r: seq<U>)
    ensures |r| == |s|
    ensures forall i :: 0 <= i < |s| ==> r[i] == f(s[i])
  {
    if |s| == 0 then [] else [f(s[0])] + Map(s[1..], f)
  }

  /** A non-empty sequence is its first element followed by the rest. */
  lemma HeadTail<T>(s: seq<T>)
    requires |s| > 0
    ensures s == [s[0]] + s[1..]
  {
  }

  lemma AppendAssoc<T>(a: seq<T>, b: seq<T>, c: seq<T>)
    ensures a + b + c == a + (b + c)
  {
  }

  /** Replacing the last element of `a + [x]` by `c` gives `a + [c]`. */
  lemma UpdateLast<T>(a: seq<T>, x: T, c: T)
    ensures (a + [x])[|a| := c] == a + [c]
  {
  }

  /** Index `i` of the tail is index `i + 1` of the sequence. */
  lemma TailIndices<T>(s: seq<T>)
    requires |s| > 0
    ensures forall i :: 1 <= i < |s| ==> s[i] == s[1..][i - 1]
  {
  }

  /** Every element of a non-empty sequence satisfies `p` exactly when every element of
      its front and its last element do. */
  lemma AllSnoc<T>(s: seq<T>, front: seq<T>, p: T -> bool)
    requires |s| > 0 && front == s[..|s| - 1]
    ensures (forall i :: 0 <= i < |s| ==> p(s[i])) <==>
      (forall i :: 0 <= i < |front| ==> p(front[i])) && p(s[|s| - 1])
  {
  }

  /** A non-empty sequence is its front followed by its last element. */
  lemma SplitLast<T>(s: seq<T>)
    requires |s| > 0
    ensures s[..|s| - 1] + [s[|s| - 1]] == s
  {
  }

  lemma {:induction false} FilterAppend<T>(a: seq<T>, b: seq<T>, p: T -> bool)
    ensures Filter(a + b, p) == Filter(a, p) + Filter(b, p)
    decreases |a|
  {
    if |a| > 0 {
      assert (a + b)[1..] == a[1..] + b;
      FilterAppend(a[1..], b, p);
    } else {
      assert a + b == b;
    }
  }

  lemma {:induction false} FilterKeepsAll<T>(s: seq<T>, p: T -> bool)
    requires forall x :: x in s ==> p(x)
    ensures Filter(s, p) == s
    decreases |s|
  {
    if |s| > 0 {
      FilterKeepsAll(s[1..], p);
    }
  }

  lemma {:induction false} FilterDropsAll<T>(s: seq<T>, p: T -> bool)
    requires forall x :: x in s ==> !p(x)
    ensures Filter(s, p) == []
    decreases |s|
  {
    if |s| > 0 {
      FilterDropsAll(s[1..], p);
    }
  }

  /** Filtering twice is filtering once by the conjunction. */
  lemma {:induction false} FilterFilter<T>(s: seq<T>, p: T -> bool, q: T -> bool, r: T -> bool)
    requires forall x :: x in s ==> (r(x) <==> p(x) && q(x))
    ensures Filter(Filter(s, p), q) == Filter(s, r)
    decreases |s|
  {
    if |s| > 0 {
      FilterFilter(s[1..], p, q, r);
      FilterAppend(if p(s[0]) then [s[0]] else [], Filter(s[1..], p), q);
    }
  }

  /** Predicates that agree on the members of `s` filter it alike. */
  lemma {:induction false} FilterAgree<T>(s: seq<T>, p: T -> bool, q: T -> bool)
    requires forall x :: x in s ==> p(x) == q(x)
    ensures Filter(s, p) == Filter(s, q)
    decreases |s|
  {
    if |s| > 0 {
      FilterAgree(s[1..], p, q);
    }
  }

  /** A predicate and its complement split `s` into two parts that together hold all of it. */
  lemma {:induction false} FilterSplitMultiset<T>(s: seq<T>, p: T -> bool, q: T -> bool)
    requires forall x :: x in s ==> q(x) == !p(x)
    ensures multiset(Filter(s, p)) + multiset(Filter(s, q)) == multiset(s)
    decreases |s|
  {
    if |s| > 0 {
      FilterSplitMultiset(s[1..], p, q);
      assert s == [s[0]] + s[1..];
    }
  }

  /** Filtering commutes with a map that does not change whether the predicate holds. */
  lemma {:induction false} FilterMap<T>(s: seq<T>, f: T -> T, p: T -> bool)
    requires forall x :: x in s ==> p(f(x)) == p(x)
    ensures Filter(Map(s, f), p) == Map(Filter(s, p), f)
    decreases |s|
  {
    if |s| > 0 {
      FilterMap(s[1..], f, p);
      assert Map(s, f)[1..] == Map(s[1..], f);
    }
  }

  lemma {:induction false} MapAppend<T, U>(a: seq<T>, b: seq<T>, f: T -> U)
    ensures Map(a + b, f) == Map(a, f) + Map(b, f)
  {
  }

  /** Applying `f` then `g` pointwise is applying their composition `h`. */
  lemma MapMap<T>(s: seq<T>, f: T -> T, g: T -> T, h: T -> T)
    requires forall x :: x in s ==> h(x) == g(f(x))
    ensures Map(Map(s, f), g) == Map(s, h)
  {
  }

  /** A list comprehension whose element expression may raise: the first error wins. */
  function MapResult<T, U>(s: seq<T>, f: T -> Result<U>): (r: Result<seq<U>>)
    ensures r.Ok? ==> |r.value| == |s|
    decreases |s|
  {
    if |s| == 0 then Ok([])
    else
      match f(s[0])
      case Err(m) => Err(m)
      case Ok(x) =>
        match MapResult(s[1..], f)
        case Err(m) => Err(m)
        case Ok(rest) => Ok([x] + rest)
  }

  /** The comprehension succeeds exactly when every element does, and then holds their values in order. */
  lemma {:induction false} MapResultOk<T, U>(s: seq<T>, f: T -> Result<U>)
    ensures MapResult(s, f).Ok? <==> forall i :: 0 <= i < |s| ==> f(s[i]).Ok?
    ensures MapResult(s, f).Ok? ==> forall i :: 0 <= i < |s| ==> f(s[i]) == Ok(MapResult(s, f).value[i])
    decreases |s|
  {
    if |s| > 0 {
      MapResultOk(s[1..], f);
      assert forall i :: 1 <= i < |s| ==> s[i] == s[1..][i - 1];
    }
  }

  lemma {:induction false} MapResultSingle<T, U>(x: T, f: T -> Result<U>)
    requires f(x).Ok?
    ensures MapResult([x], f) == Ok([f(x).value])
  {
    assert [x][1..] == [];
    assert MapResult([x][1..], f) == Ok([]);
    assert [f(x).value] + [] == [f(x).value];
  }

  lemma {:induction false} MapResultAppend<T, U>(a: seq<T>, b: seq<T>, f: T -> Result<U>)
    requires MapResult(a, f).Ok? && MapResult(b, f).Ok?
    ensures MapResult(a + b, f) == Ok(MapResult(a, f).value + MapResult(b, f).value)
    decreases |a|
  {
    if |a| == 0 {
      assert a + b == b;
      assert MapResult(a, f).value == [];
      assert MapResult(a, f).value + MapResult(b, f).value == MapResult(b, f).value;
    } else {
      assert (a + b)[1..] == a[1..] + b;
      assert (a + b)[0] == a[0];
      MapResultAppend(a[1..], b, f);
      assert [f(a[0]).value] + (MapResult(a[1..], f).value + MapResult(b, f).value)
          == ([f(a[0]).value] + MapResult(a[1..], f).value) + MapResult(b, f).value;
    }
  }

  /** A comprehension that gathers a list from every element, each of which may raise: the
      first error wins. */
  function FlatMapResult<T, U>(s: seq<T>, f: T -> Result<seq<U>>): (r: Result<seq<U>>)
    ensures r.Ok? <==> forall x :: x in s ==> f(x).Ok?
    decreases |s|
  {
    if |s| == 0 then Ok([])
    else
      match f(s[0])
      case Err(m) => Err(m)
      case Ok(x) =>
        match FlatMapResult(s[1..], f)
        case Err(m) => Err(m)
        case Ok(rest) => Ok(x + rest)
  }

  /** A value is gathered exactly when it comes from some element. */
  lemma {:induction false} FlatMapResultMembers<T, U>(s: seq<T>, f: T -> Result<seq<U>>, u: U)
    requires FlatMapResult(s, f).Ok?
    ensures u in FlatMapResult(s, f).value <==> exists x :: x in s && u in f(x).value
    decreases |s|
  {
    if |s| > 0 {
      FlatMapResultMembers(s[1..], f, u);
      assert forall y :: y in s <==> y == s[0] || y in s[1..];
    }
  }

  lemma {:induction false} FlatMapResultAppend<T, U>(a: seq<T>, b: seq<T>, f: T -> Result<seq<U>>)
    requires FlatMapResult(a, f).Ok? && FlatMapResult(b, f).Ok?
    ensures FlatMapResult(a + b, f) == Ok(FlatMapResult(a, f).value + FlatMapResult(b, f).value)
    decreases |a|
  {
    if |a| == 0 {
      assert a + b == b;
      assert FlatMapResult(a, f).value == [];
      assert FlatMapResult(a, f).value + FlatMapResult(b, f).value == FlatMapResult(b, f).value;
    } else {
      assert (a + b)[1..] == a[1..] + b;
      assert (a + b)[0] == a[0];
      assert a[0] in a;
      FlatMapResultAppend(a[1..], b, f);
      assert f(a[0]).value + (FlatMapResult(a[1..], f).value + FlatMapResult(b, f).value)
          == (f(a[0]).value + FlatMapResult(a[1..], f).value) + FlatMapResult(b, f).value;
    }
  }

  /** Filtering before decoding is filtering after it, by a predicate that agrees on decoded values. */
  lemma {:induction false} MapResultFilter<T, U>(s: seq<T>, f: T -> Result<U>, p: T -> bool, q: U -> bool)
    requires MapResult(s, f).Ok?
    requires forall x :: x in s && f(x).Ok? ==> q(f(x).value) == p(x)
    ensures MapResult(Filter(s, p), f) == Ok(Filter(MapResult(s, f).value, q))
    decreases |s|
  {
    if |s| == 0 {
      assert MapResult(s, f).value == [];
    } else {
      var v := MapResult(s, f).value;
      assert f(s[0]).Ok? && MapResult(s[1..], f).Ok?;
      assert v == [f(s[0]).value] + MapResult(s[1..], f).value;
      MapResultFilter(s[1..], f, p, q);
      assert v[0] == f(s[0]).value && v[1..] == MapResult(s[1..], f).value;
      assert Filter(v, q) == (if q(v[0]) then [v[0]] else []) + Filter(v[1..], q);
      if p(s[0]) {
        assert Filter(s, p) == [s[0]] + Filter(s[1..], p);
        MapResultSingle(s[0], f);
        MapResultAppend([s[0]], Filter(s[1..], p), f);
      } else {
        assert Filter(s, p) == Filter(s[1..], p);
        assert s[0] in s && !q(v[0]);
        assert Filter(v, q) == Filter(v[1..], q);
      }
    }
  }

  /** Decoding what was encoded, when every element reads back as itself. */
  lemma {:induction false} MapResultOfMap<T, U>(s: seq<U>, g: U -> T, f: T -> Result<U>)
    requires forall x :: x in s ==> f(g(x)) == Ok(x)
    ensures MapResult(Map(s, g), f) == Ok(s)
    decreases |s|
  {
    if |s| > 0 {
      MapResultOfMap(s[1..], g, f);
      assert Map(s, g)[1..] == Map(s[1..], g);
      assert s == [s[0]] + s[1..];
    }
  }

  // ---------------------------------------------------------------------------
  // Stable sort by a string key.

  predicate SortedBy<T>(s: seq<T>, key: T -> string) {
    forall i, j :: 0 <= i < j < |s| ==> LessEq(key(s[i]), key(s[j]))
  }

  /** Puts `x` in front of the first element whose key is not smaller than its own. */
  function InsertBy<T>(x: T, s: seq<T>, key: T -> string): seq<T> {
    if |s| == 0 || LessEq(key(x), key(s[0])) then [x] + s
    else [s[0]] + InsertBy(x, s[1..], key)
  }

  function SortBy<T>(s: seq<T>, key: T -> string): seq<T> {
    if |s| == 0 then [] else InsertBy(s[0], SortBy(s[1..], key), key)
  }

  lemma {:induction false} InsertByMembers<T>(x: T, s: seq<T>, key: T -> string)
    ensures multiset(InsertBy(x, s, key)) == multiset(s) + multiset{x}
    ensures |InsertBy(x, s, key)| == |s| + 1
    ensures forall y :: y in InsertBy(x, s, key) ==> y == x || y in s
    decreases |s|
  {
    if |s| > 0 && !LessEq(key(x), key(s[0])) {
      InsertByMembers(x, s[1..], key);
      assert s == [s[0]] + s[1..];
    }
  }

  lemma {:induction false} InsertBySorted<T>(x: T, s: seq<T>, key: T -> string)
    requires SortedBy(s, key)
    ensures SortedBy(InsertBy(x, s, key), key)
    decreases |s|
  {
    var r := InsertBy(x, s, key);
    if |s| == 0 || LessEq(key(x), key(s[0])) {
      forall i, j | 0 <= i < j < |r|
        ensures LessEq(key(r[i]), key(r[j]))
      {
        if i == 0 && j > 1 {
          LessEqTransitive(key(x), key(s[0]), key(s[j - 1]));
        }
      }
    } else {
      assert SortedBy(s[1..], key) by {
        forall i, j | 0 <= i < j < |s[1..]|
          ensures LessEq(key(s[1..][i]), key(s[1..][j]))
        {
          assert s[1..][i] == s[i + 1] && s[1..][j] == s[j + 1];
        }
      }
      InsertBySorted(x, s[1..], key);
      InsertByMembers(x, s[1..], key);
      var t := InsertBy(x, s[1..], key);
      assert r == [s[0]] + t;
      LessEqTotal(key(x), key(s[0]));
      forall k | 0 <= k < |t|
        ensures LessEq(key(s[0]), key(t[k]))
      {
        if t[k] != x {
          assert t[k] in s[1..];
          var m :| 0 <= m < |s[1..]| && s[1..][m] == t[k];
          assert s[m + 1] == t[k];
        }
      }
    }
  }

  /** The elements whose key is `k`: one class of ties. */
  function KeyIs<T>(key: T -> string, k: string): T -> bool {
    (x: T) => key(x) == k
  }

  /** `x` lands in front of every element of its own key. */
  lemma {:induction false} InsertByTies<T>(x: T, s: seq<T>, key: T -> string, k: string)
    ensures Filter(InsertBy(x, s, key), KeyIs(key, k)) == (if key(x) == k then [x] else []) + Filter(s, KeyIs(key, k))
    decreases |s|
  {
    if |s| == 0 || LessEq(key(x), key(s[0])) {
      assert ([x] + s)[1..] == s;
    } else {
      LessEqReflexive(key(x));
      InsertByTies(x, s[1..], key, k);
      assert ([s[0]] + InsertBy(x, s[1..], key))[1..] == InsertBy(x, s[1..], key);
    }
  }

  /** `SortBy` is stable: the elements of each key keep their original order. */
  lemma {:induction false} SortByStable<T>(s: seq<T>, key: T -> string, k: string)
    ensures Filter(SortBy(s, key), KeyIs(key, k)) == Filter(s, KeyIs(key, k))
    decreases |s|
  {
    if |s| > 0 {
      SortByStable(s[1..], key, k);
      InsertByTies(s[0], SortBy(s[1..], key), key, k);
    }
  }

  lemma {:induction false} SortByFacts<T>(s: seq<T>, key: T -> string)
    ensures multiset(SortBy(s, key)) == multiset(s)
    ensures SortedBy(SortBy(s, key), key)
    ensures |SortBy(s, key)| == |s|
    decreases |s|
  {
    if |s| > 0 {
      SortByFacts(s[1..], key);
      InsertByMembers(s[0], SortBy(s[1..], key), key);
      InsertBySorted(s[0], SortBy(s[1..], key), key);
      assert s == [s[0]] + s[1..];
    }
  }

  /** No two elements share a key. */
  predicate DistinctKeys<T>(s: seq<T>, key: T -> string) {
    forall i, j :: 0 <= i < j < |s| ==> key(s[i]) != key(s[j])
  }

  lemma {:induction false} InsertByDistinct<T>(x: T, s: seq<T>, key: T -> string)
    requires DistinctKeys(s, key)
    requires forall y :: y in s ==> key(y) != key(x)
    ensures DistinctKeys(InsertBy(x, s, key), key)
    decreases |s|
  {
    if |s| > 0 && !LessEq(key(x), key(s[0])) {
      assert DistinctKeys(s[1..], key) by {
        forall i, j | 0 <= i < j < |s[1..]|
          ensures key(s[1..][i]) != key(s[1..][j])
        {
          assert s[1..][i] == s[i + 1] && s[1..][j] == s[j + 1];
        }
      }
      InsertByDistinct(x, s[1..], key);
      InsertByMembers(x, s[1..], key);
      var t := InsertBy(x, s[1..], key);
      forall k | 0 <= k < |t|
        ensures key(s[0]) != key(t[k])
      {
        assert t[k] in t;
        if t[k] != x {
          assert t[k] in s[1..];
          var m :| 0 <= m < |s[1..]| && s[1..][m] == t[k];
          assert s[m + 1] == t[k];
        }
      }
    } else if |s| > 0 {
      assert s[0] in s;
    }
  }

  /** Sorting keeps the members of `s` and, when the keys are distinct, keeps them distinct. */
  lemma {:induction false} SortByDistinct<T>(s: seq<T>, key: T -> string)
    requires DistinctKeys(s, key)
    ensures forall y :: y in SortBy(s, key) <==> y in s
    ensures DistinctKeys(SortBy(s, key), key)
    decreases |s|
  {
    SortByFacts(s, key);
    assert forall y :: y in SortBy(s, key) <==> y in multiset(SortBy(s, key));
    if |s| > 0 {
      assert DistinctKeys(s[1..], key) by {
        forall i, j | 0 <= i < j < |s[1..]|
          ensures key(s[1..][i]) != key(s[1..][j])
        {
          assert s[1..][i] == s[i + 1] && s[1..][j] == s[j + 1];
        }
      }
      SortByDistinct(s[1..], key);
      forall y | y in SortBy(s[1..], key)
        ensures key(y) != key(s[0])
      {
        SortByFacts(s[1..], key);
        assert y in multiset(SortBy(s[1..], key));
        assert y in s[1..];
        var m :| 0 <= m < |s[1..]| && s[1..][m] == y;
        assert s[m + 1] == y;
      }
      InsertByDistinct(s[0], SortBy(s[1..], key), key);
    }
  }

  /** Sorting a sequence that is already sorted changes nothing. */
  lemma {:induction false} SortBySorted<T>(s: seq<T>, key: T -> string)
    requires SortedBy(s, key)
    ensures SortBy(s, key) == s
    decreases |s|
  {
    if |s| > 0 {
      assert SortedBy(s[1..], key) by {
        forall i, j | 0 <= i < j < |s[1..]|
          ensures LessEq(key(s[1..][i]), key(s[1..][j]))
        {
          assert s[1..][i] == s[i + 1] && s[1..][j] == s[j + 1];
        }
      }
      SortBySorted(s[1..], key);
      assert s == [s[0]] + s[1..];
    }
  }

  /** Sorting only looks at keys: two key functions that agree on `s` sort it alike. */
  lemma {:induction false} InsertByKeyAgree<T>(x: T, s: seq<T>, k1: T -> string, k2: T -> string)
    requires k1(x) == k2(x)
    requires forall y :: y in s ==> k1(y) == k2(y)
    ensures InsertBy(x, s, k1) == InsertBy(x, s, k2)
    decreases |s|
  {
    if |s| > 0 {
      InsertByKeyAgree(x, s[1..], k1, k2);
    }
  }

  lemma {:induction false} SortByKeyAgree<T>(s: seq<T>, k1: T -> string, k2: T -> string)
    requires forall y :: y in s ==> k1(y) == k2(y)
    ensures SortBy(s, k1) == SortBy(s, k2)
    decreases |s|
  {
    if |s| > 0 {
      SortByKeyAgree(s[1..], k1, k2);
      SortByFacts(s[1..], k1);
      forall y | y in SortBy(s[1..], k1)
        ensures k1(y) == k2(y)
      {
        assert y in multiset(SortBy(s[1..], k1));
      }
      InsertByKeyAgree(s[0], SortBy(s[1..], k1), k1, k2);
    }
  }

  /** Mapping a key-preserving function over a sequence commutes with sorting it. */
  lemma {:induction false} InsertByMap<T>(x: T, s: seq<T>, key: T -> string, f: T -> T)
    requires key(f(x)) == key(x)
    requires forall y :: y in s ==> key(f(y)) == key(y)
    ensures InsertBy(f(x), Map(s, f), key) == Map(InsertBy(x, s, key), f)
    decreases |s|
  {
    if |s| > 0 {
      InsertByMap(x, s[1..], key, f);
      assert Map(s, f)[1..] == Map(s[1..], f);
    }
  }

  lemma {:induction false} SortByMap<T>(s: seq<T>, key: T -> string, f: T -> T)
    requires forall y :: y in s ==> key(f(y)) == key(y)
    ensures SortBy(Map(s, f), key) == Map(SortBy(s, key), f)
    decreases |s|
  {
    if |s| > 0 {
      SortByMap(s[1..], key, f);
      assert Map(s, f)[1..] == Map(s[1..], f);
      SortByFacts(s[1..], key);
      forall y | y in SortBy(s[1..], key)
        ensures key(f(y)) == key(y)
      {
        assert y in multiset(SortBy(s[1..], key));
      }
      InsertByMap(s[0], SortBy(s[1..], key), key, f);
    }
  }

  // ---------------------------------------------------------------------------
  // First match, removal of the first match, and moving matches to the end.

  /** Index of the first element satisfying `p`, if there is one. */
  function FirstIndex<T>(s: seq<T>, p: T -> bool): (r: Option<nat>)
    ensures r.Some? ==> r.value < |s| && p(s[r.value])
    ensures r.Some? ==> forall j :: 0 <= j < r.value ==> !p(s[j])
    ensures r.None? ==> forall j :: 0 <= j < |s| ==> !p(s[j])
    decreases |s|
  {
    if |s| == 0 then None
    else if p(s[0]) then Some(0)
    else match FirstIndex(s[1..], p)
      case None => None
      case Some(i) => Some(i + 1)
  }

  /** The first match found by index is the head of the filtered sequence. */
  lemma {:induction false} FirstIndexIsFilterHead<T>(s: seq<T>, p: T -> bool)
    ensures FirstIndex(s, p).None? <==> Filter(s, p) == []
    ensures FirstIndex(s, p).Some? ==> Filter(s, p)[0] == s[FirstIndex(s, p).value]
    decreases |s|
  {
    if |s| > 0 && !p(s[0]) {
      FirstIndexIsFilterHead(s[1..], p);
    }
  }

  /** A match inside the front part is found before anything in the back part. */
  /** The first index is determined by where `p` first holds. */
  lemma {:induction false} FirstIndexIs<T>(s: seq<T>, p: T -> bool, i: nat)
    requires i < |s| && p(s[i])
    requires forall j :: 0 <= j < i ==> !p(s[j])
    ensures FirstIndex(s, p) == Some(i)
    decreases i
  {
    if i > 0 {
      FirstIndexIs(s[1..], p, i - 1);
    }
  }

  lemma {:induction false} FirstIndexAppend<T>(a: seq<T>, b: seq<T>, p: T -> bool)
    requires FirstIndex(a, p).Some?
    ensures FirstIndex(a + b, p) == FirstIndex(a, p)
  {
    var i := FirstIndex(a, p).value;
    assert p((a + b)[i]);
    assert forall j :: 0 <= j < i ==> (a + b)[j] == a[j];
  }

  /** With no match in `a`, the first match of `a + b` is the first match of `b`, shifted. */
  lemma {:induction false} FirstIndexAppendNone<T>(a: seq<T>, b: seq<T>, p: T -> bool)
    requires FirstIndex(a, p).None?
    requires FirstIndex(b, p).Some?
    ensures FirstIndex(a + b, p) == Some(|a| + FirstIndex(b, p).value)
  {
    var k := |a| + FirstIndex(b, p).value;
    assert p((a + b)[k]);
    assert forall j :: 0 <= j < |a| ==> (a + b)[j] == a[j];
    assert forall j :: |a| <= j < k ==> (a + b)[j] == b[j - |a|];
  }

  /** The filter of `s` is the filter of the part before `i`, of `s[i]`, and of the part after. */
  lemma {:induction false} FilterAround<T>(s: seq<T>, i: nat, p: T -> bool)
    requires i < |s|
    ensures Filter(s, p) == Filter(s[..i], p) + (Filter([s[i]], p) + Filter(s[i+1..], p))
  {
    TakeDrop(s, i);
    HeadTail(s[i..]);
    assert s[i..][1..] == s[i+1..];
    FilterAppend(s[..i], s[i..], p);
    FilterAppend([s[i]], s[i+1..], p);
  }

  lemma TakeDrop<T>(s: seq<T>, i: nat)
    requires i <= |s|
    ensures s == s[..i] + s[i..]
  {
  }

  /** Deleting the element at `i` keeps the parts on either side of it. */
  lemma {:induction false} FilterRemoveAtSplit<T>(s: seq<T>, i: nat, p: T -> bool)
    requires i < |s|
    ensures Filter(s, p) == Filter(s[..i], p) + (Filter([s[i]], p) + Filter(s[i+1..], p))
    ensures Filter(s[..i] + s[i+1..], p) == Filter(s[..i], p) + Filter(s[i+1..], p)
  {
    FilterAround(s, i, p);
    FilterAppend(s[..i], s[i+1..], p);
  }

  /** Deleting an element a filter rejects does not change the filter. */
  lemma {:induction false} FilterRemoveAtOther<T>(s: seq<T>, i: nat, p: T -> bool)
    requires i < |s| && !p(s[i])
    ensures Filter(s[..i] + s[i+1..], p) == Filter(s, p)
  {
    FilterRemoveAtSplit(s, i, p);
    assert Filter([s[i]], p) == [] by {
      assert [s[i]][1..] == [];
    }
    assert [] + Filter(s[i+1..], p) == Filter(s[i+1..], p);
  }

  /** Deleting the first match drops the head of the filter. */
  lemma {:induction false} FilterRemoveAtFirst<T>(s: seq<T>, i: nat, p: T -> bool)
    requires FirstIndex(s, p) == Some(i)
    ensures Filter(s, p) != []
    ensures Filter(s[..i] + s[i+1..], p) == Filter(s, p)[1..]
  {
    FilterRemoveAtSplit(s, i, p);
    FilterDropsAll(s[..i], p);
    assert Filter([s[i]], p) == [s[i]] by {
      assert [s[i]][1..] == [];
    }
  }

  /** Replacing the first match by another match keeps it the first match. */
  lemma {:induction false} FirstIndexUpdate<T>(s: seq<T>, i: nat, c: T, p: T -> bool)
    requires FirstIndex(s, p) == Some(i)
    requires p(c)
    ensures FirstIndex(s[i := c], p) == Some(i)
  {
    assert p(s[i := c][i]);
    assert forall j :: 0 <= j < i ==> s[i := c][j] == s[j];
  }

  /** Replacing a match by a match keeps the number of matches. */
  lemma {:induction false} FilterUpdateMatch<T>(s: seq<T>, i: nat, c: T, p: T -> bool)
    requires i < |s| && p(s[i]) && p(c)
    ensures |Filter(s[i := c], p)| == |Filter(s, p)|
    decreases |s|
  {
    if i > 0 {
      FilterUpdateMatch(s[1..], i - 1, c, p);
      assert s[i := c][1..] == s[1..][i - 1 := c];
    } else {
      assert s[i := c][1..] == s[1..];
    }
  }

  /** Replacing the match at `i` replaces its image in the filtered sequence, at the
      position given by the number of matches before `i`. */
  lemma {:induction false} FilterUpdateAt<T>(s: seq<T>, i: nat, c: T, p: T -> bool)
    requires i < |s| && p(s[i]) && p(c)
    ensures var j := |Filter(s[..i], p)|;
      j < |Filter(s, p)| && Filter(s, p)[j] == s[i] && Filter(s[i := c], p) == Filter(s, p)[j := c]
    decreases |s|
  {
    if i > 0 {
      FilterUpdateAt(s[1..], i - 1, c, p);
      assert s[i := c][1..] == s[1..][i - 1 := c];
      assert s[..i][1..] == s[1..][..i - 1];
    } else {
      assert s[i := c][1..] == s[1..];
    }
  }

  /** Replacing a non-match by a non-match leaves the matches as they were. */
  lemma {:induction false} FilterUpdateOther<T>(s: seq<T>, i: nat, c: T, p: T -> bool)
    requires i < |s| && !p(s[i]) && !p(c)
    ensures Filter(s[i := c], p) == Filter(s, p)
    decreases |s|
  {
    if i > 0 {
      FilterUpdateOther(s[1..], i - 1, c, p);
      assert s[i := c][1..] == s[1..][i - 1 := c];
    } else {
      assert s[i := c][1..] == s[1..];
    }
  }

  function Not<T>(p: T -> bool): T -> bool {
    x => !p(x)
  }

  /** `s` without its first element satisfying `p`. */
  function RemoveFirst<T>(s: seq<T>, p: T -> bool): seq<T>
    decreases |s|
  {
    if |s| == 0 then []
    else if p(s[0]) then s[1..]
    else [s[0]] + RemoveFirst(s[1..], p)
  }

  lemma {:induction false} RemoveFirstAt<T>(s: seq<T>, p: T -> bool)
    requires FirstIndex(s, p).Some?
    ensures RemoveFirst(s, p) == s[..FirstIndex(s, p).value] + s[FirstIndex(s, p).value + 1..]
    decreases |s|
  {
    if !p(s[0]) {
      var t := s[1..];
      RemoveFirstAt(t, p);
      var j := FirstIndex(t, p).value;
      assert FirstIndex(s, p) == Some(j + 1);
      ConsSplit(s, j);
    }
  }

  /** Cutting out the element after position `j` of the tail is cutting out `j + 1`. */
  lemma {:induction false} ConsSplit<T>(s: seq<T>, j: nat)
    requires j + 1 < |s|
    ensures s[..j + 1] + s[j + 2..] == [s[0]] + (s[1..][..j] + s[1..][j + 1..])
  {
    assert s[..j + 1] == [s[0]] + s[1..][..j];
  }

  lemma {:induction false} FilterRemoveFirst<T>(s: seq<T>, p: T -> bool)
    ensures Filter(RemoveFirst(s, p), Not(p)) == Filter(s, Not(p))
    ensures Filter(s, p) != [] ==> Filter(RemoveFirst(s, p), p) == Filter(s, p)[1..]
    ensures Filter(s, p) == [] ==> RemoveFirst(s, p) == s
    decreases |s|
  {
    if |s| > 0 {
      FilterRemoveFirst(s[1..], p);
      if p(s[0]) {
        assert Filter(s, p) == [s[0]] + Filter(s[1..], p);
      } else {
        var t := RemoveFirst(s[1..], p);
        assert ([s[0]] + t)[1..] == t;
        assert s == [s[0]] + s[1..];
      }
    }
  }

  /** Removing the first match of `p` leaves the elements `q` picks when `q` excludes `p`. */
  lemma {:induction false} RemoveFirstKeepsOthers<T>(s: seq<T>, p: T -> bool, q: T -> bool)
    requires forall x :: q(x) ==> !p(x)
    ensures Filter(RemoveFirst(s, p), q) == Filter(s, q)
    decreases |s|
  {
    if |s| > 0 && !p(s[0]) {
      RemoveFirstKeepsOthers(s[1..], p, q);
      assert ([s[0]] + RemoveFirst(s[1..], p))[1..] == RemoveFirst(s[1..], p);
    }
  }

  /** `s` with its first element satisfying `p` replaced by its image under `f`. */
  function ModifyFirst<T>(s: seq<T>, p: T -> bool, f: T -> T): (r: seq<T>)
    ensures |r| == |s|
    decreases |s|
  {
    if |s| == 0 then []
    else if p(s[0]) then [f(s[0])] + s[1..]
    else [s[0]] + ModifyFirst(s[1..], p, f)
  }

  /** The replacement happens at the first match, and nowhere else. */
  lemma {:induction false} ModifyFirstAt<T>(s: seq<T>, p: T -> bool, f: T -> T)
    ensures FirstIndex(s, p).None? ==> ModifyFirst(s, p, f) == s
    ensures FirstIndex(s, p).Some? ==> ModifyFirst(s, p, f) == s[FirstIndex(s, p).value := f(s[FirstIndex(s, p).value])]
    decreases |s|
  {
    if |s| > 0 && !p(s[0]) {
      ModifyFirstAt(s[1..], p, f);
      if FirstIndex(s[1..], p).Some? {
        var i := FirstIndex(s[1..], p).value;
        assert FirstIndex(s, p) == Some(i + 1);
        ConsUpdate(s, i, f(s[i + 1]));
      } else {
        HeadTail(s);
      }
    }
  }

  /** Updating index `i` of the tail is updating index `i + 1`. */
  lemma ConsUpdate<T>(s: seq<T>, i: nat, x: T)
    requires i + 1 < |s|
    ensures [s[0]] + s[1..][i := x] == s[i + 1 := x]
  {
  }

  /** In a concatenation the first match is in the front part if there is one there. */
  lemma {:induction false} ModifyFirstAppend<T>(a: seq<T>, b: seq<T>, p: T -> bool, f: T -> T)
    ensures ModifyFirst(a + b, p, f) ==
      if FirstIndex(a, p).Some? then ModifyFirst(a, p, f) + b else a + ModifyFirst(b, p, f)
    decreases |a|
  {
    if |a| == 0 {
      assert a + b == b;
    } else {
      assert (a + b)[0] == a[0];
      assert (a + b)[1..] == a[1..] + b;
      ModifyFirstAppend(a[1..], b, p, f);
    }
  }

  /** Filtering with a predicate that holds on the matches and on their images commutes with the replacement. */
  lemma {:induction false} FilterModifyFirstIn<T>(s: seq<T>, p: T -> bool, f: T -> T, q: T -> bool)
    requires forall x :: x in s && p(x) ==> q(x) && q(f(x)) && p(f(x))
    ensures Filter(ModifyFirst(s, p, f), q) == ModifyFirst(Filter(s, q), p, f)
    decreases |s|
  {
    if |s| > 0 {
      if p(s[0]) {
        assert ([f(s[0])] + s[1..])[1..] == s[1..];
      } else {
        var t := ModifyFirst(s[1..], p, f);
        assert ([s[0]] + t)[1..] == t;
        FilterModifyFirstIn(s[1..], p, f, q);
        ModifyFirstAppend(if q(s[0]) then [s[0]] else [], Filter(s[1..], q), p, f);
      }
    }
  }

  /** Filtering with a predicate that fails on the matches and on their images does not see the replacement. */
  lemma {:induction false} FilterModifyFirstOut<T>(s: seq<T>, p: T -> bool, f: T -> T, q: T -> bool)
    requires forall x :: x in s && p(x) ==> !q(x) && !q(f(x))
    ensures Filter(ModifyFirst(s, p, f), q) == Filter(s, q)
    decreases |s|
  {
    if |s| > 0 {
      if p(s[0]) {
        assert ([f(s[0])] + s[1..])[1..] == s[1..];
      } else {
        var t := ModifyFirst(s[1..], p, f);
        assert ([s[0]] + t)[1..] == t;
        FilterModifyFirstOut(s[1..], p, f, q);
      }
    }
  }

  /** Replacing the first match twice by an idempotent update is replacing it once. */
  lemma {:induction false} ModifyFirstIdempotent<T>(s: seq<T>, p: T -> bool, f: T -> T)
    requires forall x :: x in s && p(x) ==> p(f(x)) && f(f(x)) == f(x)
    ensures ModifyFirst(ModifyFirst(s, p, f), p, f) == ModifyFirst(s, p, f)
    decreases |s|
  {
    if |s| > 0 {
      if p(s[0]) {
        assert ([f(s[0])] + s[1..])[0] == f(s[0]);
        assert ([f(s[0])] + s[1..])[1..] == s[1..];
      } else {
        var t := ModifyFirst(s[1..], p, f);
        assert ([s[0]] + t)[1..] == t;
        ModifyFirstIdempotent(s[1..], p, f);
      }
    }
  }

  /** A map that leaves the matches and their images alone, and keeps which elements
      match, commutes with the replacement. */
  lemma {:induction false} MapModifyFirst<T>(s: seq<T>, p: T -> bool, f: T -> T, g: T -> T)
    requires forall x :: x in s ==> p(g(x)) == p(x)
    requires forall x :: x in s && p(x) ==> g(x) == x && g(f(x)) == f(x)
    ensures Map(ModifyFirst(s, p, f), g) == ModifyFirst(Map(s, g), p, f)
    decreases |s|
  {
    if |s| > 0 {
      assert Map(s, g)[1..] == Map(s[1..], g);
      if !p(s[0]) {
        MapModifyFirst(s[1..], p, f, g);
        var t := ModifyFirst(s[1..], p, f);
        assert Map([s[0]] + t, g) == [g(s[0])] + Map(t, g);
      } else {
        assert Map([f(s[0])] + s[1..], g) == [g(f(s[0]))] + Map(s[1..], g);
      }
    }
  }

  /** Mapping an idempotent function twice is mapping it once. */
  lemma {:induction false} MapIdempotent<T>(s: seq<T>, f: T -> T)
    requires forall x :: x in s ==> f(f(x)) == f(x)
    ensures Map(Map(s, f), f) == Map(s, f)
  {
    MapMap(s, f, f, f);
  }

  /** The elements failing `p` in order, then the elements satisfying `p` in order. */
  function MoveToEnd<T>(s: seq<T>, p: T -> bool): seq<T> {
    Filter(s, Not(p)) + Filter(s, p)
  }

  lemma {:induction false} MoveToEndPermutes<T>(s: seq<T>, p: T -> bool)
    ensures multiset(MoveToEnd(s, p)) == multiset(s)
  {
    FilterSplitMultiset(s, p, Not(p));
  }

  /** Moving the matches to the end keeps both the matches and the others in their order. */
  lemma {:induction false} MoveToEndFilters<T>(s: seq<T>, p: T -> bool)
    ensures Filter(MoveToEnd(s, p), Not(p)) == Filter(s, Not(p))
    ensures Filter(MoveToEnd(s, p), p) == Filter(s, p)
  {
    var a := Filter(s, Not(p));
    var b := Filter(s, p);
    assert Filter(a, Not(p)) == a by {
      FilterMembers(s, Not(p));
      FilterKeepsAll(a, Not(p));
    }
    assert Filter(a, p) == [] by {
      FilterMembers(s, Not(p));
      FilterDropsAll(a, p);
    }
    assert Filter(b, p) == b by {
      FilterMembers(s, p);
      FilterKeepsAll(b, p);
    }
    assert Filter(b, Not(p)) == [] by {
      FilterMembers(s, p);
      FilterDropsAll(b, Not(p));
    }
    FilterAppend(a, b, p);
    FilterAppend(a, b, Not(p));
  }

  /** Moving the matches to the end a second time changes nothing. */
  lemma {:induction false} MoveToEndIdempotent<T>(s: seq<T>, p: T -> bool)
    ensures MoveToEnd(MoveToEnd(s, p), p) == MoveToEnd(s, p)
  {
    MoveToEndFilters(s, p);
  }

  /** `s` with its first `k` matches removed. */
  function DropMatches<T>(s: seq<T>, p: T -> bool, k: nat): seq<T> {
    if k == 0 then s else RemoveFirst(DropMatches(s, p, k - 1), p)
  }

  lemma {:induction false} DropMatchesFilter<T>(s: seq<T>, p: T -> bool, k: nat)
    requires k <= |Filter(s, p)|
    ensures Filter(DropMatches(s, p, k), Not(p)) == Filter(s, Not(p))
    ensures Filter(DropMatches(s, p, k), p) == Filter(s, p)[k..]
  {
    if k > 0 {
      DropMatchesFilter(s, p, k - 1);
      FilterRemoveFirst(DropMatches(s, p, k - 1), p);
      assert Filter(s, p)[k - 1..][1..] == Filter(s, p)[k..];
    }
  }

  /** A sequence without matches is its own complement filter. */
  lemma {:induction false} NoMatchesFilter<T>(s: seq<T>, p: T -> bool)
    requires Filter(s, p) == []
    ensures Filter(s, Not(p)) == s
  {
    FilterMembers(s, p);
    FilterKeepsAll(s, Not(p));
  }

  /** One round of the remove-then-append loop, after `k` matches have been moved. */
  lemma {:induction false} MoveStep<T>(s: seq<T>, p: T -> bool, k: nat)
    requires k < |Filter(s, p)|
    ensures var r := DropMatches(s, p, k) + Filter(s, p)[..k];
      FirstIndex(r, p).Some? &&
      var i := FirstIndex(r, p).value;
      i < |r| &&
      r[..i] + r[i + 1..] + [r[i]] == DropMatches(s, p, k + 1) + Filter(s, p)[..k + 1]
  {
    var matching := Filter(s, p);
    var d := DropMatches(s, p, k);
    var r := d + matching[..k];
    DropMatchesFilter(s, p, k);
    FirstIndexIsFilterHead(d, p);
    var i := FirstIndex(d, p).value;
    FirstIndexAppend(d, matching[..k], p);
    RemoveFirstAt(d, p);
    assert d[i] == matching[k];
    assert r[..i] + r[i + 1..] == RemoveFirst(d, p) + matching[..k];
    assert matching[..k + 1] == matching[..k] + [matching[k]];
  }

  /** Once every match has been moved, the front part holds exactly the non-matches. */
  lemma {:induction false} MoveDone<T>(s: seq<T>, p: T -> bool)
    ensures DropMatches(s, p, |Filter(s, p)|) + Filter(s, p)[..|Filter(s, p)|] == MoveToEnd(s, p)
  {
    var k := |Filter(s, p)|;
    DropMatchesFilter(s, p, k);
    NoMatchesFilter(DropMatches(s, p, k), p);
    assert Filter(s, p)[..k] == Filter(s, p);
  }

  /** The remove-then-append loop: each match, in document order, is taken out
      of the sequence and put back at the end. The result is `MoveToEnd`. */
  method MoveToEndLoop<T>(s: seq<T>, p: T -> bool) returns (r: seq<T>)
    ensures r == MoveToEnd(s, p)
  {
    var matching := Filter(s, p);
    r := s;
    var k := 0;
    while k < |matching|
      invariant 0 <= k <= |matching|
      invariant r == DropMatches(s, p, k) + matching[..k]
    {
      MoveStep(s, p, k);
      var i := FirstIndex(r, p).value;
      r := r[..i] + r[i + 1..] + [r[i]];
      k := k + 1;
    }
    MoveDone(s, p);
  }
}
