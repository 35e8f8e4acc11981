/** The LINQ operators the queries of the system are built from, over
    sequences: `Where`, `FirstOrDefault`, `Count`, a stable `OrderBy`, and the
    largest key of a table, from which its identity counter is kept. */
module Linq {
  import opened Wrappers

  /** `Where`: the elements of `s` that satisfy `p`, in their original order. */
  function Where<T(!new)>(s: seq<T>, p: T -> bool): (r: seq<T>)
    ensures |r| <= |s|
    ensures forall x :: x in r <==> x in s && p(x)
    ensures forall x :: multiset(r)[x] == if p(x) then multiset(s)[x] else 0
  {
    if |s| == 0 then []
    else
      assert s == [s[0]] + s[1..];
      if p(s[0]) then [s[0]] + Where(s[1..], p) else Where(s[1..], p)
  }

  /** `Count(p)`: how many elements of `s` satisfy `p`. */
  function Count<T>(s: seq<T>, p: T -> bool): nat {
    if |s| == 0 then 0 else (if p(s[0]) then 1 else 0) + Count(s[1..], p)
  }

  /** Counting over two elements counts each one that satisfies `p`. */
  lemma CountPair<T>(s: seq<T>, p: T -> bool)
    requires |s| == 2
    ensures Count(s, p) == (if p(s[0]) then 1 else 0) + (if p(s[1]) then 1 else 0)
  {
    var rest := s[1..];
    assert rest[0] == s[1] && rest[1..] == [];
    assert Count(rest, p) == (if p(s[1]) then 1 else 0) + Count(rest[1..], p);
  }

  /** Counting is the length of the filtered sequence. */
  lemma {:induction false} CountIsWhereLength<T(!new)>(s: seq<T>, p: T -> bool)
    ensures Count(s, p) == |Where(s, p)|
  {
    if |s| > 0 {
      CountIsWhereLength(s[1..], p);
    }
  }

  /** Counting by a conjunction is counting by one conjunct among the elements
      the other selects. */
  lemma {:induction false} CountConjunction<T(!new)>(s: seq<T>, p: T -> bool, q: T -> bool, both: T -> bool)
    requires forall x :: x in s ==> both(x) == (p(x) && q(x))
    ensures Count(s, both) == Count(Where(s, p), q)
  {
    if |s| > 0 {
      CountConjunction(s[1..], p, q, both);
      if p(s[0]) {
        assert ([s[0]] + Where(s[1..], p))[1..] == Where(s[1..], p);
      }
    }
  }

  /** Filters that agree on every element of `s` select the same elements. */
  lemma {:induction false} WhereCongruent<T(!new)>(s: seq<T>, p: T -> bool, q: T -> bool)
    requires forall x :: x in s ==> p(x) == q(x)
    ensures Where(s, p) == Where(s, q)
  {
    if |s| > 0 {
      WhereCongruent(s[1..], p, q);
    }
  }

  /** A filter that admits every element changes nothing. */
  lemma {:induction false} WhereAll<T(!new)>(s: seq<T>, p: T -> bool)
    requires forall x :: x in s ==> p(x)
    ensures Where(s, p) == s
  {
    if |s| > 0 {
      WhereAll(s[1..], p);
    }
  }

  /** A filter that admits no element of `s` selects nothing. */
  lemma {:induction false} WhereNone<T(!new)>(s: seq<T>, p: T -> bool)
    requires forall x :: x in s ==> !p(x)
    ensures Where(s, p) == []
  {
    if |s| > 0 {
      WhereNone(s[1..], p);
    }
  }

  /** `Where` is applied element by element, so it distributes over concatenation. */
  lemma {:induction false} WhereAppend<T(!new)>(s: seq<T>, u: seq<T>, p: T -> bool)
    ensures Where(s + u, p) == Where(s, p) + Where(u, p)
  {
    if |s| == 0 {
      assert s + u == u;
    } else {
      assert (s + u)[1..] == s[1..] + u;
      WhereAppend(s[1..], u, p);
    }
  }

  /** `FirstOrDefault(p)`: the first element that satisfies `p`, if any. */
  function FirstWhere<T(!new)>(s: seq<T>, p: T -> bool): (r: Option<T>)
    ensures r.None? <==> forall x :: x in s ==> !p(x)
    ensures r.Some? ==> r.value in s && p(r.value)
  {
    if |s| == 0 then None
    else if p(s[0]) then Some(s[0])
    else FirstWhere(s[1..], p)
  }

  /** What `FirstWhere` finds comes before every other element that satisfies `p`. */
  lemma {:induction false} FirstWhereIsFirst<T(!new)>(s: seq<T>, p: T -> bool, i: nat)
    requires i < |s| && p(s[i])
    ensures FirstWhere(s, p).Some?
    ensures exists k :: 0 <= k <= i && s[k] == FirstWhere(s, p).value
  {
    if !p(s[0]) {
      FirstWhereIsFirst(s[1..], p, i - 1);
      var k :| 0 <= k <= i - 1 && s[1..][k] == FirstWhere(s[1..], p).value;
      assert s[k + 1] == s[1..][k];
    }
  }

  /** No two elements of `s` share a key: a unique index over `key`. */
  predicate UniqueBy<T, K(==)>(s: seq<T>, key: T -> K) {
    forall i, j :: 0 <= i < j < |s| ==> key(s[i]) != key(s[j])
  }

  /** Under a unique index, the key identifies the element. */
  lemma UniqueByMembers<T(!new), K>(s: seq<T>, key: T -> K, x: T, y: T)
    requires UniqueBy(s, key) && x in s && y in s && key(x) == key(y)
    ensures x == y
  {
    var i :| 0 <= i < |s| && s[i] == x;
    var j :| 0 <= j < |s| && s[j] == y;
    assert i == j;
  }

  /** Appending an element whose key is new keeps the index unique. */
  lemma UniqueByAppend<T(!new), K>(s: seq<T>, x: T, key: T -> K)
    requires UniqueBy(s, key)
    requires forall y :: y in s ==> key(y) != key(x)
    ensures UniqueBy(s + [x], key)
  {
    var u := s + [x];
    forall i, j | 0 <= i < j < |u| ensures key(u[i]) != key(u[j]) {
      if j == |s| {
        assert u[i] in s;
      }
    }
  }

  /** A unique index over a non-empty sequence: its tail is unique, and the
      head's key occurs nowhere in the tail. */
  lemma UniqueByCons<T(!new), K>(x: T, w: seq<T>, key: T -> K)
    ensures UniqueBy([x] + w, key) <==> UniqueBy(w, key) && forall y :: y in w ==> key(x) != key(y)
  {
    var u := [x] + w;
    if UniqueBy(u, key) {
      forall i, j | 0 <= i < j < |w| ensures key(w[i]) != key(w[j]) {
        assert w[i] == u[i + 1] && w[j] == u[j + 1];
      }
      forall y | y in w ensures key(x) != key(y) {
        var k :| 0 <= k < |w| && w[k] == y;
        assert u[0] == x && u[k + 1] == y;
        assert key(u[0]) != key(u[k + 1]);
      }
    }
    if UniqueBy(w, key) && forall y :: y in w ==> key(x) != key(y) {
      forall i, j | 0 <= i < j < |u| ensures key(u[i]) != key(u[j]) {
        if i == 0 {
          assert u[j] in w;
        } else {
          assert u[i] == w[i - 1] && u[j] == w[j - 1];
        }
      }
    }
  }

  /** Deleting rows never breaks a unique index. */
  lemma {:induction false} UniqueByWhere<T(!new), K>(s: seq<T>, p: T -> bool, key: T -> K)
    requires UniqueBy(s, key)
    ensures UniqueBy(Where(s, p), key)
  {
    if |s| > 0 {
      assert s == [s[0]] + s[1..];
      UniqueByCons(s[0], s[1..], key);
      UniqueByWhere(s[1..], p, key);
      if p(s[0]) {
        UniqueByCons(s[0], Where(s[1..], p), key);
      }
    }
  }

  /** `le` orders every pair of elements and is transitive. */
  ghost predicate TotalPreorder<T(!new)>(le: (T, T) -> bool) {
    && (forall a, b :: le(a, b) || le(b, a))
    && (forall a, b, c :: le(a, b) && le(b, c) ==> le(a, c))
  }

  /** Every element is `le` every later element. */
  predicate Sorted<T>(s: seq<T>, le: (T, T) -> bool) {
    forall i, j :: 0 <= i < j < |s| ==> le(s[i], s[j])
  }

  /** Places `x` before the first element it is `le` to, so that of two equal
      elements the one inserted later (the earlier in the input) comes first. */
  function Insert<T(!new)>(x: T, s: seq<T>, le: (T, T) -> bool): (r: seq<T>)
    requires TotalPreorder(le)
    requires Sorted(s, le)
    ensures Sorted(r, le)
    ensures multiset(r) == multiset(s) + multiset{x}
    ensures |r| == |s| + 1
  {
    if |s| == 0 then [x]
    else if le(x, s[0]) then
      assert s == [s[0]] + s[1..];
      [x] + s
    else
      assert s == [s[0]] + s[1..];
      var rest := Insert(x, s[1..], le);
      assert le(s[0], x);
      assert forall y :: y in rest ==> le(s[0], y) by {
        forall y | y in rest ensures le(s[0], y) {
          assert y in multiset(rest);
          if y != x {
            assert y in multiset(s[1..]);
            var k :| 0 <= k < |s[1..]| && s[1..][k] == y;
            assert s[k + 1] == y;
          }
        }
      }
      [s[0]] + rest
  }

  /** `OrderBy` with the comparator `le`: a sorted permutation of `s`. */
  function SortBy<T(!new)>(s: seq<T>, le: (T, T) -> bool): (r: seq<T>)
    requires TotalPreorder(le)
    ensures Sorted(r, le)
    ensures multiset(r) == multiset(s)
    ensures |r| == |s|
  {
    if |s| == 0 then []
    else
      assert s == [s[0]] + s[1..];
      Insert(s[0], SortBy(s[1..], le), le)
  }

  /** Membership survives sorting. */
  lemma SortByMembers<T(!new)>(s: seq<T>, le: (T, T) -> bool, x: T)
    requires TotalPreorder(le)
    ensures x in SortBy(s, le) <==> x in s
  {
    var r := SortBy(s, le);
    assert x in r <==> x in multiset(r);
    assert x in s <==> x in multiset(s);
  }

  /** An update by key: every element with `x`'s key takes the value `x`, the
      others stay as they are, in place. */
  function ReplaceBy<T, K(==)>(s: seq<T>, key: T -> K, x: T): seq<T> {
    seq(|s|, i requires 0 <= i < |s| => if key(s[i]) == key(x) then x else s[i])
  }

  /** After an update by key the elements are `x`, when some element had its
      key, and the elements with another key. */
  lemma ReplaceByMembers<T(!new), K>(s: seq<T>, key: T -> K, x: T, y: T)
    ensures y in ReplaceBy(s, key, x) <==>
              (y == x && exists z :: z in s && key(z) == key(x)) || (y in s && key(y) != key(x))
  {
    var r := ReplaceBy(s, key, x);
    if y in r {
      var i :| 0 <= i < |r| && r[i] == y;
      assert s[i] in s;
    }
    if y == x && exists z :: z in s && key(z) == key(x) {
      var z :| z in s && key(z) == key(x);
      var i :| 0 <= i < |s| && s[i] == z;
      assert r[i] == x;
    }
    if y in s && key(y) != key(x) {
      var i :| 0 <= i < |s| && s[i] == y;
      assert r[i] == y;
    }
  }

  /** An update by a unique key keeps a unique index over `other` when the
      new value of `other` is not held by an element the update leaves alone. */
  lemma ReplaceByUnique<T(!new), K, J>(s: seq<T>, key: T -> K, x: T, other: T -> J)
    requires UniqueBy(s, key) && UniqueBy(s, other)
    requires forall y :: y in s && key(y) != key(x) ==> other(y) != other(x)
    ensures UniqueBy(ReplaceBy(s, key, x), other)
  {
    var r := ReplaceBy(s, key, x);
    forall i, j | 0 <= i < j < |r| ensures other(r[i]) != other(r[j]) {
      if key(s[i]) == key(x) && key(s[j]) != key(x) {
        assert s[j] in s;
      } else if key(s[i]) != key(x) && key(s[j]) == key(x) {
        assert s[i] in s;
      }
    }
  }

  /** The largest of `floor` and the keys of `s`. */
  function Highest<T(!new)>(s: seq<T>, key: T -> int, floor: int): (m: int)
    ensures floor <= m
    ensures forall x :: x in s ==> key(x) <= m
    ensures m == floor || exists x :: x in s && key(x) == m
  {
    if |s| == 0 then floor
    else
      assert forall x :: x in s ==> x == s[0] || x in s[1..];
      Highest(s[1..], key, if key(s[0]) > floor then key(s[0]) else floor)
  }

  /** When `floor` bounds every key, appending `x` raises the highest to
      `key(x)` exactly when `key(x)` exceeds `floor`. */
  lemma HighestAppend<T(!new)>(s: seq<T>, key: T -> int, floor: int, x: T)
    requires forall y :: y in s ==> key(y) <= floor
    ensures Highest(s + [x], key, floor) == if key(x) > floor then key(x) else floor
  {
    var m := Highest(s + [x], key, floor);
    assert forall y :: y in s + [x] ==> y in s || y == x;
  }

  /** A floor that bounds every key is the highest. */
  lemma HighestOfBounded<T(!new)>(s: seq<T>, key: T -> int, floor: int)
    requires forall y :: y in s ==> key(y) <= floor
    ensures Highest(s, key, floor) == floor
  {
  }

  /** The keys in use in `s`. */
  function Keys<T, K>(s: seq<T>, key: T -> K): (r: set<K>)
    ensures forall x :: x in s ==> key(x) in r
    ensures |r| <= |s|
  {
    if |s| == 0 then {}
    else
      var rest := Keys(s[1..], key);
      assert forall x :: x in s ==> x == s[0] || x in s[1..];
      if key(s[0]) in rest then rest else rest + {key(s[0])}
  }

  /** Under a unique index whose keys all come from `bound`, there are no more
      elements than keys in `bound`. */
  lemma {:induction false} UniqueKeysBound<T(!new), K>(s: seq<T>, key: T -> K, bound: set<K>)
    requires UniqueBy(s, key)
    requires forall x :: x in s ==> key(x) in bound
    ensures |s| <= |bound|
  {
    if |s| > 0 {
      assert s == [s[0]] + s[1..];
      UniqueByCons(s[0], s[1..], key);
      UniqueKeysBound(s[1..], key, bound - {key(s[0])});
    }
  }

  /** `Select` followed by `Where` over the first `n` elements of `s`, in
      their order. */
  function SelectWhere<T, U>(s: seq<T>, f: T -> U, p: U -> bool, n: nat): seq<U>
    requires n <= |s|
  {
    if n == 0 then []
    else if p(f(s[n - 1])) then SelectWhere(s, f, p, n - 1) + [f(s[n - 1])]
    else SelectWhere(s, f, p, n - 1)
  }

  lemma {:induction false} SelectWhereMembers<T, U>(s: seq<T>, f: T -> U, p: U -> bool, n: nat, y: U)
    requires n <= |s|
    ensures y in SelectWhere(s, f, p, n) <==> p(y) && exists k :: 0 <= k < n && y == f(s[k])
  {
    if n > 0 {
      SelectWhereMembers(s, f, p, n - 1, y);
    }
  }
  lemma SelectWhereAllMembers<T, U>(s: seq<T>, f: T -> U, p: U -> bool, y: U)
    ensures y in SelectWhere(s, f, p, |s|) <==> p(y) && exists x :: x in s && y == f(x)
  {
    SelectWhereMembers(s, f, p, |s|, y);
    if exists x :: x in s && y == f(x) {
      var x :| x in s && y == f(x);
      var k :| 0 <= k < |s| && s[k] == x;
    }
  }


  /** `SelectMany` over the first `n` elements of `s`: their images
      concatenated in order. */
  function SelectMany<T, U>(s: seq<T>, f: T -> seq<U>, n: nat): seq<U>
    requires n <= |s|
  {
    if n == 0 then [] else SelectMany(s, f, n - 1) + f(s[n - 1])
  }

  lemma {:induction false} SelectManyMembers<T, U>(s: seq<T>, f: T -> seq<U>, n: nat, y: U)
    requires n <= |s|
    ensures y in SelectMany(s, f, n) <==> exists k :: 0 <= k < n && y in f(s[k])
  {
    if n > 0 {
      SelectManyMembers(s, f, n - 1, y);
    }
  }
  lemma SelectManyAllMembers<T, U>(s: seq<T>, f: T -> seq<U>, y: U)
    ensures y in SelectMany(s, f, |s|) <==> exists x :: x in s && y in f(x)
  {
    SelectManyMembers(s, f, |s|, y);
    if exists x :: x in s && y in f(x) {
      var x :| x in s && y in f(x);
      var k :| 0 <= k < |s| && s[k] == x;
    }
  }


  /** `Sum`. */
  function Sum(xs: seq<real>): real {
    if |xs| == 0 then 0.0 else xs[0] + Sum(xs[1..])
  }

  /** The sum of values that all lie in [lo, hi] lies in [n * lo, n * hi]. */
  lemma {:induction false} SumBounds(xs: seq<real>, lo: real, hi: real)
    requires forall i :: 0 <= i < |xs| ==> lo <= xs[i] <= hi
    ensures (|xs| as real) * lo <= Sum(xs) <= (|xs| as real) * hi
  {
    if |xs| > 0 {
      SumBounds(xs[1..], lo, hi);
    }
  }

  /** `Average` of a non-empty sequence. */
  function Average(xs: seq<real>): (r: real)
    requires |xs| > 0
    ensures r * (|xs| as real) == Sum(xs)
  {
    Sum(xs) / (|xs| as real)
  }

  /** The average of values that all lie in [lo, hi] lies in [lo, hi]. */
  lemma AverageBounds(xs: seq<real>, lo: real, hi: real)
    requires |xs| > 0
    requires forall i :: 0 <= i < |xs| ==> lo <= xs[i] <= hi
    ensures lo <= Average(xs) <= hi
  {
    SumBounds(xs, lo, hi);
    var n := |xs| as real;
    var a := Average(xs);
    assert a * n >= lo * n;
    assert a * n <= hi * n;
  }
}
