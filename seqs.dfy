/**
 * Sequence operations the source gets from JavaScript's built-ins: an
 * insertion-ordered `Set` built from a list (`Array.from(new Set(xs))`),
 * the stable `Array.prototype.sort` with a descending numeric comparator,
 * and `slice(0, n)`.
 */
module Seqs {

  /** The set of elements of `s`. */
  function Elems<T>(s: seq<T>): set<T> {
    set x | x in s
  }

  lemma ElemsSnoc<T>(s: seq<T>, x: T)
    ensures Elems(s + [x]) == Elems(s) + {x}
  {
  }

  /** Every element of a prefix of `t` is an element of `t`. */
  lemma PrefixElems<T>(s: seq<T>, t: seq<T>)
    requires |s| <= |t| && t[..|s|] == s
    ensures forall x :: x in s ==> x in t
  {
    forall x | x in s ensures x in t {
      var i :| 0 <= i < |s| && s[i] == x;
      assert t[i] == x;
    }
  }

  predicate Distinct<T(==)>(s: seq<T>) {
    forall i, j :: 0 <= i < j < |s| ==> s[i] != s[j]
  }

  /** The number of occurrences of `x` in `s`. */
  function Count<T(==)>(s: seq<T>, x: T): (n: nat)
    ensures n <= |s|
    ensures n > 0 <==> x in s
  {
    if s == [] then 0
    else
      assert s == s[..|s| - 1] + [s[|s| - 1]];
      Count(s[..|s| - 1], x) + (if s[|s| - 1] == x then 1 else 0)
  }

  lemma {:induction false} CountAppend<T>(a: seq<T>, b: seq<T>, x: T)
    ensures Count(a + b, x) == Count(a, x) + Count(b, x)
  {
    if b != [] {
      var c := b[..|b| - 1];
      CountAppend(a, c, x);
      assert (a + b)[..|a + b| - 1] == a + c;
      assert (a + b)[|a + b| - 1] == b[|b| - 1];
      assert Count(b, x) == Count(c, x) + (if b[|b| - 1] == x then 1 else 0);
    } else {
      assert a + b == a;
    }
  }

  /** The number of elements of `s` that occur in `ids`. */
  function CountIn<T(==)>(s: seq<T>, ids: seq<T>): (n: nat)
    ensures n <= |s|
  {
    if s == [] then 0 else CountIn(s[..|s| - 1], ids) + (if s[|s| - 1] in ids then 1 else 0)
  }

  /** The occurrences in `s` of each of `ids`, added up. */
  function SumCounts<T(==)>(s: seq<T>, ids: seq<T>): nat {
    if ids == [] then 0 else SumCounts(s, ids[..|ids| - 1]) + Count(s, ids[|ids| - 1])
  }

  /** One more element of `s` adds one to the sum exactly when it is one of the distinct `ids`. */
  lemma {:induction false} SumCountsSnoc<T>(s: seq<T>, x: T, ids: seq<T>)
    requires Distinct(ids)
    ensures SumCounts(s + [x], ids) == SumCounts(s, ids) + (if x in ids then 1 else 0)
  {
    if ids != [] {
      var p, y := ids[..|ids| - 1], ids[|ids| - 1];
      assert ids == p + [y];
      SumCountsSnoc(s, x, p);
      assert (s + [x])[..|s|] == s;
      assert x in ids <==> x in p || x == y;
      assert !(x in p && x == y);
    }
  }

  /** Over distinct `ids`, the summed counts count the elements of `s` found in `ids`. */
  lemma {:induction false} SumCountsIsCountIn<T>(s: seq<T>, ids: seq<T>)
    requires Distinct(ids)
    ensures SumCounts(s, ids) == CountIn(s, ids)
  {
    if s == [] {
      SumCountsEmpty(ids);
    } else {
      var p := s[..|s| - 1];
      assert s == p + [s[|s| - 1]];
      SumCountsIsCountIn(p, ids);
      SumCountsSnoc(p, s[|s| - 1], ids);
    }
  }

  lemma {:induction false} SumCountsEmpty<T>(ids: seq<T>)
    ensures SumCounts([], ids) == 0
  {
    if ids != [] {
      SumCountsEmpty(ids[..|ids| - 1]);
    }
  }

  /** Counting over one more element of `s`. */
  lemma CountPrefixSnoc<T>(s: seq<T>, j: nat)
    requires j < |s|
    ensures forall x :: Count(s[..j + 1], x) == Count(s[..j], x) + (if s[j] == x then 1 else 0)
  {
    assert s[..j + 1][..j] == s[..j];
  }

  /** `s[j]` occurs in `s` at least once more than in `s[..j]`. */
  lemma CountPrefixBound<T>(s: seq<T>, j: nat)
    requires j < |s|
    ensures Count(s[..j], s[j]) + 1 <= Count(s, s[j])
  {
    CountPrefixSnoc(s, j);
    assert s == s[..j + 1] + s[j + 1..];
    CountAppend(s[..j + 1], s[j + 1..], s[j]);
  }

  lemma DistinctSnoc<T>(s: seq<T>, x: T)
    requires Distinct(s) && x !in s
    ensures Distinct(s + [x])
  {
  }

  lemma PrefixSnoc<T>(s: seq<T>, i: nat)
    requires i < |s|
    ensures s[..i + 1] == s[..i] + [s[i]]
  {
  }

  /** Extending a prefix of `b` after `a` by one element. */
  lemma AppendPrefixSnoc<T>(a: seq<T>, b: seq<T>, i: nat)
    requires i < |b|
    ensures a + b[..i + 1] == a + b[..i] + [b[i]]
  {
    assert b[..i + 1] == b[..i] + [b[i]];
  }

  /** The position of the first occurrence of `x` in `s`. */
  function FirstIndex<T(==)>(s: seq<T>, x: T): (i: nat)
    requires x in s
    ensures i < |s| && s[i] == x && x !in s[..i]
  {
    if s[0] == x then 0 else 1 + FirstIndex(s[1..], x)
  }

  lemma {:induction false} FirstIndexOfPrefix<T>(s: seq<T>, n: nat, x: T)
    requires n <= |s| && x in s[..n]
    ensures FirstIndex(s, x) == FirstIndex(s[..n], x)
  {
    if s[0] != x {
      assert s[..n][1..] == s[1..][..n - 1];
      FirstIndexOfPrefix(s[1..], n - 1, x);
    }
  }

  /**
   * The distinct elements of `s` in the order of their first occurrence,
   * as `Array.from(new Set(s))` lists them.
   */
  function Dedup<T(==)>(s: seq<T>): (r: seq<T>)
    ensures Distinct(r)
    ensures forall i :: 0 <= i < |r| ==> r[i] in s
    ensures forall i :: 0 <= i < |s| ==> s[i] in r
  {
    if s == [] then []
    else
      var r := Dedup(s[..|s| - 1]);
      if s[|s| - 1] in r then r else r + [s[|s| - 1]]
  }

  /** Dedup keeps exactly the elements of `s`. */
  lemma DedupMembers<T>(s: seq<T>)
    ensures forall x :: x in Dedup(s) <==> x in s
  {
    forall x ensures x in Dedup(s) <==> x in s {
      if x in s {
        var i :| 0 <= i < |s| && s[i] == x;
      }
      if x in Dedup(s) {
        var i :| 0 <= i < |Dedup(s)| && Dedup(s)[i] == x;
      }
    }
  }

  /** A list has two distinct elements exactly when its Dedup has more than one. */
  lemma DedupMoreThanOne<T>(s: seq<T>)
    ensures |Dedup(s)| > 1 <==> exists a, b :: a in s && b in s && a != b
  {
    var d := Dedup(s);
    DedupMembers(s);
    if |d| > 1 {
      assert d[0] in s && d[1] in s && d[0] != d[1];
    }
    if exists a, b :: a in s && b in s && a != b {
      var a, b :| a in s && b in s && a != b;
      assert a in d && b in d;
    }
  }

  /** Dedup of a list with one more element. */
  lemma DedupSnoc<T>(s: seq<T>, x: T)
    ensures Dedup(s + [x]) == if x in s then Dedup(s) else Dedup(s) + [x]
  {
    assert (s + [x])[..|s + [x]| - 1] == s;
    DedupMembers(s);
  }

  /** The Dedup of a list with one more element, and its element set, from the Dedup of the list. */
  lemma DedupAdd<T>(s: seq<T>, x: T, keys: set<T>)
    requires keys == Elems(Dedup(s))
    ensures (if x in keys then Dedup(s) else Dedup(s) + [x]) == Dedup(s + [x])
    ensures keys + {x} == Elems(if x in keys then Dedup(s) else Dedup(s) + [x])
  {
    DedupSnoc(s, x);
    DedupMembers(s);
    ElemsSnoc(Dedup(s), x);
  }

  /** Dedup lists the elements in the order of their first occurrence in `s`. */
  lemma {:induction false} DedupOrder<T>(s: seq<T>)
    ensures forall i, j :: 0 <= i < j < |Dedup(s)| ==> FirstIndex(s, Dedup(s)[i]) < FirstIndex(s, Dedup(s)[j])
  {
    if s != [] {
      var p := s[..|s| - 1];
      var x := s[|s| - 1];
      DedupOrder(p);
      var r := Dedup(p);
      var q := Dedup(s);
      assert s == p + [x];
      forall i, j | 0 <= i < j < |q| ensures FirstIndex(s, q[i]) < FirstIndex(s, q[j]) {
        assert q[i] == r[i];
        FirstIndexOfPrefix(s, |s| - 1, q[i]);
        if j < |r| {
          assert q[j] == r[j];
          FirstIndexOfPrefix(s, |s| - 1, q[j]);
        } else {
          assert q[j] == x && x !in p;
          assert FirstIndex(s, x) == |s| - 1;
        }
      }
    }
  }

  /** Elements listed by non-increasing `key`. */
  predicate NonIncreasing<T>(s: seq<T>, key: T -> int) {
    forall i, j :: 0 <= i < j < |s| ==> key(s[i]) >= key(s[j])
  }

  /**
   * `x` inserted into `r` in front of the first element whose key is at most
   * its own: into a list sorted by non-increasing key, after every element
   * with a larger key and before every element with an equal one.
   */
  function InsertDesc<T>(x: T, r: seq<T>, key: T -> int): (q: seq<T>)
    ensures multiset(q) == multiset(r) + multiset{x}
    ensures |q| == |r| + 1
    ensures q[0] == x || (r != [] && q[0] == r[0])
  {
    if r == [] || key(x) >= key(r[0]) then [x] + r
    else
      var q' := InsertDesc(x, r[1..], key);
      assert r == [r[0]] + r[1..];
      [r[0]] + q'
  }

  /** Inserting into a list sorted by non-increasing key keeps it sorted. */
  lemma {:induction false} InsertDescSorted<T>(x: T, r: seq<T>, key: T -> int)
    requires NonIncreasing(r, key)
    ensures NonIncreasing(InsertDesc(x, r, key), key)
  {
    if r != [] && key(x) < key(r[0]) {
      var q' := InsertDesc(x, r[1..], key);
      assert NonIncreasing(r[1..], key) by {
        forall i, j | 0 <= i < j < |r[1..]| ensures key(r[1..][i]) >= key(r[1..][j]) {
          assert r[1..][i] == r[i + 1] && r[1..][j] == r[j + 1];
        }
      }
      InsertDescSorted(x, r[1..], key);
      forall k | 0 <= k < |r[1..]| ensures key(r[1..][k]) <= key(r[0]) {
        assert r[1..][k] == r[k + 1];
      }
      InsertDescBelow(x, r[1..], key, key(r[0]));
      var q := [r[0]] + q';
      forall i, j | 0 <= i < j < |q| ensures key(q[i]) >= key(q[j]) {
        assert q[j] == q'[j - 1];
        if i > 0 {
          assert q[i] == q'[i - 1];
        }
      }
    }
  }

  /** Inserting below a bound keeps every key below it. */
  lemma {:induction false} InsertDescBelow<T>(x: T, r: seq<T>, key: T -> int, b: int)
    requires key(x) <= b && forall k :: 0 <= k < |r| ==> key(r[k]) <= b
    ensures forall k :: 0 <= k < |InsertDesc(x, r, key)| ==> key(InsertDesc(x, r, key)[k]) <= b
  {
    if r != [] && key(x) < key(r[0]) {
      forall k | 0 <= k < |r[1..]| ensures key(r[1..][k]) <= b {
        assert r[1..][k] == r[k + 1];
      }
      InsertDescBelow(x, r[1..], key, b);
    }
  }

  /**
   * The stable sort of `s` by non-increasing `key`, as
   * `[...s].sort((a, b) => key(b) - key(a))` orders it: elements with equal
   * keys keep their relative order.
   */
  function SortDesc<T>(s: seq<T>, key: T -> int): (r: seq<T>)
    ensures multiset(r) == multiset(s)
    ensures |r| == |s|
    ensures NonIncreasing(r, key)
  {
    if s == [] then []
    else
      assert s == [s[0]] + s[1..];
      var r := SortDesc(s[1..], key);
      InsertDescSorted(s[0], r, key);
      InsertDesc(s[0], r, key)
  }

  /** The elements of `s` whose key is `v`, in their order in `s`. */
  function WithKey<T>(s: seq<T>, key: T -> int, v: int): (r: seq<T>)
    ensures |r| <= |s|
  {
    if s == [] then [] else (if key(s[0]) == v then [s[0]] else []) + WithKey(s[1..], key, v)
  }

  lemma WithKeyCons<T>(y: T, t: seq<T>, key: T -> int, v: int)
    ensures WithKey([y] + t, key, v) == (if key(y) == v then [y] else []) + WithKey(t, key, v)
  {
    assert ([y] + t)[1..] == t;
  }

  /** An inserted element goes in front of every element of equal key. */
  lemma {:induction false} InsertDescWithKey<T>(x: T, r: seq<T>, key: T -> int, v: int)
    ensures WithKey(InsertDesc(x, r, key), key, v) == (if key(x) == v then [x] else []) + WithKey(r, key, v)
  {
    if r == [] || key(x) >= key(r[0]) {
      WithKeyCons(x, r, key, v);
    } else {
      var rest := InsertDesc(x, r[1..], key);
      assert InsertDesc(x, r, key) == [r[0]] + rest;
      assert r == [r[0]] + r[1..];
      WithKeyCons(r[0], rest, key, v);
      WithKeyCons(r[0], r[1..], key, v);
      InsertDescWithKey(x, r[1..], key, v);
      if key(x) == v {
        assert key(r[0]) != v;
      }
    }
  }

  /**
   * The sort is stable: the elements sharing any one key value come out in
   * the order they had in `s`.
   */
  lemma {:induction false} SortDescStable<T>(s: seq<T>, key: T -> int, v: int)
    ensures WithKey(SortDesc(s, key), key, v) == WithKey(s, key, v)
  {
    if s != [] {
      SortDescStable(s[1..], key, v);
      InsertDescWithKey(s[0], SortDesc(s[1..], key), key, v);
    }
  }

  /** The elements of key `v` in a prefix are the first ones of key `v` in the whole list. */
  lemma {:induction false} WithKeyPrefix<T>(s: seq<T>, n: nat, key: T -> int, v: int)
    requires n <= |s|
    ensures WithKey(s[..n], key, v) <= WithKey(s, key, v)
  {
    if n > 0 {
      var first: seq<T> := if key(s[0]) == v then [s[0]] else [];
      WithKeyPrefix(s[1..], n - 1, key, v);
      assert s[..n] == [s[0]] + s[1..][..n - 1];
      WithKeyCons(s[0], s[1..][..n - 1], key, v);
      assert s == [s[0]] + s[1..];
      WithKeyCons(s[0], s[1..], key, v);
    }
  }

  function Min(a: nat, b: nat): nat {
    if a <= b then a else b
  }

  /** `Math.max` on naturals. */
  function Max(a: nat, b: nat): nat {
    if a >= b then a else b
  }

  /** `s.slice(0, n)` for a non-negative `n`. */
  function Take<T>(s: seq<T>, n: nat): (r: seq<T>)
    ensures |r| == Min(n, |s|)
    ensures r == s[..|r|]
  {
    if n <= |s| then s[..n] else s
  }

  /**
   * The first `n` entries of the sorted list are the `n` largest: every
   * element of `s` left out of them has a key no greater than any of theirs.
   */
  lemma {:induction false} TakeOfSortedIsTop<T>(s: seq<T>, key: T -> int, n: nat)
    ensures var top := Take(SortDesc(s, key), n);
      && multiset(top) <= multiset(s)
      && forall x :: x in multiset(s) - multiset(top) ==>
           forall j :: 0 <= j < |top| ==> key(x) <= key(top[j])
  {
    var r := SortDesc(s, key);
    var top := Take(r, n);
    var k := |top|;
    assert r == top + r[k..];
    assert multiset(r) == multiset(top) + multiset(r[k..]);
    forall x | x in multiset(s) - multiset(top)
      ensures forall j :: 0 <= j < |top| ==> key(x) <= key(top[j])
    {
      assert x in multiset(r[k..]);
      var m :| 0 <= m < |r[k..]| && r[k..][m] == x;
      assert r[k + m] == x;
    }
  }
}
