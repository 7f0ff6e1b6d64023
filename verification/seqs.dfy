/** Sequence operations that stand for what the database layer does with rows:
    find the first matching row, select all matching rows, count them, and key a
    result set by its first column. */
module Seqs {
  import opened Platform

  /** Index of the first element satisfying `p`, or -1 when there is none. */
  function FirstIndex<T>(s: seq<T>, p: T -> bool): (i: int)
    ensures -1 <= i < |s|
    ensures 0 <= i ==> p(s[i])
    ensures forall j :: 0 <= j < |s| && (i < 0 || j < i) ==> !p(s[j])
  {
    if |s| == 0 then -1
    else if p(s[0]) then 0
    else
      var k := FirstIndex(s[1..], p);
      if k < 0 then -1 else k + 1
  }

  /** The first element satisfying `p` (a read that ignores further matches). */
  function First<T(!new)>(s: seq<T>, p: T -> bool): (r: Option<T>)
    ensures r.None? <==> forall x :: x in s ==> !p(x)
    ensures r.Some? ==> r.value in s && p(r.value)
  {
    var i := FirstIndex(s, p);
    if i < 0 then None else Some(s[i])
  }

  /** The elements satisfying `p`, in their original order. */
  function Filter<T(!new)>(s: seq<T>, p: T -> bool): (r: seq<T>)
    ensures |r| <= |s|
    ensures forall x :: x in r <==> x in s && p(x)
    ensures |r| > 0 ==> FirstIndex(s, p) >= 0 && r[0] == s[FirstIndex(s, p)]
    ensures |r| == 0 ==> FirstIndex(s, p) < 0
  {
    if |s| == 0 then []
    else if p(s[0]) then [s[0]] + Filter(s[1..], p)
    else Filter(s[1..], p)
  }

  /** How many elements satisfy `p`. */
  function Count<T(!new)>(s: seq<T>, p: T -> bool): (n: nat)
    ensures n <= |s|
    ensures n == |Filter(s, p)|
  {
    if |s| == 0 then 0
    else (if p(s[0]) then 1 else 0) + Count(s[1..], p)
  }

  /** Counting distributes over concatenation. */
  lemma {:induction false} CountAppend<T(!new)>(a: seq<T>, b: seq<T>, p: T -> bool)
    ensures Count(a + b, p) == Count(a, p) + Count(b, p)
    decreases |a|
  {
    if |a| == 0 {
      assert a + b == b;
    } else {
      assert (a + b)[1..] == a[1..] + b;
      CountAppend(a[1..], b, p);
    }
  }

  /** The images under `f` of the elements of `s` that `keep` accepts, in
      order (PHP's `array_map` followed by a filter). */
  function KeptImages<A, B(!new)>(s: seq<A>, f: A -> B, keep: B -> bool): (r: seq<B>)
    ensures |r| <= |s|
    ensures forall y :: y in r <==> exists i :: 0 <= i < |s| && y == f(s[i]) && keep(y)
  {
    if |s| == 0 then []
    else
      var rest := KeptImages(s[1..], f, keep);
      assert forall i :: 0 < i < |s| ==> s[i] == s[1..][i - 1];
      (if keep(f(s[0])) then [f(s[0])] else []) + rest
  }

  /** The values `f` yields for the elements of `s`, in order, skipping the
      elements it yields nothing for (a join that drops unmatched rows). */
  function Collect<A, B(!new)>(s: seq<A>, f: A -> Option<B>): (r: seq<B>)
    ensures |r| <= |s|
    ensures forall y :: y in r <==> exists i :: 0 <= i < |s| && f(s[i]) == Some(y)
  {
    if |s| == 0 then []
    else
      var rest := Collect(s[1..], f);
      assert forall i :: 0 < i < |s| ==> s[i] == s[1..][i - 1];
      (if f(s[0]).Some? then [f(s[0]).value] else []) + rest
  }

  /** `Collect` yields one value for each element `f` is defined on. */
  lemma {:induction false} CollectCount<A(!new), B(!new)>(s: seq<A>, f: A -> Option<B>, defined: A -> bool)
    requires forall x :: x in s ==> defined(x) == f(x).Some?
    ensures |Collect(s, f)| == Count(s, defined)
    decreases |s|
  {
    if |s| > 0 {
      assert forall x :: x in s[1..] ==> x in s;
      CollectCount(s[1..], f, defined);
    }
  }

  /** Rows that agree on `p` position by position have their first match at
      the same position. */
  lemma {:induction false} FirstIndexAgree<T>(s: seq<T>, t: seq<T>, p: T -> bool)
    requires |s| == |t|
    requires forall i :: 0 <= i < |s| ==> p(s[i]) == p(t[i])
    ensures FirstIndex(s, p) == FirstIndex(t, p)
    decreases |s|
  {
    if |s| > 0 {
      assert p(s[0]) == p(t[0]);
      forall i | 0 <= i < |s| - 1 ensures p(s[1..][i]) == p(t[1..][i]) {
        assert s[1..][i] == s[i + 1] && t[1..][i] == t[i + 1];
      }
      FirstIndexAgree(s[1..], t[1..], p);
    }
  }

  /** `set_field`: applies `change` to every row whose key is `k`, in place. */
  function SetWhere<T>(rows: seq<T>, key: T -> int, k: int, change: T -> T): (r: seq<T>)
    ensures |r| == |rows|
    ensures forall i :: 0 <= i < |rows| && key(rows[i]) != k ==> r[i] == rows[i]
    ensures forall i :: 0 <= i < |rows| && key(rows[i]) == k ==> r[i] == change(rows[i])
  {
    seq(|rows|, i requires 0 <= i < |rows| => if key(rows[i]) == k then change(rows[i]) else rows[i])
  }

  /** The values `f` yields for the pairs of an element of `s` and an element
      of `t` (a join of two tables), grouped by the element of `s`. */
  function CollectPairs<A, B, C(!new)>(s: seq<A>, t: seq<B>, f: (A, B) -> Option<C>): seq<C> {
    if |s| == 0 then []
    else Collect(t, (b: B) => f(s[0], b)) + CollectPairs(s[1..], t, f)
  }

  lemma {:induction false} CollectPairsMembers<A, B, C(!new)>(s: seq<A>, t: seq<B>, f: (A, B) -> Option<C>, x: C)
    ensures x in CollectPairs(s, t, f) <==> exists i, j :: 0 <= i < |s| && 0 <= j < |t| && f(s[i], t[j]) == Some(x)
    decreases |s|
  {
    if |s| > 0 {
      CollectPairsMembers(s[1..], t, f, x);
      var head := Collect(t, (b: B) => f(s[0], b));
      if x in head {
        var j :| 0 <= j < |t| && f(s[0], t[j]) == Some(x);
        assert f(s[0], t[j]) == Some(x);
      }
      if exists i, j :: 0 <= i < |s| && 0 <= j < |t| && f(s[i], t[j]) == Some(x) {
        var i, j :| 0 <= i < |s| && 0 <= j < |t| && f(s[i], t[j]) == Some(x);
        if i > 0 {
          assert s[1..][i - 1] == s[i];
        }
      }
    }
  }

  /** Replacing one element changes the count by what the old and the new
      element contribute. */
  lemma {:induction false} CountUpdate<T(!new)>(s: seq<T>, k: int, x: T, p: T -> bool)
    requires 0 <= k < |s|
    ensures Count(s[k := x], p) == Count(s, p) - (if p(s[k]) then 1 else 0) + (if p(x) then 1 else 0)
    decreases |s|
  {
    if k > 0 {
      assert s[k := x][1..] == s[1..][k - 1 := x];
      CountUpdate(s[1..], k - 1, x, p);
    } else {
      assert s[k := x][1..] == s[1..];
    }
  }

  /** Predicates that agree on `s` count the same. */
  lemma {:induction false} CountSame<T(!new)>(s: seq<T>, p: T -> bool, q: T -> bool)
    requires forall x :: x in s ==> p(x) == q(x)
    ensures Count(s, p) == Count(s, q)
    decreases |s|
  {
    if |s| > 0 {
      assert forall x :: x in s[1..] ==> x in s;
      CountSame(s[1..], p, q);
    }
  }

  /** The keys occurring in `s`. */
  ghost function KeySet<T>(s: seq<T>, key: T -> int): set<int> {
    set i | 0 <= i < |s| :: key(s[i])
  }

  /** No key occurs twice. */
  ghost predicate DistinctKeys<T>(s: seq<T>, key: T -> int) {
    forall i, j :: 0 <= i < j < |s| ==> key(s[i]) != key(s[j])
  }

  /** `x` is the last element of `rows` that carries its key. */
  ghost predicate LastWithKey<T>(rows: seq<T>, key: T -> int, x: T) {
    exists j :: 0 <= j < |rows| && rows[j] == x &&
      forall k :: j < k < |rows| ==> key(rows[k]) != key(x)
  }

  /** Position of the element with key `k`, or -1. */
  function KeyIndex<T>(s: seq<T>, key: T -> int, k: int): (i: int)
    ensures -1 <= i < |s|
    ensures 0 <= i ==> key(s[i]) == k
    ensures i < 0 ==> forall j :: 0 <= j < |s| ==> key(s[j]) != k
  {
    FirstIndex(s, (x: T) => key(x) == k)
  }

  /** Adds one fetched row to a result array keyed by `key`: a row whose key is
      already present overwrites the earlier row in place. */
  function Absorb<T>(acc: seq<T>, x: T, key: T -> int): seq<T> {
    var i := KeyIndex(acc, key, key(x));
    if i < 0 then acc + [x] else acc[i := x]
  }

  /** The array a database layer builds when it keys fetched rows by their first
      column: one entry per key, each holding the last row with that key. */
  function Collapse<T>(rows: seq<T>, key: T -> int): (r: seq<T>)
    ensures DistinctKeys(r, key)
    ensures KeySet(r, key) == KeySet(rows, key)
    ensures forall i :: 0 <= i < |r| ==> LastWithKey(rows, key, r[i])
    ensures |r| <= |rows|
    decreases |rows|
  {
    if |rows| == 0 then []
    else
      var acc := Collapse(rows[..|rows| - 1], key);
      AbsorbStep(rows, key, acc);
      Absorb(acc, rows[|rows| - 1], key)
  }

  /** Each key of `r` first occurs in `rows` before the keys after it. */
  ghost predicate FirstAppearanceOrder<T>(r: seq<T>, rows: seq<T>, key: T -> int) {
    forall i, j :: 0 <= i < j < |r| ==> KeyIndex(rows, key, key(r[i])) < KeyIndex(rows, key, key(r[j]))
  }

  /** A key already present in a prefix first occurs at the same position in
      the longer sequence. */
  lemma KeyIndexExtend<T>(init: seq<T>, x: T, key: T -> int, k: int)
    requires KeyIndex(init, key, k) >= 0
    ensures KeyIndex(init + [x], key, k) == KeyIndex(init, key, k)
  {
    var m := KeyIndex(init, key, k);
    assert (init + [x])[m] == init[m];
  }

  /** The collapsed array keeps its keys in the order of their first
      appearance among the fetched rows. */
  lemma {:induction false} CollapseOrder<T>(rows: seq<T>, key: T -> int)
    ensures FirstAppearanceOrder(Collapse(rows, key), rows, key)
    decreases |rows|
  {
    if |rows| > 0 {
      var n := |rows| - 1;
      var init := rows[..n];
      var x := rows[n];
      assert rows == init + [x];
      var acc := Collapse(init, key);
      CollapseOrder(init, key);
      var r := Collapse(rows, key);
      assert r == Absorb(acc, x, key);
      forall m | 0 <= m < |acc|
        ensures KeyIndex(rows, key, key(acc[m])) == KeyIndex(init, key, key(acc[m])) >= 0
      {
        assert key(acc[m]) in KeySet(init, key);
        KeyIndexExtend(init, x, key, key(acc[m]));
      }
      var i := KeyIndex(acc, key, key(x));
      if i < 0 {
        assert key(x) !in KeySet(init, key) by {
          assert key(x) !in KeySet(acc, key);
        }
        assert KeyIndex(rows, key, key(x)) == n;
        forall a, b | 0 <= a < b < |r|
          ensures KeyIndex(rows, key, key(r[a])) < KeyIndex(rows, key, key(r[b]))
        {
          assert r[a] == acc[a];
          if b < |acc| { assert r[b] == acc[b]; }
        }
      } else {
        forall a, b | 0 <= a < b < |r|
          ensures KeyIndex(rows, key, key(r[a])) < KeyIndex(rows, key, key(r[b]))
        {
          assert key(r[a]) == key(acc[a]);
          assert key(r[b]) == key(acc[b]);
        }
      }
    }
  }

  /** One step of `Collapse`: absorbing the last row into the collapsed prefix
      keeps every promise of `Collapse` for the longer sequence. */
  lemma AbsorbStep<T>(rows: seq<T>, key: T -> int, acc: seq<T>)
    requires |rows| > 0
    requires DistinctKeys(acc, key)
    requires KeySet(acc, key) == KeySet(rows[..|rows| - 1], key)
    requires forall i :: 0 <= i < |acc| ==> LastWithKey(rows[..|rows| - 1], key, acc[i])
    requires |acc| <= |rows| - 1
    ensures var r := Absorb(acc, rows[|rows| - 1], key);
      && DistinctKeys(r, key)
      && KeySet(r, key) == KeySet(rows, key)
      && (forall i :: 0 <= i < |r| ==> LastWithKey(rows, key, r[i]))
      && |r| <= |rows|
  {
    var n := |rows| - 1;
    var init := rows[..n];
    var x := rows[n];
    AbsorbLast(rows, key, acc);
    KeySetSnoc(init, x, key);
    assert rows == init + [x];
    AbsorbKeys(acc, x, key);
  }
  /** After absorbing the last row, every entry is still the last row with
      its key. */
  lemma AbsorbLast<T>(rows: seq<T>, key: T -> int, acc: seq<T>)
    requires |rows| > 0
    requires DistinctKeys(acc, key)
    requires forall i :: 0 <= i < |acc| ==> LastWithKey(rows[..|rows| - 1], key, acc[i])
    ensures var r := Absorb(acc, rows[|rows| - 1], key);
      forall i :: 0 <= i < |r| ==> LastWithKey(rows, key, r[i])
  {
    var n := |rows| - 1;
    var init := rows[..n];
    var x := rows[n];
    var r := Absorb(acc, x, key);
    assert LastWithKey(rows, key, x) by {
      assert rows[n] == x;
    }
    forall m | 0 <= m < |r| && r[m] != x
      ensures LastWithKey(rows, key, r[m])
    {
      assert r[m] == acc[m];
      assert LastWithKey(init, key, acc[m]);
      var j :| 0 <= j < |init| && init[j] == acc[m] &&
        forall k :: j < k < |init| ==> key(init[k]) != key(acc[m]);
      assert key(acc[m]) != key(x);
      assert rows[j] == acc[m];
    }
  }

  /** Appending a row adds its key. */
  lemma KeySetSnoc<T>(init: seq<T>, x: T, key: T -> int)
    ensures KeySet(init + [x], key) == KeySet(init, key) + {key(x)}
  {
    var rows := init + [x];
    forall k | k in KeySet(rows, key) ensures k in KeySet(init, key) + {key(x)} {
      var j :| 0 <= j < |rows| && key(rows[j]) == k;
      if j < |init| { assert rows[j] == init[j]; }
    }
    forall k | k in KeySet(init, key) ensures k in KeySet(rows, key) {
      var j :| 0 <= j < |init| && key(init[j]) == k;
      assert rows[j] == init[j];
    }
    assert rows[|init|] == x;
  }

  /** Absorbing a row adds its key and no other. */
  lemma AbsorbKeys<T>(acc: seq<T>, x: T, key: T -> int)
    ensures KeySet(Absorb(acc, x, key), key) == KeySet(acc, key) + {key(x)}
  {
    var i := KeyIndex(acc, key, key(x));
    var r := Absorb(acc, x, key);
    if i < 0 {
      KeySetSnoc(acc, x, key);
    } else {
      forall k | k in KeySet(r, key) ensures k in KeySet(acc, key) + {key(x)} {
        var j :| 0 <= j < |r| && key(r[j]) == k;
        if j != i { assert r[j] == acc[j]; }
      }
      forall k | k in KeySet(acc, key) ensures k in KeySet(r, key) {
        var j :| 0 <= j < |acc| && key(acc[j]) == k;
        if j != i { assert r[j] == acc[j]; } else { assert key(r[i]) == k; }
      }
    }
  }

}
