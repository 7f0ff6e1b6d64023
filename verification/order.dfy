/** Orderings used by the handlers' ORDER BY clauses, a sort that realises
    them, and the fact that keying a sorted result set by its first column keeps
    it sorted. */
module Order {
  import opened Seqs

  /** `le` is total and transitive: a valid ORDER BY comparison. */
  ghost predicate TotalPreorder<T(!new)>(le: (T, T) -> bool) {
    && (forall a, b :: le(a, b) || le(b, a))
    && (forall a, b, c :: le(a, b) && le(b, c) ==> le(a, c))
  }

  /** Every element is ordered before every later one. */
  ghost predicate SortedBy<T>(s: seq<T>, le: (T, T) -> bool) {
    forall i, j :: 0 <= i < j < |s| ==> le(s[i], s[j])
  }

  /** Lexicographic order on text by code point: `ORDER BY name ASC`. */
  predicate StrLe(a: string, b: string)
    decreases |a|
  {
    if |a| == 0 then true
    else if |b| == 0 then false
    else if a[0] != b[0] then a[0] < b[0]
    else StrLe(a[1..], b[1..])
  }

  /** Any two texts are comparable. */
  lemma {:induction false} StrLeTotal(a: string, b: string)
    ensures StrLe(a, b) || StrLe(b, a)
    decreases |a|
  {
    if |a| > 0 && |b| > 0 && a[0] == b[0] {
      StrLeTotal(a[1..], b[1..]);
    }
  }

  /** Text order is transitive. */
  lemma {:induction false} StrLeTrans(a: string, b: string, c: string)
    requires StrLe(a, b) && StrLe(b, c)
    ensures StrLe(a, c)
    decreases |a|
  {
    if |a| > 0 && |b| > 0 && |c| > 0 && a[0] == b[0] && b[0] == c[0] {
      StrLeTrans(a[1..], b[1..], c[1..]);
    }
  }

  /** Text order is antisymmetric: two texts ordered both ways are equal. */
  lemma {:induction false} StrLeAntisym(a: string, b: string)
    requires StrLe(a, b) && StrLe(b, a)
    ensures a == b
    decreases |a|
  {
    if |a| > 0 {
      StrLeAntisym(a[1..], b[1..]);
      assert a == [a[0]] + a[1..];
      assert b == [b[0]] + b[1..];
    }
  }

  /** Text order is reflexive. */
  lemma {:induction false} StrLeRefl(a: string)
    ensures StrLe(a, a)
    decreases |a|
  {
    if |a| > 0 {
      StrLeRefl(a[1..]);
    }
  }

  /** The sort key of `ORDER BY due ASC, course fullname ASC, name ASC`. */
  datatype SortKey = SortKey(due: int, course: string, name: string)

  /** Lexicographic order on sort keys. */
  predicate KeyLe(a: SortKey, b: SortKey) {
    || a.due < b.due
    || (a.due == b.due && (if a.course == b.course then StrLe(a.name, b.name) else StrLe(a.course, b.course)))
  }

  lemma KeyLeTotal(a: SortKey, b: SortKey)
    ensures KeyLe(a, b) || KeyLe(b, a)
  {
    StrLeTotal(a.course, b.course);
    StrLeTotal(a.name, b.name);
  }

  lemma KeyLeRefl(a: SortKey)
    ensures KeyLe(a, a)
  {
    StrLeRefl(a.name);
  }

  lemma KeyLeTrans(a: SortKey, b: SortKey, c: SortKey)
    requires KeyLe(a, b) && KeyLe(b, c)
    ensures KeyLe(a, c)
  {
    if a.due == b.due == c.due {
      if a.course == b.course && b.course == c.course {
        StrLeTrans(a.name, b.name, c.name);
      } else if a.course != b.course && b.course != c.course {
        StrLeTrans(a.course, b.course, c.course);
        if a.course == c.course {
          StrLeAntisym(a.course, b.course);
        }
      }
    }
  }

  /** Places `x` before the first element it is ordered before. */
  function Insert<T(!new)>(x: T, s: seq<T>, le: (T, T) -> bool): (r: seq<T>)
    requires TotalPreorder(le)
    requires SortedBy(s, le)
    ensures SortedBy(r, le)
    ensures multiset(r) == multiset(s) + multiset{x}
  {
    if |s| == 0 then [x]
    else if le(x, s[0]) then
      assert forall j :: 0 < j < |s| ==> le(s[0], s[j]);
      [x] + s
    else
      var t := Insert(x, s[1..], le);
      assert s == [s[0]] + s[1..];
      InsertHeadSorted(s[0], t, x, s[1..], le);
      [s[0]] + t
  }

  /** Putting `h` in front of `t` keeps it sorted when `h` is ordered before
      `x` and before everything `t` was built from. */
  lemma InsertHeadSorted<T(!new)>(h: T, t: seq<T>, x: T, rest: seq<T>, le: (T, T) -> bool)
    requires TotalPreorder(le)
    requires SortedBy(t, le)
    requires multiset(t) == multiset(rest) + multiset{x}
    requires le(h, x)
    requires forall y :: y in rest ==> le(h, y)
    ensures SortedBy([h] + t, le)
  {
    forall j | 0 <= j < |t| ensures le(h, t[j]) {
      assert t[j] in multiset(t);
      if t[j] != x {
        assert t[j] in multiset(rest);
      }
    }
  }

  /** Insertion sort: the rows in ORDER BY order. Rows that compare equal keep
      their table order, one of the orders the database may return. */
  function SortBy<T(!new)>(s: seq<T>, le: (T, T) -> bool): (r: seq<T>)
    requires TotalPreorder(le)
    ensures SortedBy(r, le)
    ensures multiset(r) == multiset(s)
    ensures |r| == |s|
  {
    if |s| == 0 then []
    else
      assert s == [s[0]] + s[1..];
      var r := Insert(s[0], SortBy(s[1..], le), le);
      assert |r| == |multiset(r)|;
      r
  }

  /** Sorting keeps exactly the rows it was given. */
  lemma SortByMembers<T(!new)>(s: seq<T>, le: (T, T) -> bool, x: T)
    requires TotalPreorder(le)
    ensures x in SortBy(s, le) <==> x in s
  {
    var r := SortBy(s, le);
    assert x in r <==> x in multiset(r);
    assert x in s <==> x in multiset(s);
  }

  /** Keying a sorted result set by its first column keeps it sorted, provided
      rows with the same key compare equal. */
  lemma {:induction false} CollapseKeepsSorted<T(!new)>(rows: seq<T>, key: T -> int, le: (T, T) -> bool)
    requires TotalPreorder(le)
    requires SortedBy(rows, le)
    requires forall i, j :: 0 <= i < |rows| && 0 <= j < |rows| && key(rows[i]) == key(rows[j]) ==> le(rows[i], rows[j])
    ensures SortedBy(Collapse(rows, key), le)
    decreases |rows|
  {
    if |rows| > 0 {
      var n := |rows| - 1;
      var init := rows[..n];
      var x := rows[n];
      CollapseKeepsSorted(init, key, le);
      var acc := Collapse(init, key);
      var i := KeyIndex(acc, key, key(x));
      // every collapsed row comes from the prefix, so it is ordered before x
      forall m | 0 <= m < |acc| ensures le(acc[m], x) && (key(acc[m]) == key(x) ==> le(x, acc[m])) {
        assert LastWithKey(init, key, acc[m]);
        var j :| 0 <= j < |init| && init[j] == acc[m] &&
          forall k :: j < k < |init| ==> key(init[k]) != key(acc[m]);
        assert rows[j] == acc[m];
      }
      var r := Absorb(acc, x, key);
      assert r == Collapse(rows, key);
      if i >= 0 {
        forall p, q | 0 <= p < q < |r| ensures le(r[p], r[q]) {
          if q == i {
            assert le(acc[p], acc[i]);
          } else if p == i {
            assert le(acc[i], acc[q]);
          }
        }
      }
    }
  }
}
