/** Relational operations over tables kept as sequences in insertion order.
    `Select` is `WHERE key = v`, `Reject` is `DELETE ... WHERE key = v` (the rows kept),
    `Reverse` turns an insertion-ordered table into newest-first order. */
module Tables {

  /** The rows of `s` whose `key` equals `v`, in table order. */
  function Select<T(!new), K(==)>(s: seq<T>, key: T -> K, v: K): (r: seq<T>)
    ensures |r| <= |s|
    ensures forall x {:trigger x in r} :: x in r ==> x in s && key(x) == v
    ensures forall x {:trigger x in s} :: x in s && key(x) == v ==> x in r
  {
    if s == [] then []
    else
      assert s == s[..|s| - 1] + [s[|s| - 1]];
      Select(s[..|s| - 1], key, v) + (if key(s[|s| - 1]) == v then [s[|s| - 1]] else [])
  }

  /** The rows of `s` whose `key` differs from `v`, in table order. */
  function Reject<T(!new), K(==)>(s: seq<T>, key: T -> K, v: K): (r: seq<T>)
    ensures |r| <= |s|
    ensures forall x {:trigger x in r} :: x in r ==> x in s && key(x) != v
    ensures forall x {:trigger x in s} :: x in s && key(x) != v ==> x in r
  {
    if s == [] then []
    else
      assert s == s[..|s| - 1] + [s[|s| - 1]];
      Reject(s[..|s| - 1], key, v) + (if key(s[|s| - 1]) != v then [s[|s| - 1]] else [])
  }

  /** The rows of `s` last to first. */
  function Reverse<T>(s: seq<T>): (r: seq<T>)
    ensures |r| == |s|
    ensures forall i :: 0 <= i < |s| ==> r[i] == s[|s| - 1 - i]
    ensures multiset(r) == multiset(s)
  {
    if s == [] then []
    else
      assert s == s[..|s| - 1] + [s[|s| - 1]];
      [s[|s| - 1]] + Reverse(s[..|s| - 1])
  }

  /** `key` strictly increases along `s` (row order agrees with key order). */
  predicate Increasing<T>(s: seq<T>, key: T -> int) {
    forall i, j :: 0 <= i < j < |s| ==> key(s[i]) < key(s[j])
  }

  /** `key` strictly decreases along `s`. */
  predicate Decreasing<T>(s: seq<T>, key: T -> int) {
    forall i, j :: 0 <= i < j < |s| ==> key(s[i]) > key(s[j])
  }

  /** No two rows of `s` agree on `key` (a uniqueness constraint). */
  predicate Distinct<T, K(==)>(s: seq<T>, key: T -> K) {
    forall i, j :: 0 <= i < j < |s| ==> key(s[i]) != key(s[j])
  }

  /** Every row's `key` lies below `bound`. */
  predicate Bounded<T>(s: seq<T>, key: T -> int, bound: int) {
    forall i :: 0 <= i < |s| ==> key(s[i]) < bound
  }

  /** `t` is `s` with columns other than `key` rewritten: row for row, `key` agrees. */
  predicate SameKeys<T, K(==)>(s: seq<T>, t: seq<T>, key: T -> K) {
    |s| == |t| && forall i :: 0 <= i < |s| ==> key(s[i]) == key(t[i])
  }

  lemma SelectSnoc<T(!new), K>(s: seq<T>, x: T, key: T -> K, v: K)
    ensures Select(s + [x], key, v) == Select(s, key, v) + (if key(x) == v then [x] else [])
  {
    assert (s + [x])[..|s|] == s;
  }

  lemma RejectSnoc<T(!new), K>(s: seq<T>, x: T, key: T -> K, v: K)
    ensures Reject(s + [x], key, v) == Reject(s, key, v) + (if key(x) != v then [x] else [])
  {
    assert (s + [x])[..|s|] == s;
  }

  /** Appending a row keeps every key value that was present. */
  lemma SelectGrows<T(!new), K>(s: seq<T>, x: T, key: T -> K)
    ensures forall v :: Select(s, key, v) != [] ==> Select(s + [x], key, v) != []
  {
    forall v | Select(s, key, v) != [] ensures Select(s + [x], key, v) != [] {
      SelectSnoc(s, x, key, v);
    }
  }

  /** A table in which no row has key `v` loses nothing to `Reject`. */
  lemma {:induction false} RejectAbsent<T(!new), K>(s: seq<T>, key: T -> K, v: K)
    requires Select(s, key, v) == []
    ensures Reject(s, key, v) == s
  {
    if s != [] {
      var init, last := s[..|s| - 1], s[|s| - 1];
      assert s == init + [last];
      SelectSnoc(init, last, key, v);
      RejectSnoc(init, last, key, v);
      RejectAbsent(init, key, v);
    }
  }

  /** Inserting a row with a fresh key and then deleting by that key restores the table. */
  lemma RejectUndoesInsert<T(!new), K>(s: seq<T>, x: T, key: T -> K)
    requires Select(s, key, key(x)) == []
    ensures Reject(s + [x], key, key(x)) == s
  {
    RejectSnoc(s, x, key, key(x));
    RejectAbsent(s, key, key(x));
  }

  lemma IncreasingSnoc<T>(s: seq<T>, x: T, key: T -> int)
    requires Increasing(s, key) && Bounded(s, key, key(x))
    ensures Increasing(s + [x], key) && Bounded(s + [x], key, key(x) + 1)
  {
  }

  lemma DistinctSnoc<T(!new), K>(s: seq<T>, x: T, key: T -> K)
    requires Distinct(s, key) && Select(s, key, key(x)) == []
    ensures Distinct(s + [x], key)
  {
    forall i, j | 0 <= i < j < |s + [x]| ensures key((s + [x])[i]) != key((s + [x])[j]) {
      if j == |s| {
        assert (s + [x])[i] in s;
      }
    }
  }

  /** Keeping a subset of the rows in order keeps the rows' key order. */
  lemma {:induction false} SelectIncreasing<T(!new), K>(s: seq<T>, key: T -> K, v: K, order: T -> int)
    requires Increasing(s, order)
    ensures Increasing(Select(s, key, v), order)
  {
    if s != [] {
      var init, last := s[..|s| - 1], s[|s| - 1];
      assert s == init + [last];
      SelectSnoc(init, last, key, v);
      SelectIncreasing(init, key, v, order);
      AppendAfter(Select(init, key, v), init, last, order);
    }
  }

  lemma {:induction false} RejectIncreasing<T(!new), K>(s: seq<T>, key: T -> K, v: K, order: T -> int)
    requires Increasing(s, order)
    ensures Increasing(Reject(s, key, v), order)
  {
    if s != [] {
      var init, last := s[..|s| - 1], s[|s| - 1];
      assert s == init + [last];
      RejectSnoc(init, last, key, v);
      RejectIncreasing(init, key, v, order);
      AppendAfter(Reject(init, key, v), init, last, order);
    }
  }

  /** Deleting rows keeps every bound on the rows that stay. */
  lemma RejectBounded<T(!new), K>(s: seq<T>, key: T -> K, v: K, order: T -> int, b: int)
    requires Bounded(s, order, b)
    ensures Bounded(Reject(s, key, v), order, b)
  {
    var t := Reject(s, key, v);
    forall i | 0 <= i < |t| ensures order(t[i]) < b {
      assert t[i] in t;
      var j :| 0 <= j < |s| && s[j] == t[i];
    }
  }

  /** Helper: a sorted sub-table of `init` stays sorted when the last row of `init + [last]` joins it. */
  lemma AppendAfter<T(!new)>(sub: seq<T>, init: seq<T>, last: T, order: T -> int)
    requires Increasing(sub, order) && Increasing(init + [last], order)
    requires forall x :: x in sub ==> x in init
    ensures Increasing(sub + [last], order)
  {
    forall x | x in sub ensures order(x) < order(last) {
      var i :| 0 <= i < |init| && init[i] == x;
      assert (init + [last])[i] == x && (init + [last])[|init|] == last;
    }
    IncreasingSnoc(sub, last, order);
  }

  /** A table none of whose rows has key `v` selects nothing for `v`. */
  lemma SelectNone<T(!new), K>(s: seq<T>, key: T -> K, v: K)
    requires forall x :: x in s ==> key(x) != v
    ensures Select(s, key, v) == []
  {
  }

  /** Helper: `x`, a row of `init`, has a key different from that of `last` when
      `init + [last]` satisfies a uniqueness constraint. */
  lemma DistinctFromLast<T(!new), J>(init: seq<T>, last: T, x: T, unique: T -> J)
    requires Distinct(init + [last], unique) && x in init
    ensures unique(x) != unique(last)
  {
    var i :| 0 <= i < |init| && init[i] == x;
    assert (init + [last])[i] == x && (init + [last])[|init|] == last;
  }

  lemma {:induction false} RejectDistinct<T(!new), K, J>(s: seq<T>, key: T -> K, v: K, unique: T -> J)
    requires Distinct(s, unique)
    ensures Distinct(Reject(s, key, v), unique)
  {
    if s != [] {
      var init, last := s[..|s| - 1], s[|s| - 1];
      assert s == init + [last];
      RejectSnoc(init, last, key, v);
      RejectDistinct(init, key, v, unique);
      if key(last) != v {
        var kept := Reject(init, key, v);
        forall x | x in kept ensures unique(x) != unique(last) {
          DistinctFromLast(init, last, x, unique);
        }
        SelectNone(kept, unique, unique(last));
        DistinctSnoc(kept, last, unique);
      }
    }
  }

  lemma {:induction false} SelectDistinct<T(!new), K, J>(s: seq<T>, key: T -> K, v: K, unique: T -> J)
    requires Distinct(s, unique)
    ensures Distinct(Select(s, key, v), unique)
  {
    if s != [] {
      var init, last := s[..|s| - 1], s[|s| - 1];
      assert s == init + [last];
      SelectSnoc(init, last, key, v);
      SelectDistinct(init, key, v, unique);
      if key(last) == v {
        var kept := Select(init, key, v);
        forall x | x in kept ensures unique(x) != unique(last) {
          DistinctFromLast(init, last, x, unique);
        }
        SelectNone(kept, unique, unique(last));
        DistinctSnoc(kept, last, unique);
      }
    }
  }

  /** Under a uniqueness constraint a key value matches at most one row. */
  lemma {:induction false} DistinctAtMostOne<T(!new), K>(s: seq<T>, key: T -> K, v: K)
    requires Distinct(s, key)
    ensures |Select(s, key, v)| <= 1
  {
    if s != [] {
      var init, last := s[..|s| - 1], s[|s| - 1];
      assert s == init + [last];
      SelectSnoc(init, last, key, v);
      DistinctAtMostOne(init, key, v);
      if key(last) == v && Select(init, key, v) != [] {
        var y := Select(init, key, v)[0];
        assert y in Select(init, key, v);
        DistinctFromLast(init, last, y, key);
      }
    }
  }

  /** Counting the rows with `key = v` is the same before and after splitting the table on
      `other = w`: the rows `Reject` keeps plus the rows it removes. */
  lemma {:induction false} SelectSplit<T(!new), K, J>(s: seq<T>, key: T -> K, v: K, other: T -> J, w: J)
    ensures |Select(s, key, v)| == |Select(Reject(s, other, w), key, v)| + |Select(Select(s, other, w), key, v)|
  {
    if s != [] {
      var init, last := s[..|s| - 1], s[|s| - 1];
      assert s == init + [last];
      SelectSplit(init, key, v, other, w);
      SelectSnoc(init, last, key, v);
      SelectSnoc(init, last, other, w);
      RejectSnoc(init, last, other, w);
      if other(last) == w {
        assert Select(s, other, w) == Select(init, other, w) + [last];
        assert Reject(s, other, w) == Reject(init, other, w);
        SelectSnoc(Select(init, other, w), last, key, v);
      } else {
        assert Select(s, other, w) == Select(init, other, w);
        assert Reject(s, other, w) == Reject(init, other, w) + [last];
        SelectSnoc(Reject(init, other, w), last, key, v);
      }
    }
  }

  /** Deleting every row with `key = w` leaves the count for every other value `v` alone. */
  lemma RejectOtherCount<T(!new), K>(s: seq<T>, key: T -> K, v: K, w: K)
    requires v != w
    ensures |Select(Reject(s, key, w), key, v)| == |Select(s, key, v)|
  {
    SelectSplit(s, key, v, key, w);
    SelectNone(Select(s, key, w), key, v);
  }

  /** Deleting the one row whose unique key is `pv` lowers the count for `key = v` by one when
      that row has `key = v`. */
  lemma RejectOneCount<T(!new), K, J>(s: seq<T>, pair: T -> K, pv: K, key: T -> J, v: J)
    requires Distinct(s, pair) && Select(s, pair, pv) != []
    requires forall i :: 0 <= i < |s| && pair(s[i]) == pv ==> key(s[i]) == v
    ensures |Select(Reject(s, pair, pv), key, v)| == |Select(s, key, v)| - 1
  {
    SelectSplit(s, key, v, pair, pv);
    DistinctAtMostOne(s, pair, pv);
    var m := Select(s, pair, pv);
    assert m[0] in m;
    assert m == [] + [m[0]];
    SelectSnoc([], m[0], key, v);
  }

  /** The set of values `f` takes on the rows of `s`. */
  ghost function Image<T(!new), J>(s: seq<T>, f: T -> J): set<J> {
    set x | x in s :: f(x)
  }

  /** Rows that are distinct on `f` have as many `f` values as there are rows. */
  lemma {:induction false} ImageOfDistinct<T(!new), J>(s: seq<T>, f: T -> J)
    requires Distinct(s, f)
    ensures |Image(s, f)| == |s|
  {
    if s == [] {
      assert Image(s, f) == {};
    } else {
      var init, last := s[..|s| - 1], s[|s| - 1];
      assert s == init + [last];
      assert Distinct(init, f);
      ImageOfDistinct(init, f);
      assert Image(s, f) == Image(init, f) + {f(last)};
    }
  }

  /** When no two rows share the pair (inner, outer), the rows with `outer = v` are as many as
      the distinct `inner` values among them. */
  lemma DistinctCount<T(!new), K, J>(s: seq<T>, outer: T -> K, v: K, inner: T -> J, pair: T -> (J, K))
    requires Distinct(s, pair)
    requires forall i :: 0 <= i < |s| ==> pair(s[i]) == (inner(s[i]), outer(s[i]))
    ensures |Select(s, outer, v)| == |Image(Select(s, outer, v), inner)|
  {
    var m := Select(s, outer, v);
    SelectDistinct(s, outer, v, pair);
    forall i, j | 0 <= i < j < |m| ensures inner(m[i]) != inner(m[j]) {
      assert m[i] in m && m[j] in m;
      var a :| 0 <= a < |s| && s[a] == m[i];
      var b :| 0 <= b < |s| && s[b] == m[j];
    }
    ImageOfDistinct(m, inner);
  }

  /** Rewriting non-key columns changes no count over the key. */
  lemma {:induction false} SameKeysSelect<T(!new), K>(s: seq<T>, t: seq<T>, key: T -> K, v: K)
    requires SameKeys(s, t, key)
    ensures |Select(s, key, v)| == |Select(t, key, v)|
  {
    if s != [] {
      var n := |s| - 1;
      assert s == s[..n] + [s[n]] && t == t[..n] + [t[n]];
      assert SameKeys(s[..n], t[..n], key);
      SameKeysSelect(s[..n], t[..n], key, v);
      SelectSnoc(s[..n], s[n], key, v);
      SelectSnoc(t[..n], t[n], key, v);
    }
  }

  /** Rewriting non-key columns keeps the key order, bounds and uniqueness of the key. */
  lemma SameKeysKeep<T, K>(s: seq<T>, t: seq<T>, key: T -> int, unique: T -> K)
    requires SameKeys(s, t, key) && SameKeys(s, t, unique)
    ensures Increasing(s, key) ==> Increasing(t, key)
    ensures forall b :: Bounded(s, key, b) ==> Bounded(t, key, b)
    ensures Distinct(s, unique) ==> Distinct(t, unique)
  {
    forall b | Bounded(s, key, b) ensures Bounded(t, key, b) {
      forall x | x in t ensures key(x) < b {
        var i :| 0 <= i < |t| && t[i] == x;
        assert s[i] in s;
      }
    }
  }

  /** Rewriting non-key columns keeps every key value present, and no other. */
  lemma SameKeysPresent<T(!new), K>(s: seq<T>, t: seq<T>, key: T -> K)
    requires SameKeys(s, t, key)
    ensures forall v :: Select(s, key, v) != [] <==> Select(t, key, v) != []
  {
    forall v ensures Select(s, key, v) != [] <==> Select(t, key, v) != [] {
      SameKeysSelect(s, t, key, v);
    }
  }

  /** A strictly increasing key is a unique key. */
  lemma IncreasingDistinct<T>(s: seq<T>, key: T -> int)
    requires Increasing(s, key)
    ensures Distinct(s, key)
  {
  }

  /** Under a uniqueness constraint, two rows with the same key are the same row. */
  lemma DistinctSame<T, K>(s: seq<T>, key: T -> K, x: T, y: T)
    requires Distinct(s, key) && x in s && y in s && key(x) == key(y)
    ensures x == y
  {
    var i :| 0 <= i < |s| && s[i] == x;
    var j :| 0 <= j < |s| && s[j] == y;
    assert !(i < j) && !(j < i);
  }

  /** Deleting the rows with `key = w` leaves the rows with any other key value exactly as
      they were. */
  lemma {:induction false} SelectRejectOther<T(!new), K>(s: seq<T>, key: T -> K, v: K, w: K)
    requires v != w
    ensures Select(Reject(s, key, w), key, v) == Select(s, key, v)
  {
    if s != [] {
      var init, last := s[..|s| - 1], s[|s| - 1];
      assert s == init + [last];
      SelectRejectOther(init, key, v, w);
      RejectSnoc(init, last, key, w);
      SelectSnoc(init, last, key, v);
      if key(last) != w {
        SelectSnoc(Reject(init, key, w), last, key, v);
      } else {
        assert Reject(s, key, w) == Reject(init, key, w);
        assert Select(s, key, v) == Select(init, key, v);
      }
    }
  }

  /** Deleting the rows with `key = w` keeps every other key value present. */
  lemma RejectKeepsOthers<T(!new), K>(s: seq<T>, key: T -> K, w: K)
    ensures forall v :: v != w && Select(s, key, v) != [] ==> Select(Reject(s, key, w), key, v) != []
  {
    forall v | v != w && Select(s, key, v) != [] ensures Select(Reject(s, key, w), key, v) != [] {
      RejectOtherCount(s, key, v, w);
    }
  }

  /** Deleting the rows with `key = w` leaves none. */
  lemma RejectRemoves<T(!new), K>(s: seq<T>, key: T -> K, w: K)
    ensures Select(Reject(s, key, w), key, w) == []
  {
    SelectNone(Reject(s, key, w), key, w);
  }

  /** The rows with `key = v`, newest first, when row order is `order` order. */
  lemma NewestFirstOrder<T(!new), K>(s: seq<T>, key: T -> K, v: K, order: T -> int)
    requires Increasing(s, order)
    ensures Decreasing(Reverse(Select(s, key, v)), order)
  {
    SelectIncreasing(s, key, v, order);
  }
}
