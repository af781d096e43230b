/** Generic table operations that the ORM performs on the rows of one table.
    A table is the sequence of its rows in storage order; `.filter(...)`,
    `.get(...)` and `.order_by('-key')` become the functions below, and a
    UNIQUE constraint on a key becomes the predicate UniqueBy. */
module QuerySets {

  datatype Option<+T> = None | Some(value: T)

  /** `.filter(keep)`: the rows satisfying keep, in table order. */
  function Filter<T(!new)>(s: seq<T>, keep: T -> bool): (r: seq<T>)
    ensures |r| <= |s|
    ensures forall x :: x in r <==> x in s && keep(x)
  {
    if s == [] then []
    else
      assert s == [s[0]] + s[1..];
      if keep(s[0]) then [s[0]] + Filter(s[1..], keep) else Filter(s[1..], keep)
  }

  /** `.get(matches)`: a row satisfying matches, or None when there is
      none (Django's DoesNotExist). */
  function Get<T>(s: seq<T>, matches: T -> bool): (r: Option<T>)
    ensures r.Some? ==> r.value in s && matches(r.value)
    ensures r.None? <==> forall x :: x in s ==> !matches(x)
  {
    if s == [] then None
    else if matches(s[0]) then Some(s[0])
    else
      assert s == [s[0]] + s[1..];
      Get(s[1..], matches)
  }

  /** The rows differ pairwise in key: what a UNIQUE constraint guarantees. */
  predicate UniqueBy<T, K(==)>(s: seq<T>, key: T -> K) {
    forall i, j :: 0 <= i < j < |s| ==> key(s[i]) != key(s[j])
  }

  /** Rows sorted by key, largest first. */
  predicate Descending<T>(s: seq<T>, key: T -> int) {
    forall i, j :: 0 <= i < j < |s| ==> key(s[i]) >= key(s[j])
  }

  /** The tail of a descending sequence is descending and bounded by the head. */
  lemma HeadBoundsTail<T>(s: seq<T>, key: T -> int)
    requires s != [] && Descending(s, key)
    ensures Descending(s[1..], key)
    ensures forall y :: y in s[1..] ==> key(s[0]) >= key(y)
  {
    var t := s[1..];
    forall i, j | 0 <= i < j < |t| ensures key(t[i]) >= key(t[j]) {
      assert t[i] == s[i + 1] && t[j] == s[j + 1];
    }
    forall y | y in t ensures key(s[0]) >= key(y) {
      var k :| 0 <= k < |t| && t[k] == y;
      assert s[k + 1] == y;
    }
  }

  /** A head at least as large as every row of a descending tail gives a
      descending sequence. */
  lemma ConsDescending<T>(h: T, t: seq<T>, key: T -> int)
    requires Descending(t, key)
    requires forall y :: y in t ==> key(h) >= key(y)
    ensures Descending([h] + t, key)
  {
    var r := [h] + t;
    forall i, j | 0 <= i < j < |r| ensures key(r[i]) >= key(r[j]) {
      assert r[j] == t[j - 1];
      if i == 0 {
        assert t[j - 1] in t;
      } else {
        assert r[i] == t[i - 1];
      }
    }
  }

  /** Places x in a descending sequence, before the rows whose key equals its own. */
  function InsertDesc<T>(x: T, s: seq<T>, key: T -> int): (r: seq<T>)
    requires Descending(s, key)
    ensures Descending(r, key)
    ensures multiset(r) == multiset(s) + multiset{x}
  {
    if s == [] then [x]
    else
      assert s == [s[0]] + s[1..];
      HeadBoundsTail(s, key);
      if key(x) >= key(s[0]) then
        assert forall y :: y in s ==> key(x) >= key(y) by {
          forall y | y in s ensures key(x) >= key(y) {
            if y != s[0] {
              assert y in s[1..];
            }
          }
        }
        ConsDescending(x, s, key);
        [x] + s
      else
        var t := InsertDesc(x, s[1..], key);
        assert forall y :: y in t ==> key(s[0]) >= key(y) by {
          forall y | y in t ensures key(s[0]) >= key(y) {
            assert y in multiset(t);
            if y != x {
              assert y in multiset(s[1..]);
            }
          }
        }
        ConsDescending(s[0], t, key);
        [s[0]] + t
  }

  /** `.order_by('-key')`: the same rows, largest key first; rows with equal
      keys keep table order. */
  function OrderByDesc<T(!new)>(s: seq<T>, key: T -> int): (r: seq<T>)
    ensures Descending(r, key)
    ensures multiset(r) == multiset(s)
    ensures |r| == |s|
    ensures forall x :: x in r <==> x in s
  {
    if s == [] then []
    else
      assert s == [s[0]] + s[1..];
      var r := InsertDesc(s[0], OrderByDesc(s[1..], key), key);
      assert forall x :: x in r <==> x in s by {
        forall x ensures x in r <==> x in s {
          assert x in r <==> x in multiset(r);
          assert x in s <==> x in multiset(s);
        }
      }
      r
  }

  /** Filtering a table never breaks a UNIQUE constraint. */
  lemma {:induction false} FilterKeepsUnique<T(!new), K>(s: seq<T>, keep: T -> bool, key: T -> K)
    requires UniqueBy(s, key)
    ensures UniqueBy(Filter(s, keep), key)
  {
    if s != [] {
      var tail := s[1..];
      assert UniqueBy(tail, key) by {
        forall i, j | 0 <= i < j < |tail| ensures key(tail[i]) != key(tail[j]) {
          assert tail[i] == s[i + 1] && tail[j] == s[j + 1];
        }
      }
      FilterKeepsUnique(tail, keep, key);
      if keep(s[0]) {
        var t := Filter(tail, keep);
        var r := [s[0]] + t;
        forall i, j | 0 <= i < j < |r| ensures key(r[i]) != key(r[j]) {
          if i == 0 {
            assert r[j] == t[j - 1] && t[j - 1] in tail;
            var k :| 0 <= k < |tail| && tail[k] == t[j - 1];
            assert s[k + 1] == r[j];
          } else {
            assert r[i] == t[i - 1] && r[j] == t[j - 1];
          }
        }
      }
    }
  }

  /** Appending a row whose key is new keeps a UNIQUE constraint. */
  lemma AppendKeepsUnique<T, K>(s: seq<T>, x: T, key: T -> K)
    requires UniqueBy(s, key)
    requires forall y :: y in s ==> key(y) != key(x)
    ensures UniqueBy(s + [x], key)
  {
    var r := s + [x];
    forall i, j | 0 <= i < j < |r| ensures key(r[i]) != key(r[j]) {
      assert r[i] == s[i];
      if j == |s| { assert s[i] in s; } else { assert r[j] == s[j]; }
    }
  }

  /** Filtering with a predicate every row satisfies changes nothing. */
  lemma {:induction false} FilterKeepsAll<T(!new)>(s: seq<T>, keep: T -> bool)
    requires forall x :: x in s ==> keep(x)
    ensures Filter(s, keep) == s
  {
    if s != [] {
      assert s == [s[0]] + s[1..];
      FilterKeepsAll(s[1..], keep);
    }
  }

  /** `.filter` distributes over concatenation of tables. */
  lemma {:induction false} FilterAppend<T(!new)>(a: seq<T>, b: seq<T>, keep: T -> bool)
    ensures Filter(a + b, keep) == Filter(a, keep) + Filter(b, keep)
  {
    if a != [] {
      assert (a + b)[1..] == a[1..] + b;
      FilterAppend(a[1..], b, keep);
    } else {
      assert a + b == b;
    }
  }

  /** A predicate and its negation split a table: the rows a delete keeps
      and the rows it removes add up to the table. */
  lemma {:induction false} FilterPartition<T(!new)>(s: seq<T>, keep: T -> bool, drop: T -> bool)
    requires forall x :: drop(x) == !keep(x)
    ensures |Filter(s, keep)| + |Filter(s, drop)| == |s|
  {
    if s != [] {
      FilterPartition(s[1..], keep, drop);
    }
  }

  /** Under a UNIQUE constraint, at most one row carries a given key. */
  lemma UniqueKeyAtMostOne<T, K>(s: seq<T>, key: T -> K, k: K)
    requires UniqueBy(s, key)
    requires forall x :: x in s ==> key(x) == k
    ensures |s| <= 1
  {
    FirstTwoDiffer(s, key);
  }

  lemma FirstTwoDiffer<T, K>(s: seq<T>, key: T -> K)
    requires UniqueBy(s, key)
    ensures |s| >= 2 ==> s[0] in s && s[1] in s && key(s[0]) != key(s[1])
  {
  }

  /** Under a UNIQUE constraint, the key identifies the row. */
  lemma KeyIdentifiesRow<T, K>(s: seq<T>, key: T -> K, x: T, y: T)
    requires UniqueBy(s, key)
    requires x in s && y in s && key(x) == key(y)
    ensures x == y
  {
    var i :| 0 <= i < |s| && s[i] == x;
    var j :| 0 <= j < |s| && s[j] == y;
    assert !(i < j) && !(j < i);
  }
}
