/** The relational operators that the TPC-H queries are built from. Tables are sequences of rows. */
module Relational {
  import opened Arith

  datatype Option<T> = None | Some(value: T)

  // ---------- Grouping ----------

  // The grouping keys, once each
  function Keys<K(==)>(rows: seq<(K, int)>): seq<K> {
    if rows == [] then []
    else
      var keys, k := Keys(rows[..|rows| - 1]), rows[|rows| - 1].0;
      if k in keys then keys else keys + [k]
  }

  // The sum over the group of k
  function SumAt<K(==)>(rows: seq<(K, int)>, k: K): int {
    if rows == [] then 0
    else SumAt(rows[..|rows| - 1], k) + if rows[|rows| - 1].0 == k then rows[|rows| - 1].1 else 0
  }

  function Sums<K(==)>(rows: seq<(K, int)>, keys: seq<K>): (s: seq<(K, int)>)
    ensures |s| == |keys| && forall i :: 0 <= i < |keys| ==> s[i] == (keys[i], SumAt(rows, keys[i]))
  {
    if keys == [] then []
    else Sums(rows, keys[..|keys| - 1]) + [(keys[|keys| - 1], SumAt(rows, keys[|keys| - 1]))]
  }

  // SELECT key, sum(value) ... GROUP BY key
  function GroupSum<K(==)>(rows: seq<(K, int)>): seq<(K, int)> {
    Sums(rows, Keys(rows))
  }

  predicate Distinct<K(==)>(keys: seq<K>) {
    forall i, j :: 0 <= i < j < |keys| ==> keys[i] != keys[j]
  }

  predicate HasKey<K(==), V>(rows: seq<(K, V)>, k: K) {
    exists i :: 0 <= i < |rows| && rows[i].0 == k
  }

  lemma HasKeyLast<K, V>(rows: seq<(K, V)>, k: K)
    requires rows != []
    ensures HasKey(rows, k) <==> HasKey(rows[..|rows| - 1], k) || rows[|rows| - 1].0 == k
  {
    var init := rows[..|rows| - 1];
    if i :| 0 <= i < |init| && init[i].0 == k {
      assert rows[i].0 == k;
    }
    if i :| 0 <= i < |rows| && rows[i].0 == k {
      assert i < |init| ==> init[i].0 == k;
    }
  }

  lemma {:induction false} KeysAreDistinct<K>(rows: seq<(K, int)>)
    ensures Distinct(Keys(rows))
  {
    if rows != [] {
      KeysAreDistinct(rows[..|rows| - 1]);
    }
  }

  lemma {:induction false} KeysAreTheKeys<K>(rows: seq<(K, int)>, k: K)
    ensures k in Keys(rows) <==> HasKey(rows, k)
  {
    if rows != [] {
      KeysAreTheKeys(rows[..|rows| - 1], k);
      HasKeyLast(rows, k);
    }
  }

  /** A group is there exactly when some row has its key, once, with the sum over those rows. */
  lemma GroupIff<K>(rows: seq<(K, int)>, k: K, v: int)
    ensures (k, v) in GroupSum(rows) <==> HasKey(rows, k) && v == SumAt(rows, k)
  {
    KeysAreTheKeys(rows, k);
    if k in Keys(rows) {
      var i :| 0 <= i < |Keys(rows)| && Keys(rows)[i] == k;
      assert GroupSum(rows)[i] == (k, SumAt(rows, k));
    }
  }

  lemma {:induction false} SumAtConcat<K>(a: seq<(K, int)>, b: seq<(K, int)>, k: K)
    ensures SumAt(a + b, k) == SumAt(a, k) + SumAt(b, k)
  {
    if b == [] {
      assert a + b == a;
    } else {
      SumAtConcat(a, b[..|b| - 1], k);
      assert (a + b)[..|a + b| - 1] == a + b[..|b| - 1];
    }
  }

  /** Rows of one new key make one new group. */
  lemma {:induction false} KeysOfBlock<K>(a: seq<(K, int)>, b: seq<(K, int)>, k: K)
    requires b != [] && k !in Keys(a) && forall i :: 0 <= i < |b| ==> b[i].0 == k
    ensures Keys(a + b) == Keys(a) + [k]
  {
    var init := b[..|b| - 1];
    assert (a + b)[..|a + b| - 1] == a + init;
    if init == [] {
      assert a + init == a;
    } else {
      KeysOfBlock(a, init, k);
    }
  }

  // ---------- Conservation ----------

  // The sum of w(key) * value
  function Weighted<K>(w: K -> int, rows: seq<(K, int)>): int {
    if rows == [] then 0
    else Weighted(w, rows[..|rows| - 1]) + w(rows[|rows| - 1].0) * rows[|rows| - 1].1
  }

  lemma {:induction false} OneMoreRow<K>(w: K -> int, rows: seq<(K, int)>, keys: seq<K>)
    requires rows != [] && Distinct(keys)
    ensures var r := rows[|rows| - 1];
            Weighted(w, Sums(rows, keys)) == Weighted(w, Sums(rows[..|rows| - 1],
                keys)) + if r.0 in keys then w(r.0) * r.1 else 0
  {
    if keys != [] {
      var init, k, r := keys[..|keys| - 1], keys[|keys| - 1], rows[|rows| - 1];
      OneMoreRow(w, rows, init);
      assert r.0 in keys <==> r.0 in init || r.0 == k;
      assert k !in init;
      SumsLast(w, rows, keys);
      SumsLast(w, rows[..|rows| - 1], keys);
      Distribute(w(k), SumAt(rows[..|rows| - 1], k), r.1);
    }
  }

  lemma SumsLast<K>(w: K -> int, rows: seq<(K, int)>, keys: seq<K>)
    requires keys != []
    ensures var init, k := keys[..|keys| - 1], keys[|keys| - 1];
            Weighted(w, Sums(rows, keys)) == Weighted(w, Sums(rows, init)) + w(k) * SumAt(rows, k)
  {
    var init, k := keys[..|keys| - 1], keys[|keys| - 1];
    assert Sums(rows, keys)[..|keys| - 1] == Sums(rows, init);
  }

  lemma {:induction false} NoRowsNoWeight<K>(w: K -> int, keys: seq<K>)
    ensures Weighted(w, Sums([], keys)) == 0
  {
    if keys != [] {
      NoRowsNoWeight(w, keys[..|keys| - 1]);
      SumsLast(w, [], keys);
    }
  }

  lemma {:induction false} KeyedSumsKeepWeight<K>(w: K -> int, rows: seq<(K, int)>, keys: seq<K>)
    requires Distinct(keys) && forall i :: 0 <= i < |rows| ==> rows[i].0 in keys
    ensures Weighted(w, Sums(rows, keys)) == Weighted(w, rows)
  {
    if rows == [] {
      NoRowsNoWeight(w, keys);
    } else {
      var init := rows[..|rows| - 1];
      assert forall i :: 0 <= i < |init| ==> init[i] == rows[i];
      KeyedSumsKeepWeight(w, init, keys);
      OneMoreRow(w, rows, keys);
    }
  }

  /** Grouping keeps every total that is weighted by the key. */
  lemma GroupingConserves<K>(w: K -> int, rows: seq<(K, int)>)
    ensures Weighted(w, GroupSum(rows)) == Weighted(w, rows)
  {
    KeysAreDistinct(rows);
    forall i | 0 <= i < |rows|
      ensures rows[i].0 in Keys(rows)
    {
      KeysAreTheKeys(rows, rows[i].0);
    }
    KeyedSumsKeepWeight(w, rows, Keys(rows));
  }

  // ---------- ORDER BY ----------

  ghost predicate TotalPreorder<T(!new)>(le: (T, T) -> bool) {
    && (forall a, b :: le(a, b) || le(b, a))
    && (forall a, b, c :: le(a, b) && le(b, c) ==> le(a, c))
  }

  // A preorder without ties
  ghost predicate TotalOrder<T(!new)>(le: (T, T) -> bool) {
    TotalPreorder(le) && forall a, b :: le(a, b) && le(b, a) ==> a == b
  }

  predicate Sorted<T>(le: (T, T) -> bool, s: seq<T>) {
    forall i, j :: 0 <= i < j < |s| ==> le(s[i], s[j])
  }

  function Insert<T>(le: (T, T) -> bool, s: seq<T>, x: T): seq<T> {
    if s == [] || le(s[|s| - 1], x) then s + [x]
    else Insert(le, s[..|s| - 1], x) + [s[|s| - 1]]
  }

  function OrderBy<T>(le: (T, T) -> bool, s: seq<T>): seq<T> {
    if s == [] then [] else Insert(le, OrderBy(le, s[..|s| - 1]), s[|s| - 1])
  }

  lemma {:induction false} InsertAddsWeight<K>(w: K -> int, le: ((K, int), (K, int)) -> bool, s: seq<(K, int)>, x: (K, int))
    ensures Weighted(w, Insert(le, s, x)) == Weighted(w, s) + w(x.0) * x.1
  {
    if s == [] || le(s[|s| - 1], x) {
      assert (s + [x])[..|s|] == s;
    } else {
      var init, last := s[..|s| - 1], s[|s| - 1];
      InsertAddsWeight(w, le, init, x);
      var r := Insert(le, init, x);
      assert (r + [last])[..|r|] == r;
    }
  }

  /** Ordering keeps the totals too. */
  lemma {:induction false} OrderByConserves<K>(w: K -> int, le: ((K, int), (K, int)) -> bool, s: seq<(K, int)>)
    ensures Weighted(w, OrderBy(le, s)) == Weighted(w, s)
  {
    if s != [] {
      OrderByConserves(w, le, s[..|s| - 1]);
      InsertAddsWeight(w, le, OrderBy(le, s[..|s| - 1]), s[|s| - 1]);
    }
  }

  predicate KeysOnce<K(==), V>(rows: seq<(K, V)>) {
    forall i, j :: 0 <= i < j < |rows| ==> rows[i].0 != rows[j].0
  }

  lemma LastKeyIsNew<K, V>(rows: seq<(K, V)>)
    requires KeysOnce(rows) && rows != []
    ensures KeysOnce(rows[..|rows| - 1]) && !HasKey(rows[..|rows| - 1], rows[|rows| - 1].0)
  {
    var init := rows[..|rows| - 1];
    forall i | 0 <= i < |init|
      ensures init[i].0 != rows[|rows| - 1].0
    {
      assert init[i] == rows[i];
    }
  }

  lemma GroupsOnce<K>(rows: seq<(K, int)>)
    ensures KeysOnce(GroupSum(rows))
  {
    KeysAreDistinct(rows);
  }

  lemma {:induction false} InsertHasKey<K, V>(le: ((K, V), (K, V)) -> bool, s: seq<(K, V)>, x: (K, V), k: K)
    ensures HasKey(Insert(le, s, x), k) <==> HasKey(s, k) || x.0 == k
  {
    var r := Insert(le, s, x);
    HasKeyLast(r, k);
    if s == [] || le(s[|s| - 1], x) {
      assert r[..|r| - 1] == s;
    } else {
      InsertHasKey(le, s[..|s| - 1], x, k);
      HasKeyLast(s, k);
      assert r[..|r| - 1] == Insert(le, s[..|s| - 1], x);
    }
  }

  lemma {:induction false} InsertKeepsOnce<K, V>(le: ((K, V), (K, V)) -> bool, s: seq<(K, V)>, x: (K, V))
    requires KeysOnce(s) && !HasKey(s, x.0)
    ensures KeysOnce(Insert(le, s, x))
  {
    if s != [] && !le(s[|s| - 1], x) {
      var init, last := s[..|s| - 1], s[|s| - 1];
      HasKeyLast(s, x.0);
      InsertKeepsOnce(le, init, x);
      InsertHasKey(le, init, x, last.0);
    }
  }

  lemma {:induction false} OrderByHasKey<K, V>(le: ((K, V), (K, V)) -> bool, s: seq<(K, V)>, k: K)
    ensures HasKey(OrderBy(le, s), k) <==> HasKey(s, k)
  {
    if s != [] {
      OrderByHasKey(le, s[..|s| - 1], k);
      InsertHasKey(le, OrderBy(le, s[..|s| - 1]), s[|s| - 1], k);
      HasKeyLast(s, k);
    }
  }

  /** Ordering repeats no row. */
  lemma {:induction false} OrderByKeepsOnce<K, V>(le: ((K, V), (K, V)) -> bool, s: seq<(K, V)>)
    requires KeysOnce(s)
    ensures KeysOnce(OrderBy(le, s))
  {
    if s != [] {
      var init, last := s[..|s| - 1], s[|s| - 1];
      OrderByKeepsOnce(le, init);
      OrderByHasKey(le, init, last.0);
      InsertKeepsOnce(le, OrderBy(le, init), last);
    }
  }

  lemma {:induction false} InsertPermutes<T>(le: (T, T) -> bool, s: seq<T>, x: T)
    ensures multiset(Insert(le, s, x)) == multiset(s) + multiset{x}
  {
    if s != [] && !le(s[|s| - 1], x) {
      InsertPermutes(le, s[..|s| - 1], x);
      assert s == s[..|s| - 1] + [s[|s| - 1]];
    }
  }

  /** Ordering neither adds nor drops a row. */
  lemma {:induction false} OrderByPermutes<T>(le: (T, T) -> bool, s: seq<T>)
    ensures multiset(OrderBy(le, s)) == multiset(s)
  {
    if s != [] {
      OrderByPermutes(le, s[..|s| - 1]);
      InsertPermutes(le, OrderBy(le, s[..|s| - 1]), s[|s| - 1]);
      assert s == s[..|s| - 1] + [s[|s| - 1]];
    }
  }

  lemma {:induction false} InsertKeepsSorted<T(!new)>(le: (T, T) -> bool, s: seq<T>, x: T)
    requires TotalPreorder(le) && Sorted(le, s)
    ensures Sorted(le, Insert(le, s, x))
  {
    if s == [] || le(s[|s| - 1], x) {
      LastIsGreatest(le, s, x);
    } else {
      var init, last := s[..|s| - 1], s[|s| - 1];
      InsertKeepsSorted(le, init, x);
      InsertPermutes(le, init, x);
      var r := Insert(le, init, x);
      forall i | 0 <= i < |r|
        ensures le(r[i], last)
      {
        assert r[i] in multiset(r);
        assert r[i] in init || r[i] == x;
      }
    }
  }

  lemma LastIsGreatest<T(!new)>(le: (T, T) -> bool, s: seq<T>, x: T)
    requires TotalPreorder(le) && Sorted(le, s) && (s == [] || le(s[|s| - 1], x))
    ensures Sorted(le, s + [x])
  {
    if s != [] {
      forall i | 0 <= i < |s|
        ensures le(s[i], x)
      {
        assert i < |s| - 1 ==> le(s[i], s[|s| - 1]);
      }
    }
  }

  lemma {:induction false} OrderByIsSorted<T(!new)>(le: (T, T) -> bool, s: seq<T>)
    requires TotalPreorder(le)
    ensures Sorted(le, OrderBy(le, s))
  {
    if s != [] {
      OrderByIsSorted(le, s[..|s| - 1]);
      InsertKeepsSorted(le, OrderBy(le, s[..|s| - 1]), s[|s| - 1]);
    }
  }

  lemma OrderByKeepsRows<T>(le: (T, T) -> bool, s: seq<T>, x: T)
    ensures x in OrderBy(le, s) <==> x in s
  {
    OrderByPermutes(le, s);
    assert x in OrderBy(le, s) <==> x in multiset(OrderBy(le, s));
  }

  lemma ButLast<T>(s: seq<T>)
    requires s != []
    ensures multiset(s[..|s| - 1]) == multiset(s) - multiset{s[|s| - 1]}
    ensures s[|s| - 1] in multiset(s)
  {
    assert s == s[..|s| - 1] + [s[|s| - 1]];
  }

  lemma SameLast<T(!new)>(le: (T, T) -> bool, a: seq<T>, b: seq<T>)
    requires TotalOrder(le) && Sorted(le, a) && Sorted(le, b) && a != [] && b != []
    requires a[|a| - 1] in multiset(b) && b[|b| - 1] in multiset(a)
    ensures a[|a| - 1] == b[|b| - 1]
  {
    AtMostLast(le, a, b[|b| - 1]);
    AtMostLast(le, b, a[|a| - 1]);
  }

  lemma SortedPrefix<T>(le: (T, T) -> bool, s: seq<T>)
    requires Sorted(le, s) && s != []
    ensures Sorted(le, s[..|s| - 1])
  {
  }

  /** The order leaves no choice: any sorted arrangement of the rows is the output. */
  lemma {:induction false} OrderIsUnique<T(!new)>(le: (T, T) -> bool, a: seq<T>, b: seq<T>)
    requires TotalOrder(le) && Sorted(le, a) && Sorted(le, b) && multiset(a) == multiset(b)
    ensures a == b
  {
    SameSize(a, b);
    if a != [] {
      ButLast(a);
      ButLast(b);
      SameLast(le, a, b);
      SortedPrefix(le, a);
      SortedPrefix(le, b);
      OrderIsUnique(le, a[..|a| - 1], b[..|b| - 1]);
      assert a == a[..|a| - 1] + [a[|a| - 1]];
      assert b == b[..|b| - 1] + [b[|b| - 1]];
    }
  }

  lemma SameSize<T>(a: seq<T>, b: seq<T>)
    requires multiset(a) == multiset(b)
    ensures |a| == |b|
  {
    assert |multiset(a)| == |a| && |multiset(b)| == |b|;
  }

  lemma AtMostLast<T(!new)>(le: (T, T) -> bool, s: seq<T>, x: T)
    requires TotalPreorder(le) && Sorted(le, s) && x in multiset(s)
    ensures s != [] && le(x, s[|s| - 1])
  {
    var i :| 0 <= i < |s| && s[i] == x;
  }

  // ---------- Strings ----------

  // Code point order
  predicate StringLe(a: string, b: string) {
    a == [] || (b != [] && (a[0] < b[0] || (a[0] == b[0] && StringLe(a[1..], b[1..]))))
  }

  lemma {:induction false} StringTotal(a: string, b: string)
    ensures StringLe(a, b) || StringLe(b, a)
  {
    if a != [] && b != [] {
      StringTotal(a[1..], b[1..]);
    }
  }

  lemma {:induction false} StringAntisymmetric(a: string, b: string)
    requires StringLe(a, b) && StringLe(b, a)
    ensures a == b
  {
    if a != [] {
      StringAntisymmetric(a[1..], b[1..]);
      assert a == [a[0]] + a[1..] && b == [b[0]] + b[1..];
    }
  }

  lemma {:induction false} StringTransitive(a: string, b: string, c: string)
    requires StringLe(a, b) && StringLe(b, c)
    ensures StringLe(a, c)
  {
    if a != [] && a[0] == b[0] == c[0] {
      StringTransitive(a[1..], b[1..], c[1..]);
    }
  }

  // The first character in which a and b differ is number i, and a has the smaller.
  predicate FirstDifference(a: string, b: string, i: nat) {
    i < |a| && i < |b| && a[..i] == b[..i] && a[i] < b[i]
  }

  // a is a beginning of b, or has the smaller character where they first differ.
  ghost predicate ComesFirst(a: string, b: string) {
    a <= b || exists i: nat :: FirstDifference(a, b, i)
  }

  /** What the order on strings is. */
  lemma {:induction false} StringLeIff(a: string, b: string)
    ensures StringLe(a, b) <==> ComesFirst(a, b)
  {
    if a != [] && b != [] {
      var a', b' := a[1..], b[1..];
      if a[0] == b[0] {
        StringLeIff(a', b');
        assert a == [a[0]] + a' && b == [b[0]] + b';
        assert a <= b <==> a' <= b';
        if i: nat :| FirstDifference(a', b', i) {
          assert a[..i + 1] == [a[0]] + a'[..i] && b[..i + 1] == [b[0]] + b'[..i];
          assert FirstDifference(a, b, i + 1);
        }
        if i: nat :| FirstDifference(a, b, i) {
          assert i > 0;
          assert a'[..i - 1] == a[..i][1..] && b'[..i - 1] == b[..i][1..];
          assert FirstDifference(a', b', i - 1);
        }
      } else {
        assert a[0] < b[0] ==> FirstDifference(a, b, 0);
        if i: nat :| FirstDifference(a, b, i) {
          assert i > 0 ==> a[..i][0] == b[..i][0];
        }
      }
    }
  }
}
