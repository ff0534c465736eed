/** The table-wide pandas operations the pipeline relies on, over a sequence
    of rows: `sort_values` on one key column, `drop_duplicates` on whole rows,
    selecting the rows whose key has a given value, `merge(how="left")` on
    one key column and `groupby` on one key column. */
module Frame {
  import opened Wrappers

  /** Rows are in ascending order of their key. */
  predicate SortedBy<T>(s: seq<T>, key: T -> int) {
    forall i, j :: 0 <= i < j < |s| ==> key(s[i]) <= key(s[j])
  }

  /** Places x after every leading row whose key is not greater than x's. */
  function InsertBy<T(==)>(x: T, s: seq<T>, key: T -> int): (r: seq<T>)
    ensures |r| == |s| + 1
    ensures multiset(r) == multiset(s) + multiset{x}
  {
    if s == [] then [x]
    else if key(x) < key(s[0]) then [x] + s
    else
      assert s == [s[0]] + s[1..];
      [s[0]] + InsertBy(x, s[1..], key)
  }

  /** A row no greater than every row of a key-ordered sequence can lead it. */
  lemma ConsSorted<T>(h: T, s: seq<T>, key: T -> int)
    requires SortedBy(s, key)
    requires forall i :: 0 <= i < |s| ==> key(h) <= key(s[i])
    ensures SortedBy([h] + s, key)
  {
    var r := [h] + s;
    forall i, j | 0 <= i < j < |r| ensures key(r[i]) <= key(r[j]) {
      assert r[j] == s[j - 1];
      if i > 0 {
        assert r[i] == s[i - 1];
      }
    }
  }

  /** Every row of a sequence has the key bound b when the sequence has the
      same rows as one whose rows all have it. */
  lemma BoundByMultiset<T>(s: seq<T>, t: seq<T>, key: T -> int, b: int)
    requires multiset(s) == multiset(t)
    requires forall i :: 0 <= i < |t| ==> b <= key(t[i])
    ensures forall i :: 0 <= i < |s| ==> b <= key(s[i])
  {
    forall i | 0 <= i < |s| ensures b <= key(s[i]) {
      assert s[i] in multiset(t);
      var j :| 0 <= j < |t| && t[j] == s[i];
    }
  }

  /** Inserting into rows in key order keeps them in key order. */
  lemma {:induction false} InsertBySorted<T(!new)>(x: T, s: seq<T>, key: T -> int)
    requires SortedBy(s, key)
    ensures SortedBy(InsertBy(x, s, key), key)
  {
    if s != [] && key(s[0]) <= key(x) {
      var tail := s[1..];
      assert SortedBy(tail, key);
      InsertBySorted(x, tail, key);
      var rest := InsertBy(x, tail, key);
      BoundByMultiset(rest, tail + [x], key, key(s[0]));
      ConsSorted(s[0], rest, key);
    }
  }

  /** `sort_values(key)`: an ordering of the rows by ascending key. This is a
      stable insertion sort; rows with equal keys keep their input order. */
  function SortBy<T(==,!new)>(s: seq<T>, key: T -> int): (r: seq<T>)
    ensures SortedBy(r, key)
    ensures multiset(r) == multiset(s)
    ensures |r| == |s|
  {
    if s == [] then []
    else
      var init, last := s[..|s| - 1], s[|s| - 1];
      assert s == init + [last];
      InsertBySorted(last, SortBy(init, key), key);
      InsertBy(last, SortBy(init, key), key)
  }

  lemma {:induction false} InsertAtEnd<T(!new)>(x: T, s: seq<T>, key: T -> int)
    requires SortedBy(s, key)
    requires forall i :: 0 <= i < |s| ==> key(s[i]) <= key(x)
    ensures InsertBy(x, s, key) == s + [x]
  {
    if s != [] {
      InsertAtEnd(x, s[1..], key);
      assert s == [s[0]] + s[1..];
    }
  }

  /** Sorting rows that are already in key order changes nothing. */
  lemma {:induction false} SortSortedIsIdentity<T(!new)>(s: seq<T>, key: T -> int)
    requires SortedBy(s, key)
    ensures SortBy(s, key) == s
  {
    if s != [] {
      var init, last := s[..|s| - 1], s[|s| - 1];
      assert s == init + [last];
      forall i | 0 <= i < |init| ensures key(init[i]) <= key(last) {
        assert init[i] == s[i];
      }
      assert SortedBy(init, key);
      SortSortedIsIdentity(init, key);
      assert SortBy(s, key) == InsertBy(last, init, key);
      InsertAtEnd(last, init, key);
    }
  }

  /** Row i is the first occurrence of its value. */
  predicate IsFirst<T(==)>(s: seq<T>, i: int)
    requires 0 <= i < |s|
  {
    s[i] !in s[..i]
  }

  /** `drop_duplicates()`: keeps the first occurrence of every distinct row. */
  function Dedup<T(==,!new)>(s: seq<T>): (r: seq<T>)
    ensures |r| <= |s|
    ensures forall x :: x in r <==> x in s
    ensures forall i, j :: 0 <= i < j < |r| ==> r[i] != r[j]
  {
    if s == [] then []
    else
      var init, last := s[..|s| - 1], s[|s| - 1];
      assert s == init + [last];
      var p := Dedup(init);
      if last in init then p else p + [last]
  }

  /** The positions of the first occurrences, in ascending order. */
  ghost function FirstPositions<T>(s: seq<T>): (ix: seq<int>)
    ensures forall k :: 0 <= k < |ix| ==> 0 <= ix[k] < |s| && IsFirst(s, ix[k])
    ensures forall k, l :: 0 <= k < l < |ix| ==> ix[k] < ix[l]
    ensures forall i :: 0 <= i < |s| && IsFirst(s, i) ==> i in ix
  {
    if s == [] then []
    else
      var init, last := s[..|s| - 1], s[|s| - 1];
      var p := FirstPositions(init);
      assert forall i :: 0 <= i < |init| ==> s[..i] == init[..i];
      if last in init then p else p + [|s| - 1]
  }

  /** Dedup is exactly the subsequence of first occurrences, in input order. */
  lemma {:induction false} DedupKeepsFirsts<T(!new)>(s: seq<T>)
    ensures |Dedup(s)| == |FirstPositions(s)|
    ensures forall k :: 0 <= k < |Dedup(s)| ==> Dedup(s)[k] == s[FirstPositions(s)[k]]
  {
    if s != [] {
      var init := s[..|s| - 1];
      DedupKeepsFirsts(init);
      assert forall i :: 0 <= i < |init| ==> s[i] == init[i];
    }
  }

  /** Dropping duplicates from rows in key order leaves them in key order. */
  lemma DedupKeepsOrder<T(!new)>(s: seq<T>, key: T -> int)
    requires SortedBy(s, key)
    ensures SortedBy(Dedup(s), key)
  {
    DedupKeepsFirsts(s);
    var r, ix := Dedup(s), FirstPositions(s);
    forall i, j | 0 <= i < j < |r|
      ensures key(r[i]) <= key(r[j])
    {
      assert r[i] == s[ix[i]] && r[j] == s[ix[j]];
    }
  }

  /** The rows whose key equals k, in input order (a boolean-mask selection). */
  function Where<T(!new)>(s: seq<T>, key: T -> int, k: int): (r: seq<T>)
    ensures |r| <= |s|
    ensures forall i :: 0 <= i < |r| ==> key(r[i]) == k
    ensures forall x :: x in r <==> x in s && key(x) == k
  {
    if s == [] then []
    else
      var init, last := s[..|s| - 1], s[|s| - 1];
      assert s == init + [last];
      if key(last) == k then Where(init, key, k) + [last] else Where(init, key, k)
  }

  /** Selection keeps every copy of a row with the key: a row occurs in the
      selection as often as in the input when it has the key, and not at all
      otherwise. */
  lemma {:induction false} WhereCount<T(!new)>(s: seq<T>, key: T -> int, k: int, x: T)
    ensures multiset(Where(s, key, k))[x] == if key(x) == k then multiset(s)[x] else 0
  {
    if s != [] {
      var init, last := s[..|s| - 1], s[|s| - 1];
      assert s == init + [last];
      WhereCount(init, key, k, x);
    }
  }

  /** Selecting from rows in key order keeps them in key order. */
  lemma {:induction false} WhereKeepsOrder<T(!new)>(s: seq<T>, sortKey: T -> int, key: T -> int, k: int)
    requires SortedBy(s, sortKey)
    ensures SortedBy(Where(s, key, k), sortKey)
  {
    if s != [] {
      var init, last := s[..|s| - 1], s[|s| - 1];
      assert SortedBy(init, sortKey);
      WhereKeepsOrder(init, sortKey, key, k);
      assert s == init + [last];
      var w := Where(init, key, k);
      forall x | x in w ensures sortKey(x) <= sortKey(last) {
        var i :| 0 <= i < |init| && init[i] == x;
      }
    }
  }

  /** No row is selected when no row has the key. */
  lemma {:induction false} WhereNone<T(!new)>(s: seq<T>, key: T -> int, k: int)
    requires forall i :: 0 <= i < |s| ==> key(s[i]) != k
    ensures Where(s, key, k) == []
  {
    if s != [] {
      WhereNone(s[..|s| - 1], key, k);
    }
  }

  /** Rows whose keys are pairwise different. */
  predicate UniqueKeys<T>(s: seq<T>, key: T -> int) {
    forall i, j :: 0 <= i < j < |s| ==> key(s[i]) != key(s[j])
  }

  /** With unique keys, at most one row is selected. */
  lemma {:induction false} WhereUnique<T(!new)>(s: seq<T>, key: T -> int, k: int)
    requires UniqueKeys(s, key)
    ensures |Where(s, key, k)| <= 1
  {
    if s != [] {
      var init, last := s[..|s| - 1], s[|s| - 1];
      assert UniqueKeys(init, key);
      WhereUnique(init, key, k);
      if key(last) == k {
        WhereNone(init, key, k);
      }
    }
  }

  /** One row of a left merge: a left row and the right row it was matched
      with, or None when no right row has its key. */
  datatype Pair<L, R> = Pair(left: L, right: Option<R>)

  /** The merge of one left row with the right rows ms that share its key. */
  function JoinOne<L, R>(l: L, ms: seq<R>): (r: seq<Pair<L, R>>)
    ensures ms == [] ==> r == [Pair(l, None)]
    ensures ms != [] ==> |r| == |ms| && forall k :: 0 <= k < |r| ==> r[k] == Pair(l, Some(ms[k]))
  {
    if ms == [] then [Pair(l, None)]
    else seq(|ms|, k requires 0 <= k < |ms| => Pair(l, Some(ms[k])))
  }

  /** `merge(right, how="left")` on one key: for every left row in order, one
      output row per right row with the same key (in right order), or a single
      unmatched row when there is none. `LeftJoinSnoc` states the order,
      `LeftJoinMatchedCount` and `LeftJoinUnmatchedCount` the number of rows. */
  function LeftJoin<L(!new), R(!new)>(left: seq<L>, right: seq<R>, lkey: L -> int, rkey: R -> int): (r: seq<Pair<L, R>>)
    ensures |r| >= |left|
    ensures forall p :: p in r ==> p.left in left
    ensures forall p :: p in r && p.right.Some? ==> p.right.value in right && rkey(p.right.value) == lkey(p.left)
    ensures forall p :: p in r && p.right.None? ==> forall x :: x in right ==> rkey(x) != lkey(p.left)
    ensures forall l :: l in left ==> exists p :: p in r && p.left == l
  {
    if left == [] then []
    else
      var init, last := left[..|left| - 1], left[|left| - 1];
      assert left == init + [last];
      var p, ms := LeftJoin(init, right, lkey, rkey), Where(right, rkey, lkey(last));
      var q := JoinOne(last, ms);
      assert q[0] in q;
      assert forall x :: x in q ==> x.left == last;
      assert forall x :: x in q && x.right.Some? ==> x.right.value in ms by {
        forall x | x in q && x.right.Some? ensures x.right.value in ms {
          var k :| 0 <= k < |q| && q[k] == x;
        }
      }
      p + q
  }

  /** A one-row merge holds Pair(l, Some(x)) once per copy of x in ms when l
      is its left row, and never otherwise. */
  lemma {:induction false} JoinOneCount<L, R>(l0: L, ms: seq<R>, l: L, x: R)
    requires ms != []
    ensures multiset(JoinOne(l0, ms))[Pair(l, Some(x))] == if l == l0 then multiset(ms)[x] else 0
    ensures Pair(l, None) !in JoinOne(l0, ms)
  {
    var q := JoinOne(l0, ms);
    if |ms| == 1 {
      assert q == [Pair(l0, Some(ms[0]))];
      assert ms == [ms[0]];
    } else {
      var init := ms[..|ms| - 1];
      JoinOneCount(l0, init, l, x);
      assert q == JoinOne(l0, init) + [Pair(l0, Some(ms[|ms| - 1]))];
      assert ms == init + [ms[|ms| - 1]];
    }
  }

  /** Each left row l is paired with each right row x of its key as many
      times as l occurs in left times x occurs in right. */
  lemma {:induction false} LeftJoinMatchedCount<L(!new), R(!new)>(
      left: seq<L>, right: seq<R>, lkey: L -> int, rkey: R -> int, l: L, x: R)
    requires rkey(x) == lkey(l)
    ensures multiset(LeftJoin(left, right, lkey, rkey))[Pair(l, Some(x))] == multiset(left)[l] * multiset(right)[x]
  {
    if left != [] {
      var init, last := left[..|left| - 1], left[|left| - 1];
      var p, q := LeftJoin(init, right, lkey, rkey), JoinOne(last, Where(right, rkey, lkey(last)));
      var pr := Pair(l, Some(x));
      var a, m, n := multiset(init)[l], multiset(right)[x], if l == last then 1 else 0;
      var total, cp, cq := multiset(LeftJoin(left, right, lkey, rkey))[pr], multiset(p)[pr], multiset(q)[pr];
      assert total == cp + cq by {
        LeftJoinSnoc(left, right, lkey, rkey);
      }
      SnocCount(left, l);
      assert cp == a * m by {
        LeftJoinMatchedCount(init, right, lkey, rkey, l, x);
      }
      assert cq == if n == 1 then m else 0 by {
        JoinStepCount(last, right, lkey, rkey, l, x);
      }
      CountStep(total, cp, cq, a, n, m);
    }
  }

  /** The copies of x in s are those before its last element plus one when
      the last element is x. */
  lemma SnocCount<T>(s: seq<T>, x: T)
    requires s != []
    ensures multiset(s)[x] == multiset(s[..|s| - 1])[x] + if x == s[|s| - 1] then 1 else 0
  {
    assert s == s[..|s| - 1] + [s[|s| - 1]];
  }

  /** The arithmetic of one step of the count. */
  lemma CountStep(total: int, cp: int, cq: int, a: int, n: int, m: int)
    requires total == cp + cq && cp == a * m && (n == 0 || n == 1) && cq == if n == 1 then m else 0
    ensures total == (a + n) * m
  {
  }

  /** The rows one left row adds to the merge hold Pair(l, Some(x)) once per
      copy of x in right when l is that row, and never otherwise. */
  lemma JoinStepCount<L, R(!new)>(l0: L, right: seq<R>, lkey: L -> int, rkey: R -> int, l: L, x: R)
    requires rkey(x) == lkey(l)
    ensures multiset(JoinOne(l0, Where(right, rkey, lkey(l0))))[Pair(l, Some(x))] ==
      if l == l0 then multiset(right)[x] else 0
  {
    var ms := Where(right, rkey, lkey(l0));
    if ms == [] {
      assert JoinOne(l0, ms) == [Pair(l0, None)];
      WhereCount(right, rkey, lkey(l0), x);
    } else {
      JoinOneCount(l0, ms, l, x);
      WhereCount(right, rkey, lkey(l0), x);
    }
  }

  /** A left row l is left unmatched once per copy in left when no right row
      has its key, and never otherwise. */
  lemma {:induction false} LeftJoinUnmatchedCount<L(!new), R(!new)>(
      left: seq<L>, right: seq<R>, lkey: L -> int, rkey: R -> int, l: L)
    ensures multiset(LeftJoin(left, right, lkey, rkey))[Pair(l, None)] ==
      if Where(right, rkey, lkey(l)) == [] then multiset(left)[l] else 0
  {
    if left != [] {
      var init, last := left[..|left| - 1], left[|left| - 1];
      var ms := Where(right, rkey, lkey(last));
      var p, q := LeftJoin(init, right, lkey, rkey), JoinOne(last, ms);
      var pr := Pair(l, None);
      assert multiset(LeftJoin(left, right, lkey, rkey))[pr] == multiset(p)[pr] + multiset(q)[pr] by {
        LeftJoinSnoc(left, right, lkey, rkey);
      }
      SnocCount(left, l);
      LeftJoinUnmatchedCount(init, right, lkey, rkey, l);
      assert multiset(q)[pr] == if l == last && ms == [] then 1 else 0 by {
        if ms == [] {
          assert q == [Pair(last, None)];
        } else {
          JoinOneCount(last, ms, l, ms[0]);
        }
      }
    }
  }

  /** The first right row with key k, if any. */
  function Lookup<R(!new)>(right: seq<R>, rkey: R -> int, k: int): Option<R> {
    var ms := Where(right, rkey, k);
    if ms == [] then None else Some(ms[0])
  }

  /** The definition of the merge, one left row at a time. */
  lemma LeftJoinSnoc<L(!new), R(!new)>(left: seq<L>, right: seq<R>, lkey: L -> int, rkey: R -> int)
    requires left != []
    ensures LeftJoin(left, right, lkey, rkey) ==
      LeftJoin(left[..|left| - 1], right, lkey, rkey) + JoinOne(left[|left| - 1], Where(right, rkey, lkey(left[|left| - 1])))
  {
  }

  lemma JoinOneUnique<L, R(!new)>(l: L, right: seq<R>, rkey: R -> int, k: int)
    requires UniqueKeys(right, rkey)
    ensures JoinOne(l, Where(right, rkey, k)) == [Pair(l, Lookup(right, rkey, k))]
  {
    WhereUnique(right, rkey, k);
  }

  /** Every left row once, in place, with the first right row of its key. */
  function LookupAll<L, R(!new)>(left: seq<L>, right: seq<R>, lkey: L -> int, rkey: R -> int): (r: seq<Pair<L, R>>)
    ensures |r| == |left|
    ensures forall i :: 0 <= i < |left| ==> r[i] == Pair(left[i], Lookup(right, rkey, lkey(left[i])))
  {
    seq(|left|, i requires 0 <= i < |left| => Pair(left[i], Lookup(right, rkey, lkey(left[i]))))
  }

  lemma LookupAllSnoc<L, R(!new)>(left: seq<L>, right: seq<R>, lkey: L -> int, rkey: R -> int)
    requires left != []
    ensures LookupAll(left, right, lkey, rkey) ==
      LookupAll(left[..|left| - 1], right, lkey, rkey) + [Pair(left[|left| - 1], Lookup(right, rkey, lkey(left[|left| - 1])))]
  {
  }

  /** With unique right keys the merge keeps every left row once and in
      place, each paired with the right row of its key. */
  lemma {:induction false} LeftJoinUniqueKeys<L(!new), R(!new)>(left: seq<L>, right: seq<R>, lkey: L -> int, rkey: R -> int)
    requires UniqueKeys(right, rkey)
    ensures LeftJoin(left, right, lkey, rkey) == LookupAll(left, right, lkey, rkey)
  {
    if left != [] {
      var init, last := left[..|left| - 1], left[|left| - 1];
      LeftJoinUniqueKeys(init, right, lkey, rkey);
      JoinOneUnique(last, right, rkey, lkey(last));
      LeftJoinSnoc(left, right, lkey, rkey);
      LookupAllSnoc(left, right, lkey, rkey);
    }
  }

  /** Merging left rows that are in order of some key keeps them in that order. */
  lemma {:induction false} LeftJoinKeepsOrder<L(!new), R(!new)>(
      left: seq<L>, right: seq<R>, lkey: L -> int, rkey: R -> int, sortKey: L -> int, pairKey: Pair<L, R> -> int)
    requires SortedBy(left, sortKey)
    requires forall p :: pairKey(p) == sortKey(p.left)
    ensures SortedBy(LeftJoin(left, right, lkey, rkey), pairKey)
  {
    if left != [] {
      var init, last := left[..|left| - 1], left[|left| - 1];
      assert SortedBy(init, sortKey);
      LeftJoinKeepsOrder(init, right, lkey, rkey, sortKey, pairKey);
      var p, q := LeftJoin(init, right, lkey, rkey), JoinOne(last, Where(right, rkey, lkey(last)));
      forall x | x in p ensures pairKey(x) <= sortKey(last) {
        var i :| 0 <= i < |init| && init[i] == x.left;
        assert left[i] == init[i];
      }
      assert forall x :: x in q ==> x.left == last;
      var r := p + q;
      assert LeftJoin(left, right, lkey, rkey) == r;
      forall i, j | 0 <= i < j < |r| ensures pairKey(r[i]) <= pairKey(r[j]) {
        if j >= |p| {
          assert r[j] in q;
          if i >= |p| {
            assert r[i] in q;
          } else {
            assert r[i] in p;
          }
        }
      }
    }
  }

  /** Keys in strictly ascending order. */
  predicate StrictlyAscending(ks: seq<int>) {
    forall i, j :: 0 <= i < j < |ks| ==> ks[i] < ks[j]
  }

  function InsertKey(k: int, ks: seq<int>): (r: seq<int>)
    requires StrictlyAscending(ks)
    ensures StrictlyAscending(r)
    ensures forall x :: x in r <==> x in ks || x == k
  {
    if ks == [] then [k]
    else if k < ks[0] then [k] + ks
    else if k == ks[0] then ks
    else
      var rest := InsertKey(k, ks[1..]);
      assert forall x :: x in ks[1..] ==> ks[0] < x;
      assert forall i :: 0 <= i < |rest| ==> rest[i] in rest;
      [ks[0]] + rest
  }

  /** The distinct keys of the rows, ascending: the group keys of `groupby`,
      which sorts them. */
  function Keys<T(!new)>(s: seq<T>, key: T -> int): (ks: seq<int>)
    ensures StrictlyAscending(ks)
    ensures forall k :: k in ks <==> exists i :: 0 <= i < |s| && key(s[i]) == k
  {
    if s == [] then []
    else
      var init, last := s[..|s| - 1], s[|s| - 1];
      assert s == init + [last];
      InsertKey(key(last), Keys(init, key))
  }

  /** One group of `groupby`: its key and its rows, in input order. */
  datatype Group<T> = Group(key: int, rows: seq<T>)

  /** `groupby(key)`: one non-empty group per distinct key, in ascending key
      order, holding exactly the rows with that key. */
  function GroupBy<T(!new)>(s: seq<T>, key: T -> int): (gs: seq<Group<T>>)
    ensures forall g, h :: 0 <= g < h < |gs| ==> gs[g].key < gs[h].key
    ensures forall i :: 0 <= i < |s| ==> exists g :: 0 <= g < |gs| && gs[g].key == key(s[i])
    ensures forall g :: 0 <= g < |gs| ==> gs[g].rows == Where(s, key, gs[g].key) && |gs[g].rows| > 0
  {
    var ks := Keys(s, key);
    var gs := seq(|ks|, g requires 0 <= g < |ks| => Group(ks[g], Where(s, key, ks[g])));
    forall i | 0 <= i < |s| ensures exists g :: 0 <= g < |gs| && gs[g].key == key(s[i]) {
      assert key(s[i]) in ks;
      var g :| 0 <= g < |ks| && ks[g] == key(s[i]);
      assert gs[g].key == ks[g];
    }
    forall g | 0 <= g < |gs| ensures |gs[g].rows| > 0 {
      assert ks[g] in ks;
      var i :| 0 <= i < |s| && key(s[i]) == ks[g];
      assert s[i] in gs[g].rows;
    }
    gs
  }
}
