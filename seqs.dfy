/**
 * Sequence operations that stand for the database queries the route handlers issue:
 * a `where` filter, a `findFirst`, an `orderBy`, a `skip`/`take` window, and the
 * listing of a table's rows in id order.
 */
module Seqs {
  import opened Wrappers
  import opened Domain

  /** Every element occurs at most once. */
  ghost predicate Distinct<T(!new)>(s: seq<T>) {
    forall x :: multiset(s)[x] <= 1
  }

  /** `a` is `b` with some elements dropped, the rest in their original order. */
  predicate Subseq<T(==)>(a: seq<T>, b: seq<T>)
    decreases |b|
  {
    if a == [] then true
    else if b == [] then false
    else if a[0] == b[0] then Subseq(a[1..], b[1..])
    else Subseq(a, b[1..])
  }

  /** The elements of `s` that satisfy `p`, in the order of `s` (a `where` clause, `Array.prototype.filter`). */
  function Filter<T(!new)>(s: seq<T>, p: T -> bool): (r: seq<T>)
    ensures forall x :: x in r <==> x in s && p(x)
    ensures multiset(r) <= multiset(s)
    ensures Subseq(r, s)
  {
    if s == [] then []
    else
      var rest := Filter(s[1..], p);
      assert s == [s[0]] + s[1..];
      if p(s[0]) then
        assert ([s[0]] + rest)[1..] == rest;
        [s[0]] + rest
      else
        assert rest != [] ==> p(rest[0]) && rest[0] in rest;
        rest
  }

  /** Filtering keeps a list free of duplicates. */
  lemma FilterDistinct<T(!new)>(s: seq<T>, p: T -> bool)
    requires Distinct(s)
    ensures Distinct(Filter(s, p))
  {
    var r := Filter(s, p);
    forall x ensures multiset(r)[x] <= 1 {
      assert multiset(r)[x] <= multiset(s)[x];
    }
  }

  /** The position of the first element of `s` that satisfies `p` (`findFirst`, `Array.prototype.findIndex`). */
  function FindIndex<T>(s: seq<T>, p: T -> bool): (r: Option<nat>)
    ensures r.Some? ==> r.value < |s| && p(s[r.value]) && forall j :: 0 <= j < r.value ==> !p(s[j])
    ensures r.None? ==> forall j :: 0 <= j < |s| ==> !p(s[j])
  {
    if s == [] then None
    else if p(s[0]) then Some(0)
    else
      match FindIndex(s[1..], p)
      case None => None
      case Some(i) => Some(i + 1)
  }

  /** `le` is a total preorder: any two elements compare, and comparison chains. */
  ghost predicate TotalPreorder<T(!new)>(le: (T, T) -> bool) {
    && (forall a, b :: le(a, b) || le(b, a))
    && (forall a, b, c :: le(a, b) && le(b, c) ==> le(a, c))
  }

  /** Every element sorts no later than every element after it. */
  ghost predicate SortedBy<T>(s: seq<T>, le: (T, T) -> bool) {
    forall i, j :: 0 <= i < j < |s| ==> le(s[i], s[j])
  }

  /** `x` placed into the sorted `s` before the first element it sorts strictly before. */
  function Insert<T(!new)>(x: T, s: seq<T>, le: (T, T) -> bool): (r: seq<T>)
    requires TotalPreorder(le)
    requires SortedBy(s, le)
    ensures multiset(r) == multiset(s) + multiset{x}
    ensures SortedBy(r, le)
  {
    if s == [] then [x]
    else if le(x, s[0]) then
      ConsSorted(x, s, le);
      [x] + s
    else
      var rest := Insert(x, s[1..], le);
      InsertBehindHead(x, s, le, rest);
      [s[0]] + rest
  }

  /** An element that sorts before every element of a sorted list can head it. */
  lemma ConsSorted<T(!new)>(y: T, s: seq<T>, le: (T, T) -> bool)
    requires TotalPreorder(le)
    requires SortedBy(s, le)
    requires s != [] ==> le(y, s[0])
    ensures SortedBy([y] + s, le)
  {
    var r := [y] + s;
    forall i, j | 0 <= i < j < |r| ensures le(r[i], r[j]) {
      assert r[j] == s[j - 1];
      if i > 0 {
        assert r[i] == s[i - 1];
      } else if j > 1 {
        assert le(s[0], s[j - 1]);
      }
    }
  }

  /** When `x` sorts after the head of `s`, the head stays in front of `x` inserted into the tail. */
  lemma InsertBehindHead<T(!new)>(x: T, s: seq<T>, le: (T, T) -> bool, rest: seq<T>)
    requires TotalPreorder(le)
    requires SortedBy(s, le) && s != [] && !le(x, s[0])
    requires multiset(rest) == multiset(s[1..]) + multiset{x}
    requires SortedBy(rest, le)
    ensures multiset([s[0]] + rest) == multiset(s) + multiset{x}
    ensures SortedBy([s[0]] + rest, le)
  {
    assert s == [s[0]] + s[1..];
    if rest != [] {
      var y := rest[0];
      assert y in multiset(rest);
      if y != x {
        assert y in multiset(s[1..]);
        var k :| 0 <= k < |s[1..]| && s[1..][k] == y;
        assert s[k + 1] == y;
      }
    }
    ConsSorted(s[0], rest, le);
  }

  /** `s` ordered by `le` (an `orderBy` clause); a stable insertion sort. */
  function Sort<T(!new)>(s: seq<T>, le: (T, T) -> bool): (r: seq<T>)
    requires TotalPreorder(le)
    ensures multiset(r) == multiset(s)
    ensures SortedBy(r, le)
  {
    if s == [] then []
    else
      assert s == [s[0]] + s[1..];
      Insert(s[0], Sort(s[1..], le), le)
  }

  /** Sorting keeps the elements, so it keeps a list free of duplicates and keeps membership. */
  lemma SortKeeps<T(!new)>(s: seq<T>, le: (T, T) -> bool)
    requires TotalPreorder(le)
    ensures Distinct(s) ==> Distinct(Sort(s, le))
    ensures forall x :: x in Sort(s, le) <==> x in s
  {
    var r := Sort(s, le);
    forall x ensures x in r <==> x in s {
      assert x in r <==> x in multiset(r);
    }
  }

  /**
   * The rows `skip` .. `skip + take` of `s`, clipped to its end: what a query with
   * `skip` and `take` returns.
   */
  function Window<T>(s: seq<T>, skip: nat, take: nat): (r: seq<T>)
    ensures |r| == if skip >= |s| then 0 else if take < |s| - skip then take else |s| - skip
    ensures forall i :: 0 <= i < |r| ==> r[i] == s[skip + i]
  {
    if skip >= |s| then []
    else if take < |s| - skip then s[skip..skip + take]
    else s[skip..]
  }

  /** A window holds elements of the list it cuts, and cutting a sorted list leaves it sorted. */
  lemma WindowKeeps<T>(s: seq<T>, skip: nat, take: nat, le: (T, T) -> bool)
    ensures forall x :: x in Window(s, skip, take) ==> x in s
    ensures SortedBy(s, le) ==> SortedBy(Window(s, skip, take), le)
  {
    var r := Window(s, skip, take);
    forall x | x in r ensures x in s {
      var i :| 0 <= i < |r| && r[i] == x;
      assert s[skip + i] == x;
    }
  }

  /** Every record of `m` is stored under its own id, and every id is below `n`. */
  ghost predicate Keyed<T>(m: map<Id, T>, n: nat, id: T -> Id) {
    forall k :: k in m ==> k < n && id(m[k]) == k
  }

  /** Raising the id bound keeps a table keyed. */
  lemma KeyedRaise<T>(m: map<Id, T>, n: nat, id: T -> Id)
    requires Keyed(m, n, id)
    ensures Keyed(m, n + 1, id)
  {
  }

  /** A row added under the bound just passed, which the bound then moves past, keeps a table keyed. */
  lemma KeyedAdd<T>(m: map<Id, T>, n: nat, id: T -> Id, x: T)
    requires Keyed(m, n, id)
    requires id(x) == n
    ensures Keyed(m[n := x], n + 1, id)
  {
  }

  /** The records of `m` with id below `n`, in increasing id order: a table read without `orderBy`. */
  function Rows<T(!new)>(m: map<Id, T>, n: nat, id: T -> Id): (r: seq<T>)
    requires forall k :: k in m ==> id(m[k]) == k
    ensures forall k :: k in m && k < n ==> m[k] in r
    ensures forall i :: 0 <= i < |r| ==> id(r[i]) < n && id(r[i]) in m && m[id(r[i])] == r[i]
    ensures forall i, j :: 0 <= i < j < |r| ==> id(r[i]) < id(r[j])
  {
    if n == 0 then []
    else
      var prev := Rows(m, n - 1, id);
      if n - 1 in m then
        var r := prev + [m[n - 1]];
        r
      else
        prev
  }

  /** A row is listed exactly when it is the record stored under its id, and no row is listed twice. */
  lemma RowsMembers<T(!new)>(m: map<Id, T>, n: nat, id: T -> Id)
    requires Keyed(m, n, id)
    ensures forall x :: x in Rows(m, n, id) <==> id(x) in m && m[id(x)] == x
    ensures Distinct(Rows(m, n, id))
  {
    var r := Rows(m, n, id);
    IncreasingIsDistinct(r, id);
    forall x | x in r ensures id(x) in m && m[id(x)] == x {
      var i :| 0 <= i < |r| && r[i] == x;
    }
    forall x | id(x) in m && m[id(x)] == x ensures x in r {
      var k := id(x);
      assert k in m && k < n;
      assert m[k] in r;
    }
  }

  /** In a list that holds nothing twice, no two positions hold the same element. */
  lemma DistinctIndices<T(!new)>(s: seq<T>)
    requires Distinct(s)
    ensures forall i, j :: 0 <= i < j < |s| ==> s[i] != s[j]
  {
    forall i, j | 0 <= i < j < |s| ensures s[i] != s[j] {
      assert s == s[..j] + s[j..];
      assert s[..j][i] == s[i];
      assert s[j..][0] == s[j];
      assert multiset(s)[s[j]] == multiset(s[..j])[s[j]] + multiset(s[j..])[s[j]];
    }
  }

  /** The keys of the elements of `s`. */
  ghost function KeySet<T>(s: seq<T>, key: T -> Id): set<Id> {
    set i | 0 <= i < |s| :: key(s[i])
  }

  /** The keys of a non-empty list are those of all but its last element, and the last one's key. */
  lemma KeySetSnoc<T>(s: seq<T>, key: T -> Id)
    requires s != []
    ensures KeySet(s, key) == KeySet(s[..|s| - 1], key) + {key(s[|s| - 1])}
  {
    var init := s[..|s| - 1];
    forall x | x in KeySet(s, key) ensures x in KeySet(init, key) + {key(s[|s| - 1])} {
      var i :| 0 <= i < |s| && key(s[i]) == x;
      if i < |init| { assert key(init[i]) == x; }
    }
    forall x | x in KeySet(init, key) ensures x in KeySet(s, key) {
      var i :| 0 <= i < |init| && key(init[i]) == x;
      assert key(s[i]) == x;
    }
    assert key(s[|s| - 1]) in KeySet(s, key);
  }

  /** A list whose elements all have different keys has as many keys as elements. */
  lemma {:induction false} DistinctKeysCount<T>(s: seq<T>, key: T -> Id)
    requires forall i, j :: 0 <= i < j < |s| ==> key(s[i]) != key(s[j])
    ensures |KeySet(s, key)| == |s|
  {
    if s != [] {
      var init := s[..|s| - 1];
      assert forall i, j :: 0 <= i < j < |init| ==> key(init[i]) != key(init[j]) by {
        forall i, j | 0 <= i < j < |init| ensures key(init[i]) != key(init[j]) {
          assert init[i] == s[i] && init[j] == s[j];
        }
      }
      DistinctKeysCount(init, key);
      KeySetSnoc(s, key);
      forall i | 0 <= i < |init| ensures key(init[i]) != key(s[|s| - 1]) {
        assert init[i] == s[i];
      }
      assert key(s[|s| - 1]) !in KeySet(init, key);
    }
  }

  /** The keys of the records of `m` that satisfy `p`. */
  ghost function KeysWhere<T>(m: map<Id, T>, p: T -> bool): set<Id> {
    set k | k in m && p(m[k])
  }

  /** A duplicate-free list of exactly the records of `m` that satisfy `p` has one entry per such key. */
  lemma CountKeysWhere<T(!new)>(m: map<Id, T>, id: T -> Id, p: T -> bool, s: seq<T>)
    requires forall k :: k in m ==> id(m[k]) == k
    requires Distinct(s)
    requires forall x :: x in s <==> id(x) in m && m[id(x)] == x && p(x)
    ensures |s| == |KeysWhere(m, p)|
  {
    DistinctIndices(s);
    forall i, j | 0 <= i < j < |s| ensures id(s[i]) != id(s[j]) {
      assert s[i] in s && s[j] in s;
    }
    DistinctKeysCount(s, id);
    var ids := KeySet(s, id);
    var wanted := KeysWhere(m, p);
    forall k | k in wanted ensures k in ids {
      assert m[k] in s;
      var i :| 0 <= i < |s| && s[i] == m[k];
      assert id(s[i]) == k;
    }
    forall k | k in ids ensures k in wanted {
      var i :| 0 <= i < |s| && id(s[i]) == k;
      assert s[i] in s;
    }
    assert ids == wanted;
  }

  /** A list whose keys strictly increase holds no element twice. */
  lemma {:induction false} IncreasingIsDistinct<T(!new)>(s: seq<T>, key: T -> Id)
    requires forall i, j :: 0 <= i < j < |s| ==> key(s[i]) < key(s[j])
    ensures Distinct(s)
  {
    if s != [] {
      var init := s[..|s| - 1];
      var last := s[|s| - 1];
      IncreasingIsDistinct(init, key);
      assert s == init + [last];
      forall i | 0 <= i < |init| ensures init[i] != last {
        assert key(s[i]) < key(s[|s| - 1]);
      }
      forall x ensures multiset(s)[x] <= 1 {
        assert multiset(s)[x] == multiset(init)[x] + multiset([last])[x];
      }
    }
  }

  /**
   * The first record of `m`, in increasing id order, that satisfies `p`: what
   * `findFirst` without `orderBy` answers.
   */
  function FindFirst<T(!new)>(m: map<Id, T>, n: nat, id: T -> Id, p: T -> bool): (r: Option<T>)
    requires Keyed(m, n, id)
    ensures r.Some? ==> id(r.value) in m && m[id(r.value)] == r.value && p(r.value)
    ensures r.Some? ==> forall k :: k in m && p(m[k]) ==> id(r.value) <= k
    ensures r.None? <==> forall k :: k in m ==> !p(m[k])
  {
    var rows := Rows(m, n, id);
    match FindIndex(rows, p)
    case None => None
    case Some(i) =>
      FirstIsLeast(m, n, id, p, rows, i);
      Some(rows[i])
  }

  lemma FirstIsLeast<T(!new)>(m: map<Id, T>, n: nat, id: T -> Id, p: T -> bool, rows: seq<T>, i: nat)
    requires Keyed(m, n, id)
    requires rows == Rows(m, n, id)
    requires i < |rows| && forall j :: 0 <= j < i ==> !p(rows[j])
    ensures forall k :: k in m && p(m[k]) ==> id(rows[i]) <= k
  {
    forall k | k in m && p(m[k]) ensures id(rows[i]) <= k {
      assert m[k] in rows;
      var j :| 0 <= j < |rows| && rows[j] == m[k];
      assert id(rows[j]) == k;
      assert p(rows[j]);
      if i < j {
        assert id(rows[i]) < id(rows[j]);
      }
    }
  }
}
