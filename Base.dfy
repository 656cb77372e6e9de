/** Generic building blocks: optional values, results of fallible model
    operations, and the sequence queries that stand in for SQL over tables
    kept in rowid order (`get` is the first match, `all` a filter in scan
    order, `COUNT(*)` the size of a filter, `ORDER BY ... DESC` a stable sort). */
module Base {

  datatype Option<+T> = None | Some(value: T)

  /** The outcome of a model operation: a value, or the message of the
      `Error` it throws. */
  datatype Result<+T> = Ok(value: T) | Err(message: string)

  /** The rows of `s` that satisfy `p`, in their original order. */
  function Filter<T(!new)>(s: seq<T>, p: T -> bool): (r: seq<T>)
    ensures |r| <= |s|
    ensures forall x :: x in r <==> x in s && p(x)
    ensures multiset(r) <= multiset(s)
  {
    if s == [] then []
    else
      var rest := Filter(s[1..], p);
      assert s == [s[0]] + s[1..];
      if p(s[0]) then [s[0]] + rest else rest
  }

  /** The first row of `s` that satisfies `p` (what a single-row SELECT returns). */
  function FirstWhere<T(!new)>(s: seq<T>, p: T -> bool): (r: Option<T>)
    ensures r.Some? ==> r.value in s && p(r.value)
    ensures r.Some? ==> exists i :: 0 <= i < |s| && s[i] == r.value && forall j :: 0 <= j < i ==> !p(s[j])
    ensures r.None? <==> forall x :: x in s ==> !p(x)
  {
    if s == [] then None
    else if p(s[0]) then Some(s[0])
    else
      assert forall x :: x in s ==> x == s[0] || x in s[1..];
      var r := FirstWhere(s[1..], p);
      if r.Some? then FirstWhereShift(s, p, r.value); r
      else r
  }

  /** A first match in the tail of `s` is a first match in `s` when the head fails `p`. */
  lemma FirstWhereShift<T>(s: seq<T>, p: T -> bool, x: T)
    requires s != [] && !p(s[0])
    requires exists i :: 0 <= i < |s| - 1 && s[1..][i] == x && forall j :: 0 <= j < i ==> !p(s[1..][j])
    ensures exists i :: 0 <= i < |s| && s[i] == x && forall j :: 0 <= j < i ==> !p(s[j])
  {
    var i :| 0 <= i < |s| - 1 && s[1..][i] == x && forall j :: 0 <= j < i ==> !p(s[1..][j]);
    assert s[i + 1] == x;
    forall j | 0 <= j < i + 1 ensures !p(s[j]) {
      if j > 0 {
        assert s[j] == s[1..][j - 1];
      }
    }
  }

  /** Every pair of rows, in order, is related by `rel`. */
  ghost predicate Pairwise<T>(s: seq<T>, rel: (T, T) -> bool) {
    forall i, j :: 0 <= i < j < |s| ==> rel(s[i], s[j])
  }

  /** Filters by predicates that agree on every row are the same. */
  lemma {:induction false} FilterExt<T(!new)>(s: seq<T>, p: T -> bool, q: T -> bool)
    requires forall x :: p(x) == q(x)
    ensures Filter(s, p) == Filter(s, q)
  {
    if s != [] {
      FilterExt(s[1..], p, q);
    }
  }

  /** The set of the rows of `s` that satisfy `p`. */
  ghost function Kept<T(!new)>(s: seq<T>, p: T -> bool): set<T> {
    set x | x in s && p(x)
  }

  /** Over rows without duplicates, a filter counts the set of the rows it keeps. */
  lemma {:induction false} FilterCard<T(!new)>(s: seq<T>, p: T -> bool)
    requires NoDuplicates(s)
    ensures |Filter(s, p)| == |Kept(s, p)|
  {
    if s != [] {
      TailNoDuplicates(s);
      FilterCard(s[1..], p);
      SetOfCons(s, p);
    }
  }

  /** The tail of a sequence without duplicates has none and lacks the head. */
  lemma TailNoDuplicates<T>(s: seq<T>)
    requires s != [] && NoDuplicates(s)
    ensures NoDuplicates(s[1..]) && s[0] !in s[1..]
  {
    var tail := s[1..];
    forall i, j | 0 <= i < j < |tail| ensures tail[i] != tail[j] {
      assert tail[i] == s[i + 1] && tail[j] == s[j + 1];
    }
    forall k | 0 <= k < |tail| ensures tail[k] != s[0] {
      assert tail[k] == s[k + 1];
    }
  }

  /** The rows of `s` kept by `p` are those of its tail, plus its head when `p` keeps it. */
  lemma SetOfCons<T(!new)>(s: seq<T>, p: T -> bool)
    requires s != []
    ensures Kept(s, p) == Kept(s[1..], p) + (if p(s[0]) then {s[0]} else {})
  {
    assert s == [s[0]] + s[1..];
  }

  /** At most one row of `s` satisfies `p`. */
  ghost predicate AtMostOne<T>(s: seq<T>, p: T -> bool) {
    forall i, j :: 0 <= i < j < |s| && p(s[i]) ==> !p(s[j])
  }

  /** Filtering keeps the rows in order, so it keeps every pairwise property. */
  lemma {:induction false} FilterPairwise<T(!new)>(s: seq<T>, p: T -> bool, rel: (T, T) -> bool)
    requires Pairwise(s, rel)
    ensures Pairwise(Filter(s, p), rel)
  {
    if s != [] {
      FilterPairwise(s[1..], p, rel);
      var rest := Filter(s[1..], p);
      if p(s[0]) {
        var r := [s[0]] + rest;
        forall i, j | 0 <= i < j < |r| ensures rel(r[i], r[j]) {
          if i == 0 {
            assert r[j] in s[1..];
            var k :| 0 <= k < |s[1..]| && s[1..][k] == r[j];
            assert s[k + 1] == r[j];
          } else {
            assert r[i] == rest[i - 1] && r[j] == rest[j - 1];
          }
        }
      }
    }
  }

  /** When at most one row satisfies `p`, the first match is the only match. */
  lemma {:induction false} FirstWhereOnly<T(!new)>(s: seq<T>, p: T -> bool, x: T)
    requires AtMostOne(s, p)
    requires x in s && p(x)
    ensures FirstWhere(s, p) == Some(x)
  {
    if s[0] != x {
      if p(s[0]) {
        assert false;
      }
      assert x in s[1..] by {
        var k :| 0 <= k < |s| && s[k] == x;
        assert s[1..][k - 1] == x;
      }
      assert AtMostOne(s[1..], p) by {
        forall i, j | 0 <= i < j < |s[1..]| && p(s[1..][i]) ensures !p(s[1..][j]) {
          assert s[1..][i] == s[i + 1] && s[1..][j] == s[j + 1];
        }
      }
      FirstWhereOnly(s[1..], p, x);
    }
  }

  /** Filtering by a predicate and by its complement splits the rows. */
  lemma {:induction false} FilterComplement<T(!new)>(s: seq<T>, p: T -> bool, q: T -> bool)
    requires forall x :: q(x) == !p(x)
    ensures multiset(Filter(s, p)) + multiset(Filter(s, q)) == multiset(s)
  {
    if s != [] {
      FilterComplement(s[1..], p, q);
      FilterCons(s, p);
      FilterCons(s, q);
      if p(s[0]) {
        ConsOnLeft(s, Filter(s[1..], p), Filter(s[1..], q));
      } else {
        ConsOnLeft(s, Filter(s[1..], q), Filter(s[1..], p));
      }
    }
  }

  /** One step of `Filter`, stated without its other properties. */
  lemma FilterCons<T(!new)>(s: seq<T>, p: T -> bool)
    requires s != []
    ensures Filter(s, p) == if p(s[0]) then [s[0]] + Filter(s[1..], p) else Filter(s[1..], p)
  {
  }

  /** Putting the first element of `s` in front of one part of a split of the rest. */
  lemma ConsOnLeft<T>(s: seq<T>, a: seq<T>, b: seq<T>)
    requires s != [] && multiset(a) + multiset(b) == multiset(s[1..])
    ensures multiset([s[0]] + a) + multiset(b) == multiset(s)
    ensures multiset(b) + multiset([s[0]] + a) == multiset(s)
  {
    assert s == [s[0]] + s[1..];
    assert multiset([s[0]] + a) == multiset{s[0]} + multiset(a);
    assert multiset(s) == multiset{s[0]} + multiset(s[1..]);
  }

  /** `UPDATE ... SET ... WHERE p`: every row that satisfies `p` is replaced by
      its image under `f`, in place; the other rows are kept as they are. */
  function UpdateWhere<T>(s: seq<T>, p: T -> bool, f: T -> T): (r: seq<T>)
    ensures |r| == |s|
    ensures forall k :: 0 <= k < |s| ==> r[k] == if p(s[k]) then f(s[k]) else s[k]
  {
    if s == [] then []
    else [if p(s[0]) then f(s[0]) else s[0]] + UpdateWhere(s[1..], p, f)
  }

  /** A row related to every earlier row can be appended to a pairwise-related sequence. */
  lemma PairwiseAppend<T>(s: seq<T>, x: T, rel: (T, T) -> bool)
    requires Pairwise(s, rel)
    requires forall y :: y in s ==> rel(y, x)
    ensures Pairwise(s + [x], rel)
  {
    var r := s + [x];
    forall i, j | 0 <= i < j < |r| ensures rel(r[i], r[j]) {
      if j == |s| {
        assert r[i] == s[i];
      } else {
        assert r[i] == s[i] && r[j] == s[j];
      }
    }
  }

  /** The first two elements of a sequence are among its elements. */
  lemma FirstTwoIn<T>(s: seq<T>)
    ensures |s| >= 2 ==> s[0] in s && s[1] in s
  {
  }

  /** `s` is ordered by `key`, largest first. */
  ghost predicate SortedDesc<T>(s: seq<T>, key: T -> int) {
    forall i, j :: 0 <= i < j < |s| ==> key(s[i]) >= key(s[j])
  }

  /** The tail of a sorted sequence is sorted. */
  lemma TailSorted<T>(s: seq<T>, key: T -> int)
    requires s != [] && SortedDesc(s, key)
    ensures SortedDesc(s[1..], key)
  {
    forall i, j | 0 <= i < j < |s[1..]| ensures key(s[1..][i]) >= key(s[1..][j]) {
      assert s[1..][i] == s[i + 1] && s[1..][j] == s[j + 1];
    }
  }

  /** A row whose key is at least the head's can be put in front of a sorted sequence. */
  lemma ConsSorted<T>(h: T, rest: seq<T>, key: T -> int)
    requires SortedDesc(rest, key)
    requires rest != [] ==> key(h) >= key(rest[0])
    ensures SortedDesc([h] + rest, key)
  {
    var r := [h] + rest;
    forall i, j | 0 <= i < j < |r| ensures key(r[i]) >= key(r[j]) {
      assert r[j] == rest[j - 1];
      if i > 0 {
        assert r[i] == rest[i - 1];
      } else if j > 1 {
        assert key(rest[0]) >= key(rest[j - 1]);
      }
    }
  }

  /** Inserts `x` into a sequence sorted by `key`, in front of the rows with an equal key. */
  function InsertDesc<T>(x: T, s: seq<T>, key: T -> int): (r: seq<T>)
    requires SortedDesc(s, key)
    ensures |r| == |s| + 1
    ensures r[0] == x || (s != [] && r[0] == s[0])
    ensures multiset(r) == multiset(s) + multiset{x}
    ensures SortedDesc(r, key)
  {
    if s == [] then [x]
    else if key(x) >= key(s[0]) then
      ConsSorted(x, s, key);
      [x] + s
    else
      TailSorted(s, key);
      var rest := InsertDesc(x, s[1..], key);
      assert s == [s[0]] + s[1..];
      ConsSorted(s[0], rest, key);
      [s[0]] + rest
  }

  /** A stable sort by `key`, largest first: `ORDER BY key DESC` over rows in scan order. */
  function SortDesc<T>(s: seq<T>, key: T -> int): (r: seq<T>)
    ensures multiset(r) == multiset(s)
    ensures |r| == |s|
    ensures SortedDesc(r, key)
  {
    if s == [] then []
    else
      assert s == [s[0]] + s[1..];
      InsertDesc(s[0], SortDesc(s[1..], key), key)
  }

  /** Sorting keeps exactly the rows it was given. */
  lemma SortDescMembers<T>(s: seq<T>, key: T -> int)
    ensures forall x :: x in SortDesc(s, key) <==> x in s
  {
    var r := SortDesc(s, key);
    forall x ensures x in r <==> x in s {
      assert x in r <==> x in multiset(r);
      assert x in s <==> x in multiset(s);
    }
  }

  /** No row occurs twice. */
  ghost predicate NoDuplicates<T>(s: seq<T>) {
    forall i, j :: 0 <= i < j < |s| ==> s[i] != s[j]
  }

  lemma {:induction false} NoDuplicatesCount<T>(s: seq<T>, x: T)
    requires NoDuplicates(s)
    ensures multiset(s)[x] <= 1
  {
    if s != [] {
      assert s == [s[0]] + s[1..];
      assert NoDuplicates(s[1..]) by {
        forall i, j | 0 <= i < j < |s[1..]| ensures s[1..][i] != s[1..][j] {
          assert s[1..][i] == s[i + 1] && s[1..][j] == s[j + 1];
        }
      }
      NoDuplicatesCount(s[1..], x);
      if x == s[0] {
        assert x !in s[1..] by {
          forall k | 0 <= k < |s[1..]| ensures s[1..][k] != x {
            assert s[1..][k] == s[k + 1];
          }
        }
      }
    }
  }

  /** Rows drawn from a sequence without duplicates, each at most as often, have none. */
  lemma SubNoDuplicates<T>(s: seq<T>, r: seq<T>)
    requires multiset(r) <= multiset(s)
    requires NoDuplicates(s)
    ensures NoDuplicates(r)
  {
    forall i, j | 0 <= i < j < |r| ensures r[i] != r[j] {
      if r[i] == r[j] {
        assert r == r[..j] + [r[j]] + r[j+1..];
        assert r[i] == r[..j][i];
        assert multiset(r[..j])[r[i]] >= 1;
        assert multiset(r)[r[i]] >= 2;
        NoDuplicatesCount(s, r[i]);
        assert false;
      }
    }
  }

  /** Rows related pairwise by a symmetric, irreflexive `rel` stay so when reordered. */
  lemma PermutationPairwise<T>(s: seq<T>, r: seq<T>, rel: (T, T) -> bool)
    requires multiset(r) == multiset(s)
    requires Pairwise(s, rel)
    requires forall x, y :: rel(x, y) == rel(y, x)
    requires forall x :: !rel(x, x)
    ensures forall i, j :: 0 <= i < |r| && 0 <= j < |r| && i != j ==> rel(r[i], r[j])
  {
    assert NoDuplicates(s);
    SubNoDuplicates(s, r);
    forall i, j | 0 <= i < |r| && 0 <= j < |r| && i != j ensures rel(r[i], r[j]) {
      assert r[i] in multiset(s) && r[j] in multiset(s);
      var a :| 0 <= a < |s| && s[a] == r[i];
      var b :| 0 <= b < |s| && s[b] == r[j];
      if a < b {
        assert rel(s[a], s[b]);
      } else if b < a {
        assert rel(s[b], s[a]);
      }
    }
  }
}
