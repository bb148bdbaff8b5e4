/**
 * Sequence operations that stand for the SQL and Python list operations the
 * store and the quiz engine use: `WHERE` filters, `LIMIT`, Python slices,
 * `random.sample` and `random.shuffle` (as index choices made by the caller),
 * `list.index`, and `ORDER BY` (as an insertion sort on a total preorder).
 */
module Seqs {
  import opened Wrappers

  /** The elements of `s` that satisfy `p`, in their original order (SQL `WHERE`). */
  function Filter<T>(s: seq<T>, p: T -> bool): (r: seq<T>)
    ensures |r| <= |s|
    ensures forall i :: 0 <= i < |r| ==> r[i] in s && p(r[i])
    ensures forall i :: 0 <= i < |s| && p(s[i]) ==> s[i] in r
  {
    if s == [] then []
    else if p(s[0]) then [s[0]] + Filter(s[1..], p)
    else Filter(s[1..], p)
  }

  /** No two positions of `s` share a key. */
  predicate KeysUnique<T>(s: seq<T>, key: T -> int) {
    forall i, j :: 0 <= i < j < |s| ==> key(s[i]) != key(s[j])
  }

  /** Filtering keeps keys unique. */
  lemma {:induction false} FilterKeysUnique<T>(s: seq<T>, p: T -> bool, key: T -> int)
    requires KeysUnique(s, key)
    ensures KeysUnique(Filter(s, p), key)
  {
    if s != [] {
      FilterKeysUnique(s[1..], p, key);
      var rest := Filter(s[1..], p);
      forall i | 0 <= i < |rest| ensures key(rest[i]) != key(s[0]) {
        var j :| 0 <= j < |s[1..]| && s[1..][j] == rest[i];
        assert s[j + 1] == rest[i];
      }
    }
  }

  /** When exactly one element of `s` fails `p`, filtering removes exactly one element. */
  lemma {:induction false} FilterDropsOne<T>(s: seq<T>, p: T -> bool, k: nat)
    requires k < |s| && !p(s[k])
    requires forall i :: 0 <= i < |s| && i != k ==> p(s[i])
    ensures |Filter(s, p)| == |s| - 1
  {
    if k == 0 {
      FilterKeepsAll(s[1..], p);
    } else {
      FilterDropsOne(s[1..], p, k - 1);
    }
  }

  lemma {:induction false} FilterKeepsAll<T>(s: seq<T>, p: T -> bool)
    requires forall i :: 0 <= i < |s| ==> p(s[i])
    ensures Filter(s, p) == s
  {
    if s != [] {
      FilterKeepsAll(s[1..], p);
    }
  }

  /**
   * SQL `LIMIT n`: the first `n` rows, or all rows when `n` is negative
   * (SQLite reads a negative limit as no limit).
   */
  function Limit<T>(s: seq<T>, n: int): (r: seq<T>)
    ensures |r| <= |s| && r == s[..|r|]
    ensures n < 0 ==> r == s
    ensures n >= 0 ==> |r| == Min(n, |s|)
  {
    if n < 0 || |s| <= n then s else s[..n]
  }

  /** Python `s[:n]`: a negative `n` counts from the end. */
  function SliceTo<T>(s: seq<T>, n: int): (r: seq<T>)
    ensures |r| <= |s| && r == s[..|r|]
    ensures n >= 0 ==> |r| == Min(n, |s|)
    ensures n < 0 ==> |r| == Max(0, |s| + n)
  {
    if n >= 0 then s[..Min(n, |s|)] else s[..Max(0, |s| + n)]
  }

  /**
   * What `random.sample(population, k)` may return, as positions into a
   * population of `size` elements: `k` distinct positions.
   */
  predicate IsSample(picks: seq<nat>, size: nat, k: int) {
    && |picks| == k
    && (forall i :: 0 <= i < |picks| ==> picks[i] < size)
    && (forall i, j :: 0 <= i < j < |picks| ==> picks[i] != picks[j])
  }

  /**
   * What `random.shuffle` may do to a list of `n` elements: position `i` of the
   * result holds the element at position `order[i]`, and `order` is a
   * permutation of `0..n`.
   */
  predicate IsPermutation(order: seq<nat>, n: nat) {
    IsSample(order, n, n) && forall j :: 0 <= j < n ==> j in order
  }

  /** The elements at the chosen positions, in the order they were chosen. */
  function Pick<T>(s: seq<T>, picks: seq<nat>): (r: seq<T>)
    requires forall i :: 0 <= i < |picks| ==> picks[i] < |s|
    ensures |r| == |picks|
  {
    seq(|picks|, i requires 0 <= i < |picks| => s[picks[i]])
  }

  /** A sample of a sequence with unique keys has unique keys; every picked element comes from `s`. */
  lemma PickKeysUnique<T>(s: seq<T>, picks: seq<nat>, key: T -> int)
    requires KeysUnique(s, key)
    requires IsSample(picks, |s|, |picks|)
    ensures KeysUnique(Pick(s, picks), key)
  {
    var r := Pick(s, picks);
    forall i, j | 0 <= i < j < |r| ensures key(r[i]) != key(r[j]) {
      assert r[i] == s[picks[i]] && r[j] == s[picks[j]];
    }
  }

  /** Shuffling a sequence with unique keys keeps exactly the same elements. */
  lemma ShuffleSameElements<T>(s: seq<T>, order: seq<nat>)
    requires IsPermutation(order, |s|)
    ensures |Pick(s, order)| == |s|
    ensures forall i :: 0 <= i < |s| ==> Pick(s, order)[i] in s
    ensures forall j :: 0 <= j < |s| ==> s[j] in Pick(s, order)
  {
    var r := Pick(s, order);
    forall j | 0 <= j < |s| ensures s[j] in r {
      assert j in order;
      var i :| 0 <= i < |order| && order[i] == j;
      assert r[i] == s[j];
    }
  }

  /** Python `list.index(x)`: the first position holding `x`. */
  function IndexOf<T(==)>(s: seq<T>, x: T): (i: nat)
    requires x in s
    ensures i < |s| && s[i] == x
    ensures forall j :: 0 <= j < i ==> s[j] != x
  {
    if s[0] == x then 0 else 1 + IndexOf(s[1..], x)
  }

  function Reverse<T>(s: seq<T>): (r: seq<T>)
    ensures |r| == |s|
  {
    if s == [] then [] else Reverse(s[1..]) + [s[0]]
  }

  /** `le` is total and transitive, so it can drive a sort. */
  ghost predicate TotalPreorder<T(!new)>(le: (T, T) -> bool) {
    && (forall a, b :: le(a, b) || le(b, a))
    && (forall a, b, c :: le(a, b) && le(b, c) ==> le(a, c))
  }

  ghost predicate SortedBy<T>(s: seq<T>, le: (T, T) -> bool) {
    forall i, j :: 0 <= i < j < |s| ==> le(s[i], s[j])
  }

  /** Puts `x` before the first element it is ordered before. */
  function Insert<T>(x: T, s: seq<T>, le: (T, T) -> bool): (r: seq<T>)
    ensures |r| == |s| + 1
    ensures multiset(r) == multiset(s) + multiset{x}
  {
    if s == [] then [x]
    else if le(x, s[0]) then [x] + s
    else
      assert s == [s[0]] + s[1..];
      [s[0]] + Insert(x, s[1..], le)
  }

  /** SQL `ORDER BY`: the rows of `s` in the order `le` gives (insertion sort). */
  function SortBy<T>(s: seq<T>, le: (T, T) -> bool): (r: seq<T>)
    ensures |r| == |s|
    ensures multiset(r) == multiset(s)
  {
    if s == [] then []
    else
      assert s == [s[0]] + s[1..];
      Insert(s[0], SortBy(s[1..], le), le)
  }

  lemma {:induction false} InsertSorted<T(!new)>(x: T, s: seq<T>, le: (T, T) -> bool)
    requires TotalPreorder(le) && SortedBy(s, le)
    ensures SortedBy(Insert(x, s, le), le)
  {
    if s != [] && !le(x, s[0]) {
      InsertSorted(x, s[1..], le);
      var r := Insert(x, s[1..], le);
      forall k | 0 <= k < |r| ensures le(s[0], r[k]) {
        var y := r[k];
        assert y in multiset(r);
        assert y == x || y in multiset(s[1..]);
        if y != x {
          var j :| 0 <= j < |s[1..]| && s[1..][j] == y;
          assert s[j + 1] == y;
        }
      }
    }
  }

  /** Sorting on a total preorder yields a sorted permutation of the input. */
  lemma {:induction false} SortBySorted<T(!new)>(s: seq<T>, le: (T, T) -> bool)
    requires TotalPreorder(le)
    ensures SortedBy(SortBy(s, le), le)
  {
    if s != [] {
      SortBySorted(s[1..], le);
      InsertSorted(s[0], SortBy(s[1..], le), le);
    }
  }

  /** An element ordered strictly after everything goes to the end. */
  lemma {:induction false} InsertLast<T>(x: T, s: seq<T>, le: (T, T) -> bool)
    requires forall i :: 0 <= i < |s| ==> !le(x, s[i])
    ensures Insert(x, s, le) == s + [x]
  {
    if s != [] {
      InsertLast(x, s[1..], le);
    }
  }

  /** A prefix one element longer is the prefix followed by that element. */
  lemma PrefixStep<T>(s: seq<T>, i: nat)
    requires i < |s|
    ensures s[..i + 1] == s[..i] + [s[i]]
  {
  }

  /** A set with no member is the empty set. */
  lemma HasMember(s: set<int>)
    ensures s == {} || exists x :: x in s
  {
    if forall x :: x !in s {
      assert s == {};
    }
  }

  /** The smallest key of a non-empty set, so that sums over a table have a fixed order. */
  function MinKey(s: set<int>): (k: int)
    requires s != {}
    ensures k in s && forall j :: j in s ==> k <= j
  {
    MinExists(s);
    var k :| k in s && forall j :: j in s ==> k <= j;
    k
  }

  lemma MinExists(s: set<int>)
    requires s != {}
    ensures exists k :: k in s && forall j :: j in s ==> k <= j
  {
    var m := MinOf(s);
  }

  lemma MinOf(s: set<int>) returns (m: int)
    requires s != {}
    ensures m in s && forall j :: j in s ==> m <= j
  {
    HasMember(s);
    var x :| x in s;
    if s == {x} {
      m := x;
    } else {
      var n := MinOf(s - {x});
      m := if x < n then x else n;
      forall j | j in s ensures m <= j {
        if j != x {
          assert j in s - {x};
        }
      }
    }
  }
}
