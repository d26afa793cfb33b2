/** Ordering by a two-level key, and the insertion sort that lists a sequence
    from the highest key down. pandas' `value_counts` sorts by count, highest
    first, and the history table's queries use `ORDER BY … DESC`. */
module Ranking {

  /** A sort key compared lexicographically: `major` first, then `minor`. */
  datatype Key = Key(major: int, minor: int)

  /** `a` ranks strictly above `b`. */
  predicate Above(a: Key, b: Key) {
    a.major > b.major || (a.major == b.major && a.minor > b.minor)
  }

  /** `a` ranks at least as high as `b`. */
  predicate AtLeast(a: Key, b: Key) {
    !Above(b, a)
  }

  /** Every element ranks at least as high as every later one. */
  predicate Descending<T>(s: seq<T>, rank: T -> Key) {
    forall i, j :: 0 <= i < j < |s| ==> AtLeast(rank(s[i]), rank(s[j]))
  }

  /** No element occurs twice. */
  ghost predicate Distinct<T>(s: seq<T>) {
    forall i, j :: 0 <= i < j < |s| ==> s[i] != s[j]
  }

  /** No two elements share a rank. */
  ghost predicate DistinctRanks<T>(s: seq<T>, rank: T -> Key) {
    forall i, j :: 0 <= i < j < |s| ==> rank(s[i]) != rank(s[j])
  }

  /** The set of elements of a sequence. */
  ghost function Elements<T>(s: seq<T>): set<T> {
    set x | x in s
  }

  /** The elements of `s` that rank strictly above `x`. */
  ghost function Outranking<T>(s: seq<T>, rank: T -> Key, x: T): set<T> {
    set y | y in s && Above(rank(y), rank(x))
  }

  /** Places `x` into a descending sequence, in front of the first element it
      ranks at least as high as. */
  function Insert<T(==,!new)>(x: T, s: seq<T>, rank: T -> Key): (r: seq<T>)
    requires Descending(s, rank)
    ensures |r| == |s| + 1
    ensures forall y :: y in r <==> y == x || y in s
    ensures Descending(r, rank)
    ensures Distinct(s) && x !in s ==> Distinct(r)
  {
    if s == [] then [x]
    else if AtLeast(rank(x), rank(s[0])) then [x] + s
    else
      assert s == [s[0]] + s[1..];
      var t := Insert(x, s[1..], rank);
      assert forall k :: 0 <= k < |t| ==> t[k] == x || t[k] in s[1..];
      assert forall k :: 0 <= k < |t| ==> AtLeast(rank(s[0]), rank(t[k]));
      [s[0]] + t
  }

  /** Insertion sort from the highest rank down. */
  function SortDesc<T(==,!new)>(s: seq<T>, rank: T -> Key): (r: seq<T>)
    ensures |r| == |s|
    ensures forall y :: y in r <==> y in s
    ensures Descending(r, rank)
    ensures Distinct(s) ==> Distinct(r)
  {
    if s == [] then []
    else
      assert s == [s[0]] + s[1..];
      Insert(s[0], SortDesc(s[1..], rank), rank)
  }

  /** Inserting adds exactly one occurrence of `x` and nothing else. */
  lemma {:induction false} InsertPermutes<T(!new)>(x: T, s: seq<T>, rank: T -> Key)
    requires Descending(s, rank)
    ensures multiset(Insert(x, s, rank)) == multiset(s) + multiset{x}
  {
    if s != [] && !AtLeast(rank(x), rank(s[0])) {
      InsertPermutes(x, s[1..], rank);
      assert s == [s[0]] + s[1..];
    }
  }

  /** Sorting only reorders: the result is a permutation of the input. */
  lemma {:induction false} SortPermutes<T(!new)>(s: seq<T>, rank: T -> Key)
    ensures multiset(SortDesc(s, rank)) == multiset(s)
  {
    if s != [] {
      var t := SortDesc(s[1..], rank);
      assert multiset(SortDesc(s, rank)) == multiset(t) + multiset{s[0]} by {
        InsertPermutes(s[0], t, rank);
      }
      assert multiset(t) == multiset(s[1..]) by {
        SortPermutes(s[1..], rank);
      }
      assert multiset(s) == multiset(s[1..]) + multiset{s[0]} by {
        assert s == [s[0]] + s[1..];
      }
    }
  }

  /** A sequence without repetitions has as many elements as its length. */
  lemma {:induction false} DistinctCard<T>(s: seq<T>)
    requires Distinct(s)
    ensures |Elements(s)| == |s|
  {
    if s != [] {
      DistinctCard(s[1..]);
      assert Elements(s) == {s[0]} + Elements(s[1..]);
      assert s[0] !in Elements(s[1..]);
    }
  }

  /** In a sequence sorted from the highest rank down with no repeated rank,
      the elements that outrank the one at position `i` are exactly those
      before it, so there are `i` of them. */
  lemma OutrankingIsPrefix<T>(s: seq<T>, rank: T -> Key, i: nat)
    requires Descending(s, rank) && DistinctRanks(s, rank)
    requires i < |s|
    ensures Outranking(s, rank, s[i]) == Elements(s[..i])
    ensures |Outranking(s, rank, s[i])| == i
  {
    forall y | y in Outranking(s, rank, s[i])
      ensures y in Elements(s[..i])
    {
      var j :| 0 <= j < |s| && s[j] == y;
      assert j < i;
      assert s[..i][j] == y;
    }
    forall y | y in Elements(s[..i])
      ensures y in Outranking(s, rank, s[i])
    {
      var j :| 0 <= j < i && s[..i][j] == y;
      assert s[j] == y;
      assert rank(s[j]) != rank(s[i]);
    }
    DistinctCard(s[..i]);
  }

  /** Reordering a sequence does not change which elements outrank a value. */
  lemma OutrankingSameElements<T>(s: seq<T>, r: seq<T>, rank: T -> Key, x: T)
    requires forall y :: y in r <==> y in s
    ensures Outranking(s, rank, x) == Outranking(r, rank, x)
  {
  }
}
