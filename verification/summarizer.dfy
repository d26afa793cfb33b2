/** The summary `upload_csv` computes from the uploaded rows: the row count,
    the three column averages, and the per-type distribution that pandas'
    `value_counts` produces. */
module Summarizer {

  import opened Wrappers
  import Ranking

  /** A floating-point value the model keeps opaque: the mean of a column,
      already rounded, carried as the text Python prints for it. */
  type Measure = string

  /** One parsed CSV row. `equipmentType` is `None` when pandas reads the
      Type cell as NaN: a blank cell, or one of its default missing-value
      strings such as `NA`, `N/A`, `null` or `NaN`. */
  datatype Row = Row(equipmentType: Option<string>, flowrate: Measure,
                     pressure: Measure, temperature: Measure)

  datatype Averages = Averages(flowrate: Measure, pressure: Measure,
                               temperature: Measure)

  /** One item of the distribution dict: an equipment type and its count. */
  datatype Entry = Entry(key: string, count: nat)

  /** The summary dict. The distribution is a Python dict, so it is ordered:
      a sequence of entries with distinct keys. */
  datatype Summary = Summary(totalCount: nat, averages: Averages,
                             distribution: seq<Entry>)

  // ----- reference definitions over the rows -----

  /** Number of rows whose Type is `k`. */
  function CountOf(rows: seq<Row>, k: string): nat {
    if rows == [] then 0
    else CountOf(rows[..|rows| - 1], k)
         + (if rows[|rows| - 1].equipmentType == Some(k) then 1 else 0)
  }

  /** Number of rows whose Type cell is blank. */
  function Blanks(rows: seq<Row>): nat {
    if rows == [] then 0
    else Blanks(rows[..|rows| - 1])
         + (if rows[|rows| - 1].equipmentType.None? then 1 else 0)
  }

  /** The types that occur in the rows. */
  ghost function TypesIn(rows: seq<Row>): set<string> {
    set i | 0 <= i < |rows| && rows[i].equipmentType.Some? :: rows[i].equipmentType.value
  }

  /** `df["Type"].value_counts()` as a mapping: each occurring type to the
      number of rows that carry it. */
  ghost function ValueCounts(rows: seq<Row>): map<string, nat> {
    map k | k in TypesIn(rows) :: CountOf(rows, k)
  }

  function Flowrates(rows: seq<Row>): seq<Measure> {
    seq(|rows|, i requires 0 <= i < |rows| => rows[i].flowrate)
  }

  function Pressures(rows: seq<Row>): seq<Measure> {
    seq(|rows|, i requires 0 <= i < |rows| => rows[i].pressure)
  }

  function Temperatures(rows: seq<Row>): seq<Measure> {
    seq(|rows|, i requires 0 <= i < |rows| => rows[i].temperature)
  }

  // ----- distributions as ordered dicts -----

  ghost function Keys(d: seq<Entry>): set<string> {
    set e | e in d :: e.key
  }

  ghost predicate KeysDistinct(d: seq<Entry>) {
    forall i, j :: 0 <= i < j < |d| ==> d[i].key != d[j].key
  }

  /** The count recorded for `k`, or 0 when `k` is not a key. */
  function Lookup(d: seq<Entry>, k: string): nat {
    if d == [] then 0 else if d[0].key == k then d[0].count else Lookup(d[1..], k)
  }

  /** The dict as a mapping, forgetting its order. */
  ghost function AsMap(d: seq<Entry>): map<string, nat> {
    map k | k in Keys(d) :: Lookup(d, k)
  }

  function SumCounts(d: seq<Entry>): nat {
    if d == [] then 0 else d[0].count + SumCounts(d[1..])
  }

  /** The order `value_counts` lists types in: by count, highest first. */
  function EntryRank(e: Entry): Ranking.Key {
    Ranking.Key(e.count, 0)
  }

  // ----- the computation -----

  /** Counts one more row of type `k`. */
  function Increment(d: seq<Entry>, k: string): (r: seq<Entry>)
    ensures forall k' :: Lookup(r, k') == Lookup(d, k') + (if k' == k then 1 else 0)
    ensures SumCounts(r) == SumCounts(d) + 1
  {
    if d == [] then [Entry(k, 1)]
    else if d[0].key == k then [Entry(k, d[0].count + 1)] + d[1..]
    else [d[0]] + Increment(d[1..], k)
  }

  /** Groups the rows by Type and counts each group, listing types in order
      of first occurrence; blank Type cells are not counted. */
  function Tally(rows: seq<Row>): (d: seq<Entry>)
    ensures KeysDistinct(d)
    ensures Keys(d) == TypesIn(rows)
    ensures forall k :: Lookup(d, k) == CountOf(rows, k)
    ensures SumCounts(d) + Blanks(rows) == |rows|
  {
    if rows == [] then []
    else
      var init := rows[..|rows| - 1];
      TypesInSnoc(rows);
      match rows[|rows| - 1].equipmentType
      case None => Tally(init)
      case Some(k) =>
        IncrementKeys(Tally(init), k);
        Increment(Tally(init), k)
  }

  /** The summary of the uploaded rows. `mean` stands for pandas' column mean
      followed by `round(…, 3)`, which the model does not compute. */
  function Summarize(rows: seq<Row>, mean: seq<Measure> -> Measure): (s: Summary)
    ensures s.totalCount == |rows|
    ensures s.averages == Averages(mean(Flowrates(rows)), mean(Pressures(rows)),
                                   mean(Temperatures(rows)))
    ensures KeysDistinct(s.distribution)
    ensures Keys(s.distribution) == TypesIn(rows)
    ensures forall e :: e in s.distribution ==> e.count == CountOf(rows, e.key) >= 1
    ensures AsMap(s.distribution) == ValueCounts(rows)
    ensures SumCounts(s.distribution) + Blanks(rows) == s.totalCount
    ensures Ranking.Descending(s.distribution, EntryRank)
  {
    var tally := Tally(rows);
    var dist := Ranking.SortDesc(tally, EntryRank);
    SortedDistribution(rows, tally, dist);
    Summary(|rows|, Averages(mean(Flowrates(rows)), mean(Pressures(rows)),
                             mean(Temperatures(rows))),
            dist)
  }

  // ----- lemmas -----

  lemma KeysCons(e: Entry, d: seq<Entry>)
    ensures Keys([e] + d) == {e.key} + Keys(d)
  {
    assert forall x :: x in [e] + d <==> x == e || x in d;
  }

  /** Counting a row of type `k` adds `k` to the keys and keeps them
      distinct. */
  lemma IncrementKeys(d: seq<Entry>, k: string)
    ensures Keys(Increment(d, k)) == Keys(d) + {k}
    ensures KeysDistinct(d) ==> KeysDistinct(Increment(d, k))
  {
    IncrementKeySet(d, k);
    if KeysDistinct(d) {
      IncrementDistinct(d, k);
    }
  }

  lemma {:induction false} IncrementKeySet(d: seq<Entry>, k: string)
    ensures Keys(Increment(d, k)) == Keys(d) + {k}
  {
    if d != [] {
      KeysCons(d[0], d[1..]);
      assert d == [d[0]] + d[1..];
      if d[0].key == k {
        KeysCons(Entry(k, d[0].count + 1), d[1..]);
      } else {
        IncrementKeySet(d[1..], k);
        KeysCons(d[0], Increment(d[1..], k));
      }
    }
  }

  lemma {:induction false} IncrementDistinct(d: seq<Entry>, k: string)
    requires KeysDistinct(d)
    ensures KeysDistinct(Increment(d, k))
  {
    if d != [] && d[0].key != k {
      var t := Increment(d[1..], k);
      IncrementDistinct(d[1..], k);
      assert Keys(t) == Keys(d[1..]) + {k} by { IncrementKeySet(d[1..], k); }
      assert d[0].key !in Keys(d[1..]) by {
        forall e | e in d[1..] ensures e.key != d[0].key {
          var j :| 0 <= j < |d[1..]| && d[1..][j] == e;
          assert d[j + 1] == e;
        }
      }
      forall j | 0 <= j < |t| ensures d[0].key != t[j].key {
        assert t[j] in t;
        assert t[j].key in Keys(t);
      }
    }
  }

  lemma TypesInSnoc(rows: seq<Row>)
    requires rows != []
    ensures TypesIn(rows) == TypesIn(rows[..|rows| - 1])
      + (match rows[|rows| - 1].equipmentType
         case None => {}
         case Some(k) => {k})
  {
    var init := rows[..|rows| - 1];
    forall k | k in TypesIn(init) ensures k in TypesIn(rows) {
      var i :| 0 <= i < |init| && init[i].equipmentType == Some(k);
      assert rows[i] == init[i];
    }
  }

  /** A type that occurs is counted at least once. */
  lemma {:induction false} CountOfOccurring(rows: seq<Row>, k: string)
    requires k in TypesIn(rows)
    ensures CountOf(rows, k) >= 1
  {
    TypesInSnoc(rows);
    if rows[|rows| - 1].equipmentType != Some(k) {
      CountOfOccurring(rows[..|rows| - 1], k);
    }
  }

  /** In a dict with distinct keys, looking up an entry's key finds it. */
  lemma {:induction false} LookupEntry(d: seq<Entry>, e: Entry)
    requires KeysDistinct(d) && e in d
    ensures Lookup(d, e.key) == e.count
  {
    if d[0] != e {
      assert d[0].key != e.key;
      LookupEntry(d[1..], e);
    }
  }

  /** Looking up a key that is absent gives 0. */
  lemma {:induction false} LookupAbsent(d: seq<Entry>, k: string)
    requires k !in Keys(d)
    ensures Lookup(d, k) == 0
  {
    if d != [] {
      assert d[0] in d;
      assert Keys(d[1..]) <= Keys(d);
      LookupAbsent(d[1..], k);
    }
  }

  /** A dict with distinct keys holds no entry twice. */
  lemma KeysDistinctIsDistinct(d: seq<Entry>)
    requires KeysDistinct(d)
    ensures Ranking.Distinct(d)
  {
  }

  /** Inserting an entry adds its count to the total. */
  lemma {:induction false} SumInsert(e: Entry, d: seq<Entry>)
    requires Ranking.Descending(d, EntryRank)
    ensures SumCounts(Ranking.Insert(e, d, EntryRank)) == e.count + SumCounts(d)
  {
    if d != [] && !Ranking.AtLeast(EntryRank(e), EntryRank(d[0])) {
      SumInsert(e, d[1..]);
    }
  }

  /** Sorting a dict keeps its total. */
  lemma {:induction false} SumSort(d: seq<Entry>)
    ensures SumCounts(Ranking.SortDesc(d, EntryRank)) == SumCounts(d)
  {
    if d != [] {
      SumSort(d[1..]);
      SumInsert(d[0], Ranking.SortDesc(d[1..], EntryRank));
    }
  }

  /** Sorting a dict by count keeps it a dict, with the same keys and the
      same count for every key. */
  lemma SortKeepsDict(d: seq<Entry>, r: seq<Entry>)
    requires KeysDistinct(d)
    requires r == Ranking.SortDesc(d, EntryRank)
    ensures KeysDistinct(r)
    ensures Keys(r) == Keys(d)
    ensures forall k :: Lookup(r, k) == Lookup(d, k)
  {
    KeysDistinctIsDistinct(d);
    forall i, j | 0 <= i < j < |r| ensures r[i].key != r[j].key {
      assert r[i] in d && r[j] in d;
    }
    assert Keys(r) == Keys(d);
    forall k ensures Lookup(r, k) == Lookup(d, k) {
      if k in Keys(d) {
        var e :| e in d && e.key == k;
        LookupEntry(d, e);
        LookupEntry(r, e);
      } else {
        LookupAbsent(d, k);
        LookupAbsent(r, k);
      }
    }
  }

  /** The sorted tally is the distribution `value_counts` describes. */
  lemma SortedDistribution(rows: seq<Row>, tally: seq<Entry>, dist: seq<Entry>)
    requires tally == Tally(rows)
    requires dist == Ranking.SortDesc(tally, EntryRank)
    ensures KeysDistinct(dist)
    ensures Keys(dist) == TypesIn(rows)
    ensures forall e :: e in dist ==> e.count == CountOf(rows, e.key) >= 1
    ensures AsMap(dist) == ValueCounts(rows)
    ensures SumCounts(dist) + Blanks(rows) == |rows|
  {
    SortKeepsDict(tally, dist);
    CountsMatch(rows, dist);
    SumSort(tally);
  }

  /** A dict whose lookups agree with the row counts holds exactly the
      counts `value_counts` produces. */
  lemma CountsMatch(rows: seq<Row>, d: seq<Entry>)
    requires KeysDistinct(d)
    requires Keys(d) == TypesIn(rows)
    requires forall k :: Lookup(d, k) == CountOf(rows, k)
    ensures forall e :: e in d ==> e.count == CountOf(rows, e.key) >= 1
    ensures AsMap(d) == ValueCounts(rows)
  {
    forall e | e in d ensures e.count == CountOf(rows, e.key) >= 1 {
      LookupEntry(d, e);
      assert e.key in Keys(d);
      CountOfOccurring(rows, e.key);
    }
  }

  /** Rows that all carry one type `t` summarise to the single entry
      `t: total_count`. */
  lemma {:induction false} SingleTypeTally(rows: seq<Row>, t: string)
    requires rows != []
    requires forall i :: 0 <= i < |rows| ==> rows[i].equipmentType == Some(t)
    ensures Tally(rows) == [Entry(t, |rows|)]
  {
    if |rows| > 1 {
      SingleTypeTally(rows[..|rows| - 1], t);
    }
  }

  lemma SingleType(rows: seq<Row>, t: string, mean: seq<Measure> -> Measure)
    requires rows != []
    requires forall i :: 0 <= i < |rows| ==> rows[i].equipmentType == Some(t)
    ensures Summarize(rows, mean).distribution == [Entry(t, Summarize(rows, mean).totalCount)]
  {
    SingleTypeTally(rows, t);
  }

  /** Two pumps and a valve summarise to three rows, two of type Pump
      listed before one of type Valve. */
  lemma PumpsAndValve(mean: seq<Measure> -> Measure)
    ensures var rows := [Row(Some("Pump"), "10", "2", "300"),
                         Row(Some("Pump"), "20", "4", "310"),
                         Row(Some("Valve"), "5", "1", "290")];
            && Summarize(rows, mean).totalCount == 3
            && Summarize(rows, mean).distribution == [Entry("Pump", 2), Entry("Valve", 1)]
  {
    var rows := [Row(Some("Pump"), "10", "2", "300"),
                 Row(Some("Pump"), "20", "4", "310"),
                 Row(Some("Valve"), "5", "1", "290")];
    assert rows[..2][..1] == [rows[0]];
    assert rows[..2] == [rows[0], rows[1]];
    assert Tally([rows[0]]) == [Entry("Pump", 1)];
    assert Tally(rows[..2]) == [Entry("Pump", 2)];
    var tally := [Entry("Pump", 2), Entry("Valve", 1)];
    assert "Pump" != "Valve" by {
      assert "Pump"[0] != "Valve"[0];
    }
    assert Increment([Entry("Pump", 2)], "Valve") == tally;
    assert Tally(rows) == tally;
    assert Ranking.SortDesc(tally[1..], EntryRank) == [Entry("Valve", 1)];
  }
}
