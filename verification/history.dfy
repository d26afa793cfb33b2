/** The `Instruments` table that `upload_csv` writes and `generate_pdf`
    reads: each upload inserts a row, then every row but the five most
    recent by `uploaded_at` is deleted. */
module History {

  import opened Wrappers
  import Ranking
  import opened Summarizer

  /** How many uploads the table keeps. */
  const Retained: nat := 5

  /** One row of the table. `distribution` is the JSON text of the
      summary's distribution, as the TEXT column holds it. */
  datatype Record = Record(id: nat, uploadedAt: nat, totalCount: nat,
                           averages: Averages, distribution: string)

  /** The table's rows in rowid order, with the counter SQLite keeps for an
      AUTOINCREMENT key: the largest id ever handed out, deleted or not. */
  datatype Table = Table(records: seq<Record>, lastId: nat)

  function Min(a: nat, b: nat): nat {
    if a <= b then a else b
  }

  /** `ORDER BY uploaded_at DESC`; rows uploaded at the same instant are
      put newest id first. */
  function Rank(r: Record): Ranking.Key {
    Ranking.Key(r.uploadedAt, r.id)
  }

  ghost predicate UniqueIds(recs: seq<Record>) {
    forall i, j :: 0 <= i < j < |recs| ==> recs[i].id != recs[j].id
  }

  ghost predicate IdsAscending(recs: seq<Record>) {
    forall i, j :: 0 <= i < j < |recs| ==> recs[i].id < recs[j].id
  }

  /** What SQLite maintains for any such table: rows in increasing id order,
      and no id beyond the AUTOINCREMENT counter. */
  ghost predicate WellFormed(t: Table) {
    && IdsAscending(t.records)
    && forall i :: 0 <= i < |t.records| ==> t.records[i].id <= t.lastId
  }

  /** What the upload keeps true on top: at most `Retained` rows. */
  ghost predicate Valid(t: Table) {
    WellFormed(t) && |t.records| <= Retained
  }

  /** The table's rows from the most recent down. */
  function Newest(recs: seq<Record>): seq<Record> {
    Ranking.SortDesc(recs, Rank)
  }

  function Ids(recs: seq<Record>): set<nat> {
    set r | r in recs :: r.id
  }

  /** The rows whose id is in `ids`, in table order. */
  function KeepIds(recs: seq<Record>, ids: set<nat>): (kept: seq<Record>)
    ensures forall x :: x in kept <==> x in recs && x.id in ids
  {
    if recs == [] then []
    else
      var rest := KeepIds(recs[1..], ids);
      assert forall x :: x in recs <==> x == recs[0] || x in recs[1..];
      if recs[0].id in ids then [recs[0]] + rest else rest
  }

  /** Deleting rows keeps the others in id order. */
  lemma {:induction false} KeepIdsAscending(recs: seq<Record>, ids: set<nat>)
    ensures IdsAscending(recs) ==> IdsAscending(KeepIds(recs, ids))
  {
    if recs != [] && IdsAscending(recs) {
      KeepIdsAscending(recs[1..], ids);
      var rest := KeepIds(recs[1..], ids);
      forall j | 0 <= j < |rest| ensures recs[0].id < rest[j].id {
        assert rest[j] in recs[1..];
      }
    }
  }

  /** Deleting no row leaves the table as it was. */
  lemma {:induction false} KeepIdsAll(recs: seq<Record>, ids: set<nat>)
    requires forall i :: 0 <= i < |recs| ==> recs[i].id in ids
    ensures KeepIds(recs, ids) == recs
  {
    if recs != [] {
      KeepIdsAll(recs[1..], ids);
    }
  }

  /** `DELETE FROM Instruments WHERE id NOT IN (SELECT id FROM Instruments
      ORDER BY uploaded_at DESC LIMIT 5)`. */
  function Prune(recs: seq<Record>): (kept: seq<Record>)
    requires UniqueIds(recs)
    ensures forall x :: x in kept ==> x in recs
    ensures |kept| == Min(|recs|, Retained)
    ensures |recs| <= Retained ==> kept == recs
    ensures IdsAscending(recs) ==> IdsAscending(kept)
  {
    var kept := KeepIds(recs, TopIds(recs));
    PruneCount(recs);
    KeepIdsAscending(recs, TopIds(recs));
    PruneNothing(recs);
    kept
  }

  /** The values an upload's INSERT supplies; id and timestamp are filled
      in by the table. */
  datatype Values = Values(totalCount: nat, averages: Averages, distribution: string)

  /** The row an upload inserts. */
  function NewRecord(t: Table, now: nat, v: Values): Record {
    Record(t.lastId + 1, now, v.totalCount, v.averages, v.distribution)
  }

  /** The INSERT of `upload_csv` followed by its DELETE. `now` is the value
      `CURRENT_TIMESTAMP` takes for the new row. */
  function Append(t: Table, now: nat, v: Values): (t': Table)
    requires WellFormed(t)
    ensures WellFormed(t')
    ensures t'.lastId == t.lastId + 1
    ensures forall i :: 0 <= i < |t.records| ==> t.records[i].id < NewRecord(t, now, v).id
    ensures forall x :: x in t'.records ==> x in t.records || x == NewRecord(t, now, v)
    ensures |t'.records| == Min(|t.records| + 1, Retained)
    ensures |t.records| < Retained ==> t'.records == t.records + [NewRecord(t, now, v)]
  {
    var inserted := t.records + [NewRecord(t, now, v)];
    InsertedAscending(t, now, v);
    var kept := Prune(inserted);
    KeptBounded(t, NewRecord(t, now, v), kept);
    Table(kept, t.lastId + 1)
  }

  /** `SELECT … ORDER BY uploaded_at DESC LIMIT 1`. */
  function MostRecent(recs: seq<Record>): (r: Option<Record>)
    ensures r.None? <==> recs == []
    ensures r.Some? ==> r.value in recs
    ensures r.Some? ==> forall y :: y in recs ==> Ranking.AtLeast(Rank(r.value), Rank(y))
  {
    if recs == [] then None
    else
      var srt := Newest(recs);
      assert srt[0] in recs;
      assert forall y :: y in recs ==> exists j :: 0 <= j < |srt| && srt[j] == y;
      Some(srt[0])
  }

  /** Performs a sequence of uploads, each with the timestamp it is stored
      under. However many uploads there are, the table ends up with at most
      five rows, and with exactly five once five rows have been written. */
  method AppendAll(t: Table, uploads: seq<(nat, Values)>) returns (t': Table)
    requires WellFormed(t)
    ensures WellFormed(t')
    ensures uploads != [] ==> |t'.records| == Min(|t.records| + |uploads|, Retained)
    ensures uploads == [] ==> t' == t
    ensures t'.lastId == t.lastId + |uploads|
  {
    t' := t;
    var i := 0;
    while i < |uploads|
      invariant 0 <= i <= |uploads|
      invariant WellFormed(t')
      invariant i == 0 ==> t' == t
      invariant i > 0 ==> |t'.records| == Min(|t.records| + i, Retained)
      invariant t'.lastId == t.lastId + i
    {
      t' := Append(t', uploads[i].0, uploads[i].1);
      i := i + 1;
    }
  }

  // ----- lemmas -----

  /** Every upload keeps the table within its retention bound. */
  lemma AppendValid(t: Table, now: nat, v: Values)
    requires WellFormed(t)
    ensures Valid(Append(t, now, v))
  {
  }

  /** A row survives the pruning exactly when fewer than five rows are more
      recent than it. */
  lemma PruneKeepsRecent(recs: seq<Record>, x: Record)
    requires UniqueIds(recs)
    requires x in recs
    ensures x in Prune(recs) <==> |Ranking.Outranking(recs, Rank, x)| < Retained
  {
    InTopIds(recs, x);
  }

  /** Every row that survives pruning is more recent than every row that is
      deleted. */
  lemma PruneKeepsNewest(recs: seq<Record>, x: Record, y: Record)
    requires UniqueIds(recs)
    requires x in Prune(recs) && y in recs && y !in Prune(recs)
    ensures Ranking.Above(Rank(x), Rank(y))
  {
    var srt := Newest(recs);
    NewestDistinct(recs);
    PruneKeepsRecent(recs, x);
    PruneKeepsRecent(recs, y);
    var i :| 0 <= i < |srt| && srt[i] == x;
    var j :| 0 <= j < |srt| && srt[j] == y;
    Ranking.OutrankingSameElements(recs, srt, Rank, x);
    Ranking.OutrankingIsPrefix(srt, Rank, i);
    Ranking.OutrankingSameElements(recs, srt, Rank, y);
    Ranking.OutrankingIsPrefix(srt, Rank, j);
    assert i < j;
  }

  /** When the clock has not gone back since the last upload, the new row
      survives the pruning and becomes the table's most recent row. */
  lemma AppendedIsMostRecent(t: Table, now: nat, v: Values)
    requires WellFormed(t)
    requires forall i :: 0 <= i < |t.records| ==> t.records[i].uploadedAt <= now
    ensures NewRecord(t, now, v) in Append(t, now, v).records
    ensures MostRecent(Append(t, now, v).records) == Some(NewRecord(t, now, v))
  {
    var r := NewRecord(t, now, v);
    var inserted := t.records + [r];
    InsertedAscending(t, now, v);
    assert forall y :: y in inserted && y != r ==> Ranking.Above(Rank(r), Rank(y));
    assert Ranking.Outranking(inserted, Rank, r) == {};
    PruneKeepsRecent(inserted, r);
    var kept := Append(t, now, v).records;
    assert r in kept;
    var m := MostRecent(kept).value;
    assert m in inserted;
    assert Ranking.AtLeast(Rank(m), Rank(r));
  }

  /** The new row's id exceeds every id in the table, so inserting it
      keeps the rows in id order. */
  lemma InsertedAscending(t: Table, now: nat, v: Values)
    requires WellFormed(t)
    ensures forall i :: 0 <= i < |t.records| ==> t.records[i].id < NewRecord(t, now, v).id
    ensures IdsAscending(t.records + [NewRecord(t, now, v)])
  {
  }

  /** Rows taken from the table or the new row carry ids up to the new
      row's. */
  lemma KeptBounded(t: Table, r: Record, kept: seq<Record>)
    requires WellFormed(t) && r.id == t.lastId + 1
    requires forall x :: x in kept ==> x in t.records + [r]
    ensures forall x :: x in kept ==> x in t.records || x == r
    ensures forall i :: 0 <= i < |kept| ==> kept[i].id <= t.lastId + 1
  {
    forall i | 0 <= i < |kept| ensures kept[i].id <= t.lastId + 1 {
      assert kept[i] in kept;
      if kept[i] != r {
        var j :| 0 <= j < |t.records| && t.records[j] == kept[i];
      }
    }
  }

  /** Sorting rows with unique ids gives a sequence in which no two rows
      share a rank and no id repeats. */
  lemma NewestDistinct(recs: seq<Record>)
    requires UniqueIds(recs)
    ensures Ranking.DistinctRanks(Newest(recs), Rank)
    ensures UniqueIds(Newest(recs))
  {
    var srt := Newest(recs);
    assert Ranking.Distinct(recs);
    forall i, j | 0 <= i < j < |srt| ensures srt[i].id != srt[j].id {
      assert srt[i] in recs && srt[j] in recs;
    }
  }

  /** The rows whose ids the subquery selects. */
  function TopIds(recs: seq<Record>): set<nat> {
    Ids(Newest(recs)[..Min(|recs|, Retained)])
  }

  /** A row is among the first five of the sorted table exactly when fewer
      than five rows outrank it. */
  lemma InTopIds(recs: seq<Record>, x: Record)
    requires UniqueIds(recs)
    requires x in recs
    ensures x.id in TopIds(recs) <==> |Ranking.Outranking(recs, Rank, x)| < Retained
  {
    var srt := Newest(recs);
    var m := Min(|recs|, Retained);
    NewestDistinct(recs);
    var i :| 0 <= i < |srt| && srt[i] == x;
    Ranking.OutrankingSameElements(recs, srt, Rank, x);
    Ranking.OutrankingIsPrefix(srt, Rank, i);
    if i < m {
      assert srt[..m][i] == x;
    }
  }

  /** Exactly `Min(|recs|, 5)` rows survive. */
  lemma PruneCount(recs: seq<Record>)
    requires UniqueIds(recs)
    ensures |KeepIds(recs, TopIds(recs))| == Min(|recs|, Retained)
  {
    var top := Newest(recs)[..Min(|recs|, Retained)];
    var kept := KeepIds(recs, TopIds(recs));
    assert Ranking.Elements(kept) == Ranking.Elements(top) by {
      KeptInTop(recs);
      TopInKept(recs);
    }
    assert Ranking.Distinct(top) by {
      NewestDistinct(recs);
    }
    assert Ranking.Distinct(kept) by {
      KeepIdsUnique(recs, TopIds(recs));
    }
    Ranking.DistinctCard(top);
    Ranking.DistinctCard(kept);
  }

  lemma KeptInTop(recs: seq<Record>)
    requires UniqueIds(recs)
    ensures forall x :: x in KeepIds(recs, TopIds(recs)) ==> x in Newest(recs)[..Min(|recs|, Retained)]
  {
    NewestDistinct(recs);
    forall x | x in KeepIds(recs, TopIds(recs)) ensures x in Newest(recs)[..Min(|recs|, Retained)] {
      SelectedIsTop(Newest(recs), Min(|recs|, Retained), x);
    }
  }

  /** In a sequence without repeated ids, a row whose id occurs in a
      prefix is in that prefix. */
  lemma SelectedIsTop(srt: seq<Record>, m: nat, x: Record)
    requires UniqueIds(srt) && m <= |srt|
    requires x in srt && x.id in Ids(srt[..m])
    ensures x in srt[..m]
  {
    var y :| y in srt[..m] && y.id == x.id;
    var k :| 0 <= k < m && srt[..m][k] == y;
    var j :| 0 <= j < |srt| && srt[j] == x;
    assert srt[k] == y;
    assert j == k;
  }

  lemma TopInKept(recs: seq<Record>)
    ensures forall x :: x in Newest(recs)[..Min(|recs|, Retained)] ==> x in KeepIds(recs, TopIds(recs))
  {
    var top := Newest(recs)[..Min(|recs|, Retained)];
    forall x | x in top ensures x in KeepIds(recs, TopIds(recs)) {
      assert x.id in Ids(top);
    }
  }

  /** With no more than five rows, every id is selected. */
  lemma PruneNothing(recs: seq<Record>)
    ensures |recs| <= Retained ==> KeepIds(recs, TopIds(recs)) == recs
  {
    if |recs| <= Retained {
      TopIdsSmall(recs);
      IdsOfSorted(recs);
      KeepIdsAll(recs, TopIds(recs));
    }
  }

  lemma TopIdsSmall(recs: seq<Record>)
    requires |recs| <= Retained
    ensures TopIds(recs) == Ids(Newest(recs))
  {
    var srt := Newest(recs);
    assert srt[..Min(|recs|, Retained)] == srt;
  }

  lemma IdsOfSorted(recs: seq<Record>)
    ensures forall i :: 0 <= i < |recs| ==> recs[i].id in Ids(Newest(recs))
  {
    var srt := Newest(recs);
    forall i | 0 <= i < |recs| ensures recs[i].id in Ids(srt) {
      assert recs[i] in srt;
    }
  }

  lemma {:induction false} KeepIdsUnique(recs: seq<Record>, ids: set<nat>)
    requires UniqueIds(recs)
    ensures UniqueIds(KeepIds(recs, ids))
  {
    if recs != [] {
      KeepIdsUnique(recs[1..], ids);
      forall x | x in KeepIds(recs[1..], ids) ensures x.id != recs[0].id {
        var j :| 0 <= j < |recs[1..]| && recs[1..][j] == x;
        assert recs[j + 1] == x;
      }
    }
  }
}
