/** The two endpoints: `upload_csv` summarises an uploaded equipment file,
    stores the summary and returns it; `generate_pdf` lays out the most
    recently stored summary as a report. The database is passed in and
    handed back, and the parsed CSV, the clock and the mean are parameters. */
module Api {
  import opened Wrappers
  import opened Summarizer
  import opened History
  import DistributionJson
  import Report

  /** The database file: `None` until the first upload creates the
      `Instruments` table. */
  datatype Database = Database(instruments: Option<Table>)

  /** What an endpoint answers. */
  datatype Response =
    | Summarised(summary: Summary)
    | BadRequest(error: string)
    | NotFound(message: string)
    | ServerError
    | Pdf(filename: string, paragraphs: seq<Report.Paragraph>)

  const NoFileError: string := "No file uploaded"
  const NoDataMessage: string := "No data available"
  const ReportFile: string := "equipment_report.pdf"

  function Status(r: Response): nat {
    match r
    case Summarised(_) => 200
    case BadRequest(_) => 400
    case NotFound(_) => 404
    case ServerError => 500
    case Pdf(_, _) => 200
  }

  /** The table after `CREATE TABLE IF NOT EXISTS`: a new table is empty
      and has handed out no id yet. */
  function TableOf(db: Database): Table {
    match db.instruments
    case None => Table([], 0)
    case Some(t) => t
  }

  ghost predicate WellFormedDb(db: Database) {
    db.instruments.Some? ==> WellFormed(db.instruments.value)
  }

  /** What the endpoints keep true of the database: a well-formed table of
      at most five rows, each holding a distribution `json.loads` accepts. */
  ghost predicate Inv(db: Database) {
    db.instruments.Some? ==>
      && Valid(db.instruments.value)
      && forall i :: 0 <= i < |db.instruments.value.records| ==>
           DistributionJson.Decode(db.instruments.value.records[i].distribution).Some?
  }

  /** The clock has not gone back since any stored upload. */
  ghost predicate NotBefore(db: Database, now: nat) {
    forall i :: 0 <= i < |TableOf(db).records| ==> TableOf(db).records[i].uploadedAt <= now
  }

  /** The values an upload stores for a summary. */
  function Stored(s: Summary): Values {
    Values(s.totalCount, s.averages, DistributionJson.Encode(s.distribution))
  }

  /** `upload_csv`. `file` is `None` when the request carries no file, and
      otherwise the rows the CSV parses into; `now` is the database clock
      and `mean` the rounded column mean. */
  function UploadCsv(db: Database, file: Option<seq<Row>>, now: nat,
                     mean: seq<Measure> -> Measure): (out: (Database, Response))
    requires WellFormedDb(db)
    ensures file.None? ==> out.0 == db && out.1 == BadRequest(NoFileError) && Status(out.1) == 400
    ensures file.Some? ==> out.1.Summarised? && Status(out.1) == 200
    ensures file.Some? ==> out.1.summary.totalCount == |file.value|
    ensures file.Some? ==> AsMap(out.1.summary.distribution) == ValueCounts(file.value)
    ensures file.Some? ==> out.0.instruments.Some? && WellFormed(out.0.instruments.value)
    ensures file.Some? ==>
              |out.0.instruments.value.records| == Min(|TableOf(db).records| + 1, Retained)
    ensures file.Some? ==> out.0.instruments.value.lastId == TableOf(db).lastId + 1
  {
    match file
    case None => (db, BadRequest(NoFileError))
    case Some(rows) =>
      var s := Summarize(rows, mean);
      (Database(Some(Append(TableOf(db), now, Stored(s)))), Summarised(s))
  }

  /** The report's content for a stored row and its decoded distribution. */
  function ContentOf(r: Record, d: seq<Entry>): Report.Content {
    Report.Content(r.uploadedAt, r.totalCount, r.averages, d)
  }

  /** The part of `generate_pdf` after the query, on an existing table. */
  function LatestReport(t: Table): (r: Response)
    ensures r.NotFound? <==> t.records == []
    ensures r.NotFound? ==> r.message == NoDataMessage && Status(r) == 404
    ensures r.ServerError? <==>
              t.records != [] && DistributionJson.Decode(MostRecent(t.records).value.distribution).None?
    ensures r.Pdf? <==>
              t.records != [] && DistributionJson.Decode(MostRecent(t.records).value.distribution).Some?
    ensures r.Pdf? ==> r.filename == ReportFile
    ensures r.Pdf? ==>
              var newest := MostRecent(t.records).value;
              && (forall y :: y in t.records ==> Ranking.AtLeast(Rank(newest), Rank(y)))
              && Report.Read(r.paragraphs)
                   == Some(ContentOf(newest, DistributionJson.Decode(newest.distribution).value))
  {
    match MostRecent(t.records)
    case None => NotFound(NoDataMessage)
    case Some(newest) =>
      match DistributionJson.Decode(newest.distribution)
      case None => ServerError
      case Some(d) =>
        Report.ReadRender(ContentOf(newest, d));
        Pdf(ReportFile, Report.Render(ContentOf(newest, d)))
  }

  /** `generate_pdf` as written: before the first upload there is no
      `Instruments` table, the query fails and the request ends in a
      server error. */
  function GeneratePdfAsWritten(db: Database): (r: Response)
    ensures db.instruments.None? ==> r == ServerError
    ensures db.instruments.Some? ==> r == LatestReport(db.instruments.value)
  {
    match db.instruments
    case None => ServerError
    case Some(t) => LatestReport(t)
  }

  /** `generate_pdf` with the missing table read as an empty one, so that
      "no upload yet" is answered with the not-found message. */
  function GeneratePdf(db: Database): (r: Response)
    ensures r.NotFound? <==> TableOf(db).records == []
    ensures r.NotFound? ==> Status(r) == 404 && r.message == NoDataMessage
    ensures !r.Summarised? && !r.BadRequest?
  {
    LatestReport(TableOf(db))
  }

  // ----- lemmas -----

  /** A fresh database satisfies the invariant. The corrected report answers
      it with the not-found message; the code as written fails there. */
  lemma EmptyDatabase()
    ensures Inv(Database(None)) && WellFormedDb(Database(None))
    ensures GeneratePdf(Database(None)) == NotFound(NoDataMessage)
    ensures GeneratePdfAsWritten(Database(None)) == ServerError
  {
  }

  /** Uploads keep the database invariant; the report only reads. */
  lemma UploadKeepsInv(db: Database, file: Option<seq<Row>>, now: nat,
                       mean: seq<Measure> -> Measure)
    requires Inv(db)
    ensures WellFormedDb(db)
    ensures Inv(UploadCsv(db, file, now, mean).0)
  {
    if file.Some? {
      var s := Summarize(file.value, mean);
      var t := TableOf(db);
      assert WellFormed(t);
      var t' := Append(t, now, Stored(s));
      assert UploadCsv(db, file, now, mean).0 == Database(Some(t'));
      AppendValid(t, now, Stored(s));
      var added := NewRecord(t, now, Stored(s));
      assert DistributionJson.Decode(added.distribution).Some? by {
        DistributionJson.DecodeEncode(s.distribution);
      }
      forall i | 0 <= i < |t'.records|
        ensures DistributionJson.Decode(t'.records[i].distribution).Some?
      {
        var x := t'.records[i];
        if x != added {
          assert x in t.records;
          var j :| 0 <= j < |t.records| && t.records[j] == x;
        }
      }
    }
  }

  /** A database that satisfies the invariant never makes the corrected
      `generate_pdf` fail: it answers with the report or with the not-found
      message. The code as written does the same once the table exists. */
  lemma GeneratePdfSucceeds(db: Database)
    requires Inv(db)
    ensures GeneratePdf(db).Pdf? || GeneratePdf(db) == NotFound(NoDataMessage)
    ensures db.instruments.Some? ==>
              GeneratePdfAsWritten(db).Pdf? || GeneratePdfAsWritten(db) == NotFound(NoDataMessage)
  {
    var t := TableOf(db);
    if t.records != [] {
      var newest := MostRecent(t.records).value;
      var j :| 0 <= j < |t.records| && t.records[j] == newest;
    }
  }

  /** The report generated right after an upload shows exactly what the
      upload answered with, stamped with the upload's time, as long as the
      clock has not gone back. The upload has created the table, so the code
      as written and the corrected reading give the same report. */
  lemma ReportAfterUpload(db: Database, rows: seq<Row>, now: nat,
                          mean: seq<Measure> -> Measure)
    requires WellFormedDb(db)
    requires NotBefore(db, now)
    ensures var s := Summarize(rows, mean);
            var db' := UploadCsv(db, Some(rows), now, mean).0;
            && GeneratePdfAsWritten(db')
                 == Pdf(ReportFile, Report.Render(Report.Content(now, s.totalCount, s.averages, s.distribution)))
            && GeneratePdf(db') == GeneratePdfAsWritten(db')
  {
    var s := Summarize(rows, mean);
    var t := TableOf(db);
    assert WellFormed(t);
    var t' := Append(t, now, Stored(s));
    assert UploadCsv(db, Some(rows), now, mean).0 == Database(Some(t'));
    AppendedIsMostRecent(t, now, Stored(s));
    var added := NewRecord(t, now, Stored(s));
    assert MostRecent(t'.records) == Some(added);
    assert DistributionJson.Decode(added.distribution) == Some(s.distribution) by {
      DistributionJson.DecodeEncode(s.distribution);
    }
  }

  /** The report's text gives back the uploaded summary: count, averages
      and distribution in the order the upload answered with. */
  lemma ReportShowsUpload(db: Database, rows: seq<Row>, now: nat,
                          mean: seq<Measure> -> Measure)
    requires WellFormedDb(db)
    requires NotBefore(db, now)
    ensures var r := GeneratePdfAsWritten(UploadCsv(db, Some(rows), now, mean).0);
            var s := UploadCsv(db, Some(rows), now, mean).1.summary;
            && r.Pdf?
            && Report.Read(r.paragraphs) == Some(Report.Content(now, s.totalCount, s.averages, s.distribution))
  {
    ReportAfterUpload(db, rows, now, mean);
    var s := Summarize(rows, mean);
    Report.ReadRender(Report.Content(now, s.totalCount, s.averages, s.distribution));
  }

  /** The two readings of `generate_pdf` differ only before the first
      upload, where the code as written fails instead of answering 404. */
  lemma GeneratePdfMissingTable(db: Database)
    ensures db.instruments.None? ==>
              Status(GeneratePdfAsWritten(db)) == 500 && Status(GeneratePdf(db)) == 404
    ensures db.instruments.Some? ==> GeneratePdfAsWritten(db) == GeneratePdf(db)
  {
  }
}
