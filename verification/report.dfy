/** The PDF report as the ordered list of paragraphs handed to the document
    builder: a title, six header lines, one line per equipment type.  The
    reader `Read` recovers the report's content from those paragraphs, which
    shows that the layout loses nothing. */
module Report {
  import opened Wrappers
  import opened Decimal
  import opened Summarizer

  /** The three sample-sheet styles the report uses. */
  datatype Style = Title | Normal | Heading2

  datatype Paragraph = Paragraph(text: string, style: Style)

  /** What one report shows: the newest stored upload. */
  datatype Content = Content(uploadedAt: nat, totalCount: nat, averages: Averages, distribution: seq<Entry>)

  const ReportTitle: string := "Chemical Equipment Report"
  const UploadedLabel: string := "Uploaded at: "
  const TotalLabel: string := "Total Equipment: "
  const FlowrateLabel: string := "Average Flowrate: "
  const PressureLabel: string := "Average Pressure: "
  const TemperatureLabel: string := "Average Temperature: "
  const DistributionHeading: string := "Equipment Type Distribution:"

  /** Number of paragraphs that precede the distribution lines. */
  const HeaderSize: nat := 7

  /** The `key: count` line of one distribution entry. */
  function EntryLine(e: Entry): (p: Paragraph)
    ensures p.style == Normal
    ensures |p.text| > |e.key| + 2
  {
    Paragraph(e.key + ": " + Show(e.count), Normal)
  }

  function EntryLines(d: seq<Entry>): (ps: seq<Paragraph>)
    ensures |ps| == |d|
    ensures forall i :: 0 <= i < |d| ==> ps[i] == EntryLine(d[i])
  {
    if d == [] then [] else [EntryLine(d[0])] + EntryLines(d[1..])
  }

  /** The paragraphs of the report, in the order they are laid out. */
  function Render(c: Content): (ps: seq<Paragraph>)
    ensures |ps| == HeaderSize + |c.distribution|
    ensures ps[0].style == Title && ps[HeaderSize - 1].style == Heading2
    ensures forall i :: 0 < i < |ps| && i != HeaderSize - 1 ==> ps[i].style == Normal
    ensures forall i :: 0 <= i < |c.distribution| ==> ps[HeaderSize + i] == EntryLine(c.distribution[i])
  {
    [ Paragraph(ReportTitle, Title),
      Paragraph(UploadedLabel + Show(c.uploadedAt), Normal),
      Paragraph(TotalLabel + Show(c.totalCount), Normal),
      Paragraph(FlowrateLabel + c.averages.flowrate, Normal),
      Paragraph(PressureLabel + c.averages.pressure, Normal),
      Paragraph(TemperatureLabel + c.averages.temperature, Normal),
      Paragraph(DistributionHeading, Heading2) ]
    + EntryLines(c.distribution)
  }

  // Reader

  /** The rest of `t` after `prefix`, if `t` starts with it. */
  function After(prefix: string, t: string): (r: Option<string>)
    ensures r.Some? <==> |prefix| <= |t| && t[..|prefix|] == prefix
    ensures r.Some? ==> t == prefix + r.value
  {
    if |prefix| <= |t| && t[..|prefix|] == prefix then Some(t[|prefix|..]) else None
  }

  /** The text after `tag` of a Normal paragraph. */
  function ReadText(p: Paragraph, tag: string): (r: Option<string>)
    ensures r.Some? ==> p == Paragraph(tag + r.value, Normal)
  {
    if p.style == Normal then After(tag, p.text) else None
  }

  /** The number after `tag` of a Normal paragraph. */
  function ReadNumber(p: Paragraph, tag: string): Option<nat> {
    match ReadText(p, tag)
    case None => None
    case Some(t) => ReadNat(t)
  }

  /** Splits `key: count` at the last `: ` that is followed only by digits. */
  function ReadEntryLine(p: Paragraph): (r: Option<Entry>)
    ensures r.Some? ==> p.style == Normal
  {
    var t := p.text;
    var n := TrailingDigits(t);
    var front := t[..|t| - n];
    if p.style != Normal || |front| < 2 || front[|front| - 2..] != ": " then None
    else
      match ReadNat(t[|t| - n..])
      case None => None
      case Some(v) => Some(Entry(front[..|front| - 2], v))
  }

  function ReadEntryLines(ps: seq<Paragraph>): (r: Option<seq<Entry>>)
    ensures r.Some? ==> |r.value| == |ps|
  {
    if ps == [] then Some([])
    else
      match ReadEntryLine(ps[0])
      case None => None
      case Some(e) =>
        match ReadEntryLines(ps[1..])
        case None => None
        case Some(es) => Some([e] + es)
  }

  /** The report's content, read back from its paragraphs. */
  function Read(ps: seq<Paragraph>): (r: Option<Content>)
    ensures r.Some? ==> |ps| == HeaderSize + |r.value.distribution|
    ensures r.Some? ==> ps[0] == Paragraph(ReportTitle, Title)
  {
    if |ps| < HeaderSize
      || ps[0] != Paragraph(ReportTitle, Title)
      || ps[HeaderSize - 1] != Paragraph(DistributionHeading, Heading2)
    then None
    else
      var uploaded := ReadNumber(ps[1], UploadedLabel);
      var total := ReadNumber(ps[2], TotalLabel);
      var flow := ReadText(ps[3], FlowrateLabel);
      var pressure := ReadText(ps[4], PressureLabel);
      var temperature := ReadText(ps[5], TemperatureLabel);
      var entries := ReadEntryLines(ps[HeaderSize..]);
      if uploaded.None? || total.None? || flow.None? || pressure.None? || temperature.None? || entries.None?
      then None
      else
        Some(Content(uploaded.value, total.value,
                     Averages(flow.value, pressure.value, temperature.value),
                     entries.value))
  }

  // Round trip

  lemma AfterPrefix(prefix: string, s: string)
    ensures After(prefix, prefix + s) == Some(s)
  {
    assert (prefix + s)[..|prefix|] == prefix;
  }

  lemma ReadNumberShown(tag: string, n: nat)
    ensures ReadNumber(Paragraph(tag + Show(n), Normal), tag) == Some(n)
  {
    AfterPrefix(tag, Show(n));
    ReadShow(n);
  }

  lemma ReadTextLabelled(tag: string, s: string)
    ensures ReadText(Paragraph(tag + s, Normal), tag) == Some(s)
  {
    AfterPrefix(tag, s);
  }

  /** A distribution line gives back its entry, whatever characters the key
      holds (including `: ` and digits). */
  lemma ReadEntryLineOf(e: Entry)
    ensures ReadEntryLine(EntryLine(e)) == Some(e)
  {
    var front := e.key + ": ";
    var digits := Show(e.count);
    var t := front + digits;
    assert EntryLine(e).text == t;
    assert TrailingDigits(t) == |digits| by { TrailingDigitsOfShow(front, e.count); }
    assert t[..|front|] == front && t[|front|..] == digits;
    assert front[|front| - 2..] == ": " && front[..|front| - 2] == e.key;
    assert ReadNat(digits) == Some(e.count) by { ReadShow(e.count); }
  }

  lemma {:induction false} ReadEntryLinesOf(d: seq<Entry>)
    ensures ReadEntryLines(EntryLines(d)) == Some(d)
  {
    if d != [] {
      var ps := EntryLines(d);
      assert ps[1..] == EntryLines(d[1..]);
      ReadEntryLineOf(d[0]);
      ReadEntryLinesOf(d[1..]);
      assert [d[0]] + d[1..] == d;
    }
  }

  /** Reading the rendered report gives back exactly its content. */
  lemma ReadRender(c: Content)
    ensures Read(Render(c)) == Some(c)
  {
    var ps := Render(c);
    assert ps[HeaderSize..] == EntryLines(c.distribution);
    ReadNumberShown(UploadedLabel, c.uploadedAt);
    ReadNumberShown(TotalLabel, c.totalCount);
    ReadTextLabelled(FlowrateLabel, c.averages.flowrate);
    ReadTextLabelled(PressureLabel, c.averages.pressure);
    ReadTextLabelled(TemperatureLabel, c.averages.temperature);
    ReadEntryLinesOf(c.distribution);
  }

  /** Two different contents never produce the same report. */
  lemma RenderInjective(c: Content, c': Content)
    requires Render(c) == Render(c')
    ensures c == c'
  {
    ReadRender(c);
    ReadRender(c');
  }
}
