/** `store_salmon_statistics` and the guard in `main` around it: a year's series becomes
    a two-line text file named after the river and the year, or a warning when it has no
    points. The writing itself is left to the caller; the model decides what would be
    written, and proves that the file's text reads back as the series. */
module Store {
  import opened Results
  import opened Strings
  import opened Calendar
  import opened Extract

  /** `list_to_string`: the items' texts joined with single commas. */
  function ListToString(items: seq<string>): (r: string)
    ensures |items| == 0 ==> r == ""
    ensures |items| == 1 ==> r == items[0]
  {
    Join(items, ",")
  }

  /** With items free of commas, splitting the line on `,` gives the items back: every
      comma in the line is a separator, and there is none at either end. */
  lemma ListToStringSplits(items: seq<string>)
    requires |items| > 0
    requires forall k :: 0 <= k < |items| ==> Free(items[k], ',')
    ensures Split(ListToString(items), ",") == items
  {
    forall k | 0 <= k < |items|
      ensures Lacks(items[k], ",")
    {
      FreeLacks(items[k], ',');
    }
    SplitJoin(items, ",");
  }

  /** `str(d)` for each date. */
  function DateTexts(dates: seq<Date>): (r: seq<string>)
    requires forall k :: 0 <= k < |dates| ==> Valid(dates[k])
    decreases |dates|
    ensures |r| == |dates|
    ensures forall k :: 0 <= k < |r| ==> r[k] == IsoFormat(dates[k])
  {
    if |dates| == 0 then [] else [IsoFormat(dates[0])] + DateTexts(dates[1..])
  }

  /** `str(c)` for each count. */
  function CountTexts(counts: seq<nat>): (r: seq<string>)
    decreases |counts|
    ensures |r| == |counts|
    ensures forall k :: 0 <= k < |r| ==> r[k] == Decimal(counts[k])
  {
    if |counts| == 0 then [] else [Decimal(counts[0])] + CountTexts(counts[1..])
  }

  /** The text `store_salmon_statistics` writes: the dates line and the counts line, each
      ended by a newline. */
  function FileBody(s: Series): (r: string)
    requires Dated(s)
    ensures Split(r, "\n") == [ListToString(DateTexts(s.dates)), ListToString(CountTexts(s.counts)), ""]
  {
    var datesLine := ListToString(DateTexts(s.dates));
    var countsLine := ListToString(CountTexts(s.counts));
    LinesFree(s);
    TwoLinesSplit(datesLine, countsLine);
    datesLine + "\n" + countsLine + "\n"
  }

  /** Two newline-free lines, each ended by a newline, split on `\n` into the two lines
      and an empty rest. */
  lemma TwoLinesSplit(a: string, b: string)
    requires Free(a, '\n') && Free(b, '\n')
    ensures Split(a + "\n" + b + "\n", "\n") == [a, b, ""]
  {
    var lines := [a, b, ""];
    FreeLacks(a, '\n');
    FreeLacks(b, '\n');
    FreeLacks("", '\n');
    assert lines[1..] == [b, ""];
    assert lines[1..][1..] == [""];
    assert Join(lines[1..][1..], "\n") == "";
    assert Join(lines[1..], "\n") == b + "\n" + "";
    assert Join(lines, "\n") == a + "\n" + (b + "\n" + "");
    assert a + "\n" + (b + "\n" + "") == a + "\n" + b + "\n";
    SplitJoin(lines, "\n");
  }

  /** What the guard in `main` does with one year of one river. */
  datatype Action = Write(fileName: string, body: string) | Warn(river: string, year: string)

  /** A year is written to `<river><year>.txt` when it has both dates and counts, and is
      reported with a warning otherwise. What is written is the file text of the series,
      and it reads back as the series. */
  function Decide(river: string, year: string, s: Series): (a: Action)
    requires Dated(s)
    ensures a.Write? <==> |s.dates| > 0 && |s.counts| > 0
    ensures a.Write? ==> a.fileName == river + year + ".txt" && a.body == FileBody(s)
    ensures a.Write? ==> ReadFile(a.body) == Some(s)
    ensures a.Warn? ==> a.river == river && a.year == year
  {
    if |s.dates| > 0 && |s.counts| > 0 then
      FileBodyReadsBack(s);
      Write(river + year + ".txt", FileBody(s))
    else Warn(river, year)
  }

  // ---------------------------------------------------------------------------
  // Reading a file back
  // ---------------------------------------------------------------------------

  /** Each text read as a `YYYY-MM-DD` date; `None` if one is not. */
  function ParseDates(texts: seq<string>): (r: Option<seq<Date>>)
    decreases |texts|
    ensures r.Some? ==> |r.value| == |texts|
  {
    if |texts| == 0 then Some([])
    else
      match ParseIso(texts[0])
      case None => None
      case Some(d) =>
        match ParseDates(texts[1..])
        case None => None
        case Some(rest) => Some([d] + rest)
  }

  /** Each text read as a decimal count; `None` if one is not. */
  function ParseCounts(texts: seq<string>): (r: Option<seq<nat>>)
    decreases |texts|
    ensures r.Some? ==> |r.value| == |texts|
  {
    if |texts| == 0 then Some([])
    else if !Numeral(texts[0]) then None
    else
      match ParseCounts(texts[1..])
      case None => None
      case Some(rest) => Some([DecimalValue(texts[0])] + rest)
  }

  /** Reads a file body back: a dates line and a counts line, each ended by a newline. */
  function ReadFile(body: string): Option<Series> {
    var lines := Split(body, "\n");
    if |lines| != 3 || lines[2] != "" then None
    else
      match (ParseDates(Split(lines[0], ",")), ParseCounts(Split(lines[1], ",")))
      case (Some(dates), Some(counts)) => Some(Series(dates, counts))
      case _ => None
  }

  lemma {:induction false} DateTextsRead(dates: seq<Date>)
    requires forall k :: 0 <= k < |dates| ==> Valid(dates[k])
    decreases |dates|
    ensures ParseDates(DateTexts(dates)) == Some(dates)
  {
    if |dates| > 0 {
      var rest := DateTexts(dates[1..]);
      assert DateTexts(dates) == [IsoFormat(dates[0])] + rest;
      DateTextsRead(dates[1..]);
      ParseDatesCons(dates[0], rest, dates[1..]);
      assert dates == [dates[0]] + dates[1..];
    }
  }

  /** One more formatted date in front reads back as one more date in front. */
  lemma ParseDatesCons(d: Date, texts: seq<string>, ds: seq<Date>)
    requires Valid(d) && ParseDates(texts) == Some(ds)
    ensures ParseDates([IsoFormat(d)] + texts) == Some([d] + ds)
  {
    var all := [IsoFormat(d)] + texts;
    assert all[0] == IsoFormat(d) && all[1..] == texts;
    IsoRoundTrip(d);
  }

  lemma {:induction false} CountTextsRead(counts: seq<nat>)
    decreases |counts|
    ensures ParseCounts(CountTexts(counts)) == Some(counts)
  {
    if |counts| > 0 {
      var rest := CountTexts(counts[1..]);
      assert CountTexts(counts) == [Decimal(counts[0])] + rest;
      CountTextsRead(counts[1..]);
      ParseCountsCons(counts[0], rest, counts[1..]);
      assert counts == [counts[0]] + counts[1..];
    }
  }

  /** One more written count in front reads back as one more count in front. */
  lemma ParseCountsCons(c: nat, texts: seq<string>, cs: seq<nat>)
    requires ParseCounts(texts) == Some(cs)
    ensures ParseCounts([Decimal(c)] + texts) == Some([c] + cs)
  {
    var all := [Decimal(c)] + texts;
    assert all[0] == Decimal(c) && all[1..] == texts;
  }

  /** The line texts hold no newline, and the items no comma. */
  lemma LinesFree(s: Series)
    requires Dated(s)
    ensures forall k :: 0 <= k < |s.dates| ==> Free(DateTexts(s.dates)[k], ',') && Free(DateTexts(s.dates)[k], '\n')
    ensures forall k :: 0 <= k < |s.counts| ==> Free(CountTexts(s.counts)[k], ',') && Free(CountTexts(s.counts)[k], '\n')
    ensures Free(ListToString(DateTexts(s.dates)), '\n')
    ensures Free(ListToString(CountTexts(s.counts)), '\n')
  {
    forall k | 0 <= k < |s.dates|
      ensures Free(DateTexts(s.dates)[k], ',') && Free(DateTexts(s.dates)[k], '\n')
    {
      IsoTextFree(s.dates[k]);
    }
    forall k | 0 <= k < |s.counts|
      ensures Free(CountTexts(s.counts)[k], ',') && Free(CountTexts(s.counts)[k], '\n')
    {
      var t := Decimal(s.counts[k]);
      assert forall i :: 0 <= i < |t| ==> IsDigit(t[i]);
    }
    JoinFree(DateTexts(s.dates), ",", '\n');
    JoinFree(CountTexts(s.counts), ",", '\n');
  }

  /** A formatted date is digits and dashes. */
  lemma IsoTextFree(d: Date)
    requires Valid(d)
    ensures Free(IsoFormat(d), ',') && Free(IsoFormat(d), '\n')
  {
    var y := Padded(d.year, 4);
    var m := Padded(d.month, 2);
    var dd := Padded(d.day, 2);
    var t := IsoFormat(d);
    assert t == y + "-" + m + "-" + dd;
    forall i | 0 <= i < |t|
      ensures t[i] != ',' && t[i] != '\n'
    {
      if i < 4 {
        assert t[i] == y[i];
      } else if 4 < i < 7 {
        assert t[i] == m[i - 5];
      } else if 7 < i {
        assert t[i] == dd[i - 8];
      }
    }
  }

  /** The file `store_salmon_statistics` writes for a series with points reads back as that
      series: two lines, then nothing; the first line the dates, the second the counts. */
  lemma FileBodyReadsBack(s: Series)
    requires Dated(s) && |s.dates| > 0 && |s.counts| > 0
    ensures Split(FileBody(s), "\n") == [ListToString(DateTexts(s.dates)), ListToString(CountTexts(s.counts)), ""]
    ensures ReadFile(FileBody(s)) == Some(s)
  {
    var dateTexts, countTexts := DateTexts(s.dates), CountTexts(s.counts);
    var lines := Split(FileBody(s), "\n");
    assert lines == [ListToString(dateTexts), ListToString(countTexts), ""];
    LinesFree(s);
    ListToStringSplits(dateTexts);
    ListToStringSplits(countTexts);
    DateTextsRead(s.dates);
    CountTextsRead(s.counts);
    assert ParseDates(Split(lines[0], ",")) == Some(s.dates);
    assert ParseCounts(Split(lines[1], ",")) == Some(s.counts);
  }
}
