/** `get_salmon_statistics` for one page: the chart script is flattened to one line, the
    `series` block is cut into one group per year, and each group's `data` block is read
    into a list of dates and a list of counts. */
module Extract {
  import opened Results
  import opened Strings
  import opened Patterns
  import opened Calendar

  // ---------------------------------------------------------------------------
  // Flattening the script
  // ---------------------------------------------------------------------------

  /** The characters the script is stripped of: newline, carriage return, tab, space. */
  const Whitespace: set<char> := {'\n', '\r', '\t', ' '}

  /** `script.replace('\n', '').replace('\r', '').replace('\t', '').replace(' ', '')`. */
  function Normalise(script: string): (r: string)
    ensures r == Without(script, Whitespace)
    ensures Free(r, '\n')
  {
    var a := RemoveChar(script, '\n');
    var b := RemoveChar(a, '\r');
    var c := RemoveChar(b, '\t');
    WithoutTwice(script, {'\n'}, {'\r'});
    WithoutTwice(script, {'\n', '\r'}, {'\t'});
    WithoutTwice(script, {'\n', '\r', '\t'}, {' '});
    assert {'\n'} + {'\r'} == {'\n', '\r'};
    assert {'\n', '\r'} + {'\t'} == {'\n', '\r', '\t'};
    assert {'\n', '\r', '\t'} + {' '} == Whitespace;
    RemoveChar(c, ' ')
  }

  /** Flattening works character by character, left to right: a whitespace character
      disappears, any other stays where it was. */
  lemma NormaliseByCharacter(a: string, b: string, c: char)
    ensures Normalise(a + b) == Normalise(a) + Normalise(b)
    ensures Normalise([c]) == if c in Whitespace then [] else [c]
  {
    WithoutConcat(a, b, Whitespace);
    WithoutConcat([], [c], Whitespace);
    assert [] + [c] == [c];
  }

  /** Flattening a flattened script changes nothing. */
  lemma NormaliseIdempotent(script: string)
    ensures Normalise(Normalise(script)) == Normalise(script)
  {
    WithoutNothingToDrop(Normalise(script), Whitespace);
  }

  /** Once flattened, `.*` can run to the end of the text, so the `series` group ends at
      the last `]` of the whole script. */
  lemma SeriesBlockReachesLastBracket(script: string)
    requires Bracketed(Normalise(script), "series:[").Some?
    ensures
      var s := Normalise(script);
      var c := Bracketed(s, "series:[").value;
      var close := c.at + 8 + |c.text|;
      close < |s| && s[close] == ']' && forall k :: close < k < |s| ==> s[k] != ']'
  {
    var s := Normalise(script);
    BracketedToLast(s, "series:[");
  }

  /** `block.replace(open, '').split(close + ',')`: a block of items written
      `<open>...<close>,<open>...<close>` cut into its items. The `series` block is cut into
      groups at `},` once every `{` is gone, and a `data` block into elements at `],` once
      every `[` is gone. Joining the items back gives the block without the openers, and no
      item holds the separator. */
  function Pieces(block: string, open: char, close: char): (r: seq<string>)
    ensures |r| > 0
    ensures Join(r, [close, ',']) == RemoveChar(block, open)
    ensures forall k :: 0 <= k < |r| ==> Lacks(r[k], [close, ','])
  {
    Split(RemoveChar(block, open), [close, ','])
  }

  // ---------------------------------------------------------------------------
  // One `data` element
  // ---------------------------------------------------------------------------

  /** A point of the chart: a date and the number of salmon counted on it. */
  datatype Reading = Reading(date: Date, count: nat)

  /** `{'dates': [...], 'counts': [...]}`: the dates and counts of one year, in order. */
  datatype Series = Series(dates: seq<Date>, counts: seq<nat>)

  /** Every date of the series is one `datetime.date` accepts. */
  predicate Dated(s: Series) {
    forall k :: 0 <= k < |s.dates| ==> Valid(s.dates[k])
  }

  /** What the loop body does with one element: a point, nothing, or an exception. */
  type Outcome = Result<Option<Reading>>

  /** The date a stamp stands for under the group's year: the group's `name` year (the
      year inside `Date.UTC(...)` is not used), the month group plus one (the chart counts
      months from 0), and the day group. */
  function StampDate(year: string, st: Stamp): (d: Date)
    requires Numeral(year) && WellFormed(st)
    ensures d.year == DecimalValue(year)
    ensures d.month >= 1 && d.month - 1 == DecimalValue(st.month)
    ensures d.month <= 12 <==> DecimalValue(st.month) < 12
    ensures d.day == DecimalValue(st.day)
  {
    Date(DecimalValue(year), DecimalValue(st.month) + 1, DecimalValue(st.day))
  }

  /** The body of the loop over `raw_elements`: the leftmost `Date.UTC(...)` of the
      element, if any, read as a point; a date `datetime.date` rejects drops the point,
      one it cannot even take as C `int`s aborts the extraction. */
  function ReadElement(year: string, element: string): (r: Outcome)
    requires Numeral(year)
    ensures MatchStamp(element).None? ==> r == Success(None)
    ensures r.Failure? <==>
              MatchStamp(element).Some? &&
              var d := StampDate(year, MatchStamp(element).value);
              d.year > CIntMax || d.month > CIntMax || d.day > CIntMax
    ensures r.Failure? ==> r.error == DateOverflow
    ensures (r.Success? && r.value.Some?) <==>
              MatchStamp(element).Some? && Valid(StampDate(year, MatchStamp(element).value))
    ensures r.Success? && r.value.Some? ==>
              var st := MatchStamp(element).value;
              && r.value.value.date == StampDate(year, st)
              && r.value.value.count == DecimalValue(st.count)
  {
    match MatchStamp(element)
    case None => Success(None)
    case Some(st) =>
      var d := StampDate(year, st);
      match Construct(d.year, d.month, d.day)
      case Overflow => Failure(DateOverflow)
      case Rejected => Success(None)
      case Built(date) => Success(Some(Reading(date, DecimalValue(st.count))))
  }

  /** A chart point: month 0 is January, and the count is read as written. */
  lemma ReadElementExample()
    ensures ReadElement("2021", ExamplePoint) == Success(Some(Reading(Date(2021, 1, 15), 42)))
  {
    StampExample();
    MatchStampLeftmost(ExamplePoint, 0, ExampleStamp);
    ExampleDate();
  }

  const ExampleStamp := Stamp("2021", "0", "15", "42")

  /** The example's groups under the year 2021 stand for 15 January 2021 and a count of 42. */
  lemma ExampleDate()
    ensures Numeral("2021") && WellFormed(ExampleStamp)
    ensures StampDate("2021", ExampleStamp) == Date(2021, 1, 15) && Valid(Date(2021, 1, 15))
    ensures DecimalValue(ExampleStamp.count) == 42
  {
    StampExampleValues();
  }

  const ExamplePoint := "Date.UTC(2021,0,15),42"

  /** The example point matches the `Date.UTC` pattern at its start, with these groups. */
  lemma StampExample()
    ensures DateUtcAt(ExamplePoint, 0, ExampleStamp)
  {
    ExampleHead();
    ExampleGroups();
  }

  lemma ExampleHead()
    ensures DateUtcHead(ExamplePoint, 0)
  {
    assert ExamplePoint[0..4] == "Date" && ExamplePoint[5..9] == "UTC(";
  }

  lemma ExampleGroups()
    ensures GroupTo(ExamplePoint, 9, "2021", ',') && GroupTo(ExamplePoint, 14, "0", ',')
    ensures GroupTo(ExamplePoint, 16, "15", ')') && ExamplePoint[19] == ','
    ensures StartsAt(ExamplePoint, 20, "42") && |ExamplePoint| == 22
  {
    ExampleYear();
    ExampleMonthDay();
    assert ExamplePoint[20..22] == "42";
  }

  lemma ExampleYear()
    ensures GroupTo(ExamplePoint, 9, "2021", ',')
  {
    assert ExamplePoint[9..13] == "2021";
  }

  lemma ExampleMonthDay()
    ensures GroupTo(ExamplePoint, 14, "0", ',') && GroupTo(ExamplePoint, 16, "15", ')')
  {
    assert ExamplePoint[14..15] == "0" && ExamplePoint[16..18] == "15";
  }

  /** `int()` of the example's groups. */
  lemma StampExampleValues()
    ensures DecimalValue("2021") == 2021 && DecimalValue("0") == 0
    ensures DecimalValue("15") == 15 && DecimalValue("42") == 42
  {
    assert "2021"[..3] == "202" && "202"[..2] == "20" && "20"[..1] == "2" && "2"[..0] == "";
    assert "15"[..1] == "1" && "1"[..0] == "";
    assert "42"[..1] == "4" && "4"[..0] == "";
    assert "0"[..0] == "";
  }

  // ---------------------------------------------------------------------------
  // `parse_data`
  // ---------------------------------------------------------------------------

  /** The loop over `raw_elements`, given what its body does with each element in turn:
      each point is appended to both lists, and the first exception ends the loop. */
  function Gather(outcomes: seq<Outcome>): (r: Result<Series>)
    decreases |outcomes|
    ensures r.Success? ==> |r.value.dates| == |r.value.counts| <= |outcomes|
    ensures (forall k :: 0 <= k < |outcomes| ==> outcomes[k].Success?) ==> r.Success?
    ensures (forall k :: 0 <= k < |outcomes| ==> outcomes[k] == Success(None)) ==> r == Success(Series([], []))
  {
    if |outcomes| == 0 then Success(Series([], []))
    else
      var head :- outcomes[0];
      var tail :- Gather(outcomes[1..]);
      match head
      case None => Success(tail)
      case Some(point) => Success(Series([point.date] + tail.dates, [point.count] + tail.counts))
  }

  /** Outcome `k` is an exception. */
  predicate Raises(outcomes: seq<Outcome>, k: int) {
    0 <= k < |outcomes| && outcomes[k].Failure?
  }

  /** The loop ends in an exception exactly when some element raised one, and then in
      the first such exception. */
  lemma {:induction false} GatherFails(outcomes: seq<Outcome>)
    decreases |outcomes|
    ensures Gather(outcomes).Failure? <==> exists k :: Raises(outcomes, k)
    ensures Gather(outcomes).Failure? ==>
              exists k :: Raises(outcomes, k) && outcomes[k].error == Gather(outcomes).error
                          && forall j :: 0 <= j < k ==> !Raises(outcomes, j)
  {
    if |outcomes| > 0 {
      var tail := outcomes[1..];
      GatherFails(tail);
      assert forall k :: Raises(tail, k) ==> Raises(outcomes, k + 1);
      assert forall k :: Raises(outcomes, k) && k > 0 ==> Raises(tail, k - 1);
      if outcomes[0].Failure? {
        assert Raises(outcomes, 0);
      } else if Gather(outcomes).Failure? {
        var k :| Raises(tail, k) && tail[k].error == Gather(tail).error && forall j :: 0 <= j < k ==> !Raises(tail, j);
        assert Raises(outcomes, k + 1);
        assert forall j :: 0 < j < k + 1 ==> !Raises(outcomes, j) by {
          assert forall j :: 0 < j < k + 1 ==> outcomes[j] == tail[j - 1];
        }
      }
    }
  }

  /** Every point gathered is the point of some element. */
  lemma {:induction false} GatherPoints(outcomes: seq<Outcome>)
    decreases |outcomes|
    ensures Gather(outcomes).Success? ==>
              var s := Gather(outcomes).value;
              forall i :: 0 <= i < |s.dates| ==>
                exists k :: 0 <= k < |outcomes| && outcomes[k] == Success(Some(Reading(s.dates[i], s.counts[i])))
  {
    if |outcomes| > 0 && Gather(outcomes).Success? {
      var tail := outcomes[1..];
      GatherPoints(tail);
      var s := Gather(outcomes).value;
      var t := Gather(tail).value;
      assert Gather(tail).Success?;
      var head := outcomes[0].value;
      if head.Some? {
        assert s == Series([head.value.date] + t.dates, [head.value.count] + t.counts);
      } else {
        assert s == t;
      }
      forall i | 0 <= i < |s.dates|
        ensures exists k :: 0 <= k < |outcomes| && outcomes[k] == Success(Some(Reading(s.dates[i], s.counts[i])))
      {
        if outcomes[0].value.Some? && i == 0 {
          assert outcomes[0] == Success(Some(Reading(s.dates[i], s.counts[i])));
        } else {
          var i' := if outcomes[0].value.Some? then i - 1 else i;
          assert s.dates[i] == t.dates[i'] && s.counts[i] == t.counts[i'];
          assert 0 <= i' < |t.dates|;
          var k :| 0 <= k < |tail| && tail[k] == Success(Some(Reading(t.dates[i'], t.counts[i'])));
          assert outcomes[k + 1] == tail[k];
        }
      }
    }
  }

  /** Gathering two runs one after the other gives the two series one after the other:
      the points kept are those of the reads, in the reads' order. */
  lemma {:induction false} GatherConcat(a: seq<Outcome>, b: seq<Outcome>)
    decreases |a|
    ensures Gather(a + b).Success? <==> Gather(a).Success? && Gather(b).Success?
    ensures Gather(a + b).Success? ==>
              var x := Gather(a).value;
              var y := Gather(b).value;
              Gather(a + b).value == Series(x.dates + y.dates, x.counts + y.counts)
  {
    if |a| == 0 {
      assert a + b == b;
    } else {
      assert (a + b)[0] == a[0];
      assert (a + b)[1..] == a[1..] + b;
      GatherConcat(a[1..], b);
      if Gather(a + b).Success? && a[0].value.Some? {
        var point := a[0].value.value;
        var x, y := Gather(a[1..]).value, Gather(b).value;
        assert [point.date] + (x.dates + y.dates) == [point.date] + x.dates + y.dates;
        assert [point.count] + (x.counts + y.counts) == [point.count] + x.counts + y.counts;
      }
    }
  }

  /** A single read yields its own point, nothing, or its exception. */
  lemma GatherOne(read: Outcome)
    ensures Gather([read]) ==
              match read
              case Failure(e) => Failure(e)
              case Success(None) => Success(Series([], []))
              case Success(Some(point)) => Success(Series([point.date], [point.count]))
  {
    var o := [read];
    assert o[0] == read && o[1..] == [];
    assert Gather(o[1..]) == Success(Series([], []));
    match read
    case Failure(e) =>
    case Success(None) =>
      assert Gather(o) == Success(Series([], []));
    case Success(Some(point)) =>
      assert Gather(o) == Success(Series([point.date] + [], [point.count] + []));
      assert [point.date] + [] == [point.date] && [point.count] + [] == [point.count];
  }

  /** The loop body applied to each element. */
  function Outcomes(year: string, elements: seq<string>): (r: seq<Outcome>)
    requires Numeral(year)
    ensures |r| == |elements|
    ensures forall k :: 0 <= k < |r| ==> r[k] == ReadElement(year, elements[k])
  {
    seq(|elements|, k requires 0 <= k < |elements| => ReadElement(year, elements[k]))
  }

  /** The loop over `raw_elements` with its body. Every point carries the group's year,
      and the loop fails exactly when some element's date overflows. */
  function Collect(year: string, elements: seq<string>): (r: Result<Series>)
    requires Numeral(year)
    ensures r.Success? ==> |r.value.dates| == |r.value.counts| <= |elements|
    ensures r.Success? ==> Dated(r.value)
    ensures r.Success? ==> forall i :: 0 <= i < |r.value.dates| ==> r.value.dates[i].year == DecimalValue(year)
    ensures r.Failure? <==> exists k :: 0 <= k < |elements| && ReadElement(year, elements[k]).Failure?
    ensures r.Failure? ==> r.error == DateOverflow
  {
    var outcomes := Outcomes(year, elements);
    GatherFails(outcomes);
    GatherPoints(outcomes);
    assert forall k :: Raises(outcomes, k) <==> 0 <= k < |elements| && ReadElement(year, elements[k]).Failure?;
    Gather(outcomes)
  }

  /** Reading two runs of elements one after the other gives the two series one after the
      other. */
  lemma CollectConcat(year: string, a: seq<string>, b: seq<string>)
    requires Numeral(year)
    ensures Collect(year, a + b).Success? <==> Collect(year, a).Success? && Collect(year, b).Success?
    ensures Collect(year, a + b).Success? ==>
              var x := Collect(year, a).value;
              var y := Collect(year, b).value;
              Collect(year, a + b).value == Series(x.dates + y.dates, x.counts + y.counts)
  {
    assert Outcomes(year, a + b) == Outcomes(year, a) + Outcomes(year, b);
    GatherConcat(Outcomes(year, a), Outcomes(year, b));
  }

  /** `parse_data`: with no `data:[...]` in the group both lists are empty; otherwise the
      points of the block's elements, dates and counts pairwise. */
  function ParseData(group: string, year: string): (r: Result<Series>)
    requires Numeral(year)
    ensures Bracketed(group, "data:[").None? ==> r == Success(Series([], []))
    ensures r.Success? ==> |r.value.dates| == |r.value.counts|
    ensures r.Success? && Bracketed(group, "data:[").Some? ==>
              |r.value.dates| <= |Pieces(Bracketed(group, "data:[").value.text, '[', ']')|
    ensures r.Success? ==> Dated(r.value)
    ensures r.Success? ==> forall k :: 0 <= k < |r.value.dates| ==> r.value.dates[k].year == DecimalValue(year)
    ensures r.Failure? ==> r.error == DateOverflow
  {
    match Bracketed(group, "data:[")
    case None => Success(Series([], []))
    case Some(block) => Collect(year, Pieces(block.text, '[', ']'))
  }

  // ---------------------------------------------------------------------------
  // The `series` block
  // ---------------------------------------------------------------------------

  /** What the loop body does with one group: nothing when it names no year, otherwise
      the year and the outcome of `parse_data` under it. */
  datatype Entry = Unnamed | Keyed(year: string, data: Result<Series>)

  function EntryOf(group: string): (r: Entry)
    ensures r.Unnamed? <==> forall i: nat, d :: !NameAt(group, i, d)
    ensures r.Keyed? ==> Numeral(r.year) && exists i: nat :: NameAt(group, i, r.year) && forall j: nat, d :: j < i ==> !NameAt(group, j, d)
    ensures r.Keyed? && r.data.Success? ==>
              && |r.data.value.dates| == |r.data.value.counts|
              && Dated(r.data.value)
              && forall k :: 0 <= k < |r.data.value.dates| ==> r.data.value.dates[k].year == DecimalValue(r.year)
    ensures r.Keyed? && r.data.Failure? ==> r.data.error == DateOverflow
  {
    match ParseYear(group)
    case None => Unnamed
    case Some(y) => Keyed(y, ParseData(group, y))
  }

  /** Entry `k` names year `y`. */
  predicate Names(entries: seq<Entry>, k: int, y: string) {
    0 <= k < |entries| && entries[k].Keyed? && entries[k].year == y
  }

  /** Entry `k` names year `y` and no later entry does. */
  predicate LastNames(entries: seq<Entry>, k: int, y: string) {
    Names(entries, k, y) && forall j :: k < j < |entries| ==> !Names(entries, j, y)
  }

  /** Entry `k` names a year and reading its data failed. */
  predicate FailsAt(entries: seq<Entry>, k: int) {
    0 <= k < |entries| && entries[k].Keyed? && entries[k].data.Failure?
  }

  /** The loop over `raw_groups`, given each group's entry in turn: a named entry stores
      its data under its year, replacing what an earlier entry stored there; the first
      exception ends the loop. */
  function Tabulate(entries: seq<Entry>): (r: Result<map<string, Series>>)
    decreases |entries|
    ensures r.Success? ==>
              forall y :: y in r.value ==> exists k :: Names(entries, k, y) && entries[k].data == Success(r.value[y])
    ensures r.Failure? ==> exists k :: FailsAt(entries, k) && entries[k].data.error == r.error
  {
    if |entries| == 0 then Success(map[])
    else
      var init := entries[..|entries| - 1];
      assert forall k, y :: Names(init, k, y) ==> Names(entries, k, y);
      assert forall k :: FailsAt(init, k) ==> FailsAt(entries, k);
      var earlier :- Tabulate(init);
      match entries[|entries| - 1]
      case Unnamed => Success(earlier)
      case Keyed(y, data) =>
        var series :- data;
        Success(earlier[y := series])
  }

  /** The store fails exactly when some named entry failed. */
  lemma {:induction false} TabulateFails(entries: seq<Entry>)
    decreases |entries|
    ensures Tabulate(entries).Failure? <==> exists k :: FailsAt(entries, k)
  {
    if |entries| > 0 {
      var init := entries[..|entries| - 1];
      TabulateFails(init);
      assert forall k :: FailsAt(entries, k) && k < |init| ==> FailsAt(init, k);
    }
  }

  /** The years stored are exactly the years the entries name. */
  lemma {:induction false} TabulateKeys(entries: seq<Entry>)
    decreases |entries|
    ensures Tabulate(entries).Success? ==>
              forall y :: y in Tabulate(entries).value <==> exists k :: Names(entries, k, y)
  {
    if |entries| > 0 {
      var init := entries[..|entries| - 1];
      TabulateKeys(init);
      assert forall k, y :: Names(entries, k, y) && k < |init| ==> Names(init, k, y);
    }
  }

  /** The data stored under a year is that of the last entry naming it. */
  lemma {:induction false} TabulateValues(entries: seq<Entry>)
    decreases |entries|
    ensures Tabulate(entries).Success? ==>
              forall y, k :: LastNames(entries, k, y) ==>
                y in Tabulate(entries).value && entries[k].data == Success(Tabulate(entries).value[y])
  {
    if |entries| > 0 {
      var init := entries[..|entries| - 1];
      TabulateValues(init);
      assert forall j :: 0 <= j < |init| ==> init[j] == entries[j];
      forall k, y | LastNames(entries, k, y) && k < |init|
        ensures LastNames(init, k, y)
      {
        forall j | k < j < |init|
          ensures !Names(init, j, y)
        {
          assert !Names(entries, j, y);
        }
      }
      if Tabulate(entries).Success? {
        var m := Tabulate(entries).value;
        var earlier := Tabulate(init).value;
        var last := entries[|init|];
        forall y, k | LastNames(entries, k, y)
          ensures y in m && entries[k].data == Success(m[y])
        {
          if k < |init| {
            assert !Names(entries, |init|, y);
            assert last.Keyed? ==> m == earlier[last.year := last.data.value];
            assert last.Unnamed? ==> m == earlier;
          }
        }
      }
    }
  }

  function Entries(groups: seq<string>): (r: seq<Entry>)
    ensures |r| == |groups|
    ensures forall k :: 0 <= k < |r| ==> r[k] == EntryOf(groups[k])
  {
    seq(|groups|, k requires 0 <= k < |groups| => EntryOf(groups[k]))
  }

  /** The loop over `raw_groups` with its body. Every stored series has as many dates as
      counts, and the only exception is a date overflow. */
  function KeyByYear(groups: seq<string>): (r: Result<map<string, Series>>)
    ensures r.Success? ==> forall y :: y in r.value ==> |r.value[y].dates| == |r.value[y].counts| && Dated(r.value[y])
    ensures r.Failure? ==> r.error == DateOverflow
  {
    Tabulate(Entries(groups))
  }

  // ---------------------------------------------------------------------------
  // One river
  // ---------------------------------------------------------------------------

  /** The statistics of one river page from the text of its chart script: the years of
      the `series` block, each with its dates and counts. A script without a
      `series:[...]` fails the way `re.search(...).group(1)` on `None` does. */
  function ExtractRiver(script: string): (r: Result<map<string, Series>>)
    ensures r == Failure(MissingSeriesBlock) <==> forall i: nat :: !BracketAt(Normalise(script), "series:[", i)
    ensures r.Success? ==> forall y :: y in r.value ==> |r.value[y].dates| == |r.value[y].counts| && Dated(r.value[y])
  {
    match Bracketed(Normalise(script), "series:[")
    case None => Failure(MissingSeriesBlock)
    case Some(block) => KeyByYear(Pieces(block.text, '{', '}'))
  }

  /** The groups of the `series` block of a script that has one. */
  function SeriesGroups(script: string): seq<string>
    requires Bracketed(Normalise(script), "series:[").Some?
  {
    Pieces(Bracketed(Normalise(script), "series:[").value.text, '{', '}')
  }

  /** Group `k` names year `y`. */
  predicate Named(groups: seq<string>, k: int, y: string) {
    0 <= k < |groups| && ParseYear(groups[k]) == Some(y)
  }

  /** Group `k` names year `y` and no later group does. */
  predicate LastNamed(groups: seq<string>, k: int, y: string) {
    Named(groups, k, y) && forall j :: k < j < |groups| ==> !Named(groups, j, y)
  }

  /** A group's entry names exactly the year the group names. */
  lemma EntryNames(groups: seq<string>, k: int, y: string)
    ensures Names(Entries(groups), k, y) <==> Named(groups, k, y)
  {
  }

  /** The years stored are exactly the years the groups name, and each holds the data of
      the last group naming it. */
  lemma KeyByYearYears(groups: seq<string>)
    requires KeyByYear(groups).Success?
    ensures forall y :: y in KeyByYear(groups).value <==> exists k :: Named(groups, k, y)
    ensures forall y, k :: LastNamed(groups, k, y) ==>
              y in KeyByYear(groups).value && ParseData(groups[k], y) == Success(KeyByYear(groups).value[y])
  {
    var entries := Entries(groups);
    var years := KeyByYear(groups).value;
    TabulateKeys(entries);
    TabulateValues(entries);
    forall y
      ensures y in years <==> exists k :: Named(groups, k, y)
    {
      if y in years {
        var k :| Names(entries, k, y);
        EntryNames(groups, k, y);
      }
      forall k | Named(groups, k, y)
        ensures y in years
      {
        EntryNames(groups, k, y);
      }
    }
    forall y, k | LastNamed(groups, k, y)
      ensures y in years && ParseData(groups[k], y) == Success(years[y])
    {
      EntryNames(groups, k, y);
      forall j | k < j < |entries|
        ensures !Names(entries, j, y)
      {
        EntryNames(groups, j, y);
      }
      assert LastNames(entries, k, y);
    }
  }

  /** The years of a river are exactly the years its groups name, and each holds the data
      of the last group naming it. */
  lemma RiverYears(script: string)
    ensures ExtractRiver(script).Success? ==> Bracketed(Normalise(script), "series:[").Some?
    ensures ExtractRiver(script).Success? ==>
              var groups := SeriesGroups(script);
              var years := ExtractRiver(script).value;
              && (forall y :: y in years <==> exists k :: Named(groups, k, y))
              && forall y, k :: LastNamed(groups, k, y) ==> y in years && ParseData(groups[k], y) == Success(years[y])
  {
    if ExtractRiver(script).Success? {
      var groups := SeriesGroups(script);
      assert ExtractRiver(script) == KeyByYear(groups);
      KeyByYearYears(groups);
    }
  }
}
