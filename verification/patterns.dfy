/** The four fixed searches of the scraper (stat.py lines 32, 38, 42 and 59), which come
    in three shapes, hand-coded as leftmost matchers with Python `re.search` semantics
    (no flags, so `.` matches anything but a newline):

      - `series:\[(.*)\]` and `data:\[(.*)\]`  — `Greedy(opener)`
      - `name:'([0-9]+)',`                     — `NameYear`
      - `Date.UTC\(([0-9]+),([0-9]+),([0-9]+)\),([0-9]+)` — `DateUtc`

    For each there is a predicate saying, in the terms of the regular expression, that it
    matches at an index with given groups, and a capture function proved to return the
    groups of the leftmost match. */
module Patterns {
  import opened Results
  import opened Strings

  datatype Pattern =
    | Greedy(opener: string)
    | NameYear
    | DateUtc

  /** The scanner's test for a match starting at `i`. */
  predicate Hits(s: string, p: Pattern, i: nat) {
    match p
    case Greedy(opener) => StartsAt(s, i, opener) && LastClose(s, i + |opener|).Some?
    case NameYear => NameDigitsAt(s, i).Some?
    case DateUtc => StampAt(s, i).Some?
  }

  /** The first index at or after `from` where `p` matches, as `re.search` tries them. */
  function Leftmost(s: string, p: Pattern, from: nat): (r: Option<nat>)
    decreases |s| - from
    ensures r.Some? ==> from <= r.value < |s| && Hits(s, p, r.value)
    ensures r.Some? ==> forall j :: from <= j < r.value ==> !Hits(s, p, j)
    ensures r.None? ==> forall j :: from <= j < |s| ==> !Hits(s, p, j)
  {
    if from >= |s| then None
    else if Hits(s, p, from) then Some(from)
    else Leftmost(s, p, from + 1)
  }

  // ---------------------------------------------------------------------------
  // `<opener>(.*)\]` — greedy up to the last `]` on the line
  // ---------------------------------------------------------------------------

  /** No newline in `s[lo..hi]`: the stretch a `.*` may cover. */
  predicate NoBreak(s: string, lo: nat, hi: nat) {
    forall t :: lo <= t < hi && t < |s| ==> s[t] != '\n'
  }

  /** `<opener>(.*)\]` matches at `i`: the opener is there and a `]` follows on the same line. */
  predicate BracketAt(s: string, opener: string, i: nat) {
    && StartsAt(s, i, opener)
    && exists k :: i + |opener| <= k < |s| && s[k] == ']' && NoBreak(s, i + |opener|, k)
  }

  /** The last `]` at or after `j` before the next newline. */
  function LastClose(s: string, j: nat): (r: Option<nat>)
    decreases |s| - j
    ensures r.Some? ==> j <= r.value < |s| && s[r.value] == ']' && NoBreak(s, j, r.value)
    ensures r.Some? ==> forall k :: r.value < k < |s| && s[k] == ']' ==> !NoBreak(s, j, k)
    ensures r.None? ==> forall k :: j <= k < |s| && s[k] == ']' ==> !NoBreak(s, j, k)
  {
    if j >= |s| || s[j] == '\n' then None
    else match LastClose(s, j + 1)
      case Some(k) => Some(k)
      case None => if s[j] == ']' then Some(j) else None
  }

  lemma BracketAtHits(s: string, opener: string)
    ensures forall i: nat :: BracketAt(s, opener, i) <==> i < |s| && Hits(s, Greedy(opener), i)
  {
    forall i: nat
      ensures BracketAt(s, opener, i) <==> i < |s| && Hits(s, Greedy(opener), i)
    {
      var close := LastClose(s, i + |opener|);
      if close.Some? {
        assert i + |opener| <= close.value < |s|;
      }
    }
  }

  /** A match and its group: the index it starts at and the text `(.*)` captured. */
  datatype Capture = Capture(at: nat, text: string)

  /** `re.search(opener + '(.*)\]', s).group(1)`, or `None` when there is no match.
      The group runs from the leftmost opener that has a `]` after it on its line to
      the last `]` of that line. */
  function Bracketed(s: string, opener: string): (r: Option<Capture>)
    ensures r.None? <==> forall i: nat :: !BracketAt(s, opener, i)
    ensures r.Some? ==> BracketAt(s, opener, r.value.at)
    ensures r.Some? ==> forall j: nat :: j < r.value.at ==> !BracketAt(s, opener, j)
    ensures r.Some? ==> StartsAt(s, r.value.at, opener + r.value.text + "]")
    ensures r.Some? ==> Free(r.value.text, '\n')
    ensures r.Some? ==>
              var lo := r.value.at + |opener|;
              forall k :: lo + |r.value.text| < k < |s| && s[k] == ']' ==> !NoBreak(s, lo, k)
  {
    BracketAtHits(s, opener);
    match Leftmost(s, Greedy(opener), 0)
    case None => None
    case Some(i) =>
      var k := LastClose(s, i + |opener|).value;
      GreedyGroup(s, opener, i, k);
      Some(Capture(i, s[i + |opener|..k]))
  }

  /** The pattern text around the group `s[i + |opener|..k]`. */
  lemma GreedyGroup(s: string, opener: string, i: nat, k: nat)
    requires StartsAt(s, i, opener) && i + |opener| <= k < |s| && s[k] == ']'
    ensures StartsAt(s, i, opener + s[i + |opener|..k] + "]")
  {
    var text := s[i + |opener|..k];
    assert s[i..k + 1] == s[i..i + |opener|] + text + "]";
  }

  /** On a text without newlines the group runs to the last `]` of the whole text. */
  lemma BracketedToLast(s: string, opener: string)
    requires Free(s, '\n')
    requires Bracketed(s, opener).Some?
    ensures
      var c := Bracketed(s, opener).value;
      var close := c.at + |opener| + |c.text|;
      close < |s| && s[close] == ']' && forall k :: close < k < |s| ==> s[k] != ']'
  {
    var c := Bracketed(s, opener).value;
    var lo := c.at + |opener|;
    var close := lo + |c.text|;
    assert s[close] == (opener + c.text + "]")[close - c.at];
    forall k | close < k < |s|
      ensures s[k] != ']'
    {
      assert NoBreak(s, lo, k);
    }
  }

  // ---------------------------------------------------------------------------
  // `name:'([0-9]+)',`
  // ---------------------------------------------------------------------------

  /** `name:'([0-9]+)',` matches at `i` with group `digits`. */
  predicate NameAt(s: string, i: nat, digits: string) {
    Numeral(digits) && StartsAt(s, i, "name:'" + digits + "',")
  }

  function NameDigitsAt(s: string, i: nat): Option<string> {
    if !StartsAt(s, i, "name:'") then None
    else
      var n := DigitRun(s, i + 6);
      if n > 0 && StartsAt(s, i + 6 + n, "',") then Some(s[i + 6..i + 6 + n]) else None
  }

  lemma NameAtHits(s: string)
    ensures forall i: nat, d :: NameAt(s, i, d) <==> i < |s| && Hits(s, NameYear, i) && NameDigitsAt(s, i) == Some(d)
  {
    forall i: nat, d
      ensures NameAt(s, i, d) <==> i < |s| && Hits(s, NameYear, i) && NameDigitsAt(s, i) == Some(d)
    {
      StartsAtConcat(s, i, "name:'" + d, "',");
      StartsAtConcat(s, i, "name:'", d);
      if i + 6 <= |s| {
        DigitRunDigits(s, i + 6);
      }
      if NameAt(s, i, d) {
        assert s[i + 6 + |d|] == s[i + 6 + |d|..i + 8 + |d|][0] == '\'';
        DigitRunOf(s, i + 6, d);
      }
    }
  }

  /** `parse_year`: the digits of the leftmost `name:'<digits>',`, or `None` when the
      text has no such occurrence. */
  function ParseYear(s: string): (r: Option<string>)
    ensures r.Some? ==> Numeral(r.value)
    ensures r.None? <==> forall i: nat, d :: !NameAt(s, i, d)
    ensures r.Some? ==> exists i: nat :: NameAt(s, i, r.value) && forall j: nat, d :: j < i ==> !NameAt(s, j, d)
  {
    NameAtHits(s);
    match Leftmost(s, NameYear, 0)
    case None => None
    case Some(i) =>
      var d := NameDigitsAt(s, i).value;
      assert NameAt(s, i, d);
      Some(d)
  }

  // ---------------------------------------------------------------------------
  // `Date.UTC\(([0-9]+),([0-9]+),([0-9]+)\),([0-9]+)`
  // ---------------------------------------------------------------------------

  /** The four groups of a `Date.UTC(...)` match, as digit strings. */
  datatype Stamp = Stamp(year: string, month: string, day: string, count: string)

  predicate WellFormed(st: Stamp) {
    Numeral(st.year) && Numeral(st.month) && Numeral(st.day) && Numeral(st.count)
  }

  /** `Date.UTC(` at `i`, the `.` standing for any character but a newline. */
  predicate DateUtcHead(s: string, i: nat) {
    StartsAt(s, i, "Date") && i + 4 < |s| && s[i + 4] != '\n' && StartsAt(s, i + 5, "UTC(")
  }

  /** `([0-9]+),([0-9]+),([0-9]+)\),([0-9]+)` matches at `p0` with these groups. The
      last group is greedy, so no digit follows it. */
  predicate GroupsAt(s: string, p0: nat, st: Stamp) {
    var p1 := p0 + |st.year| + 1;
    var p2 := p1 + |st.month| + 1;
    var p3 := p2 + |st.day| + 2;
    && GroupTo(s, p0, st.year, ',')
    && GroupTo(s, p1, st.month, ',')
    && GroupTo(s, p2, st.day, ')') && p3 <= |s| && s[p3 - 1] == ','
    && StartsAt(s, p3, st.count) && !DigitAt(s, p3 + |st.count|)
  }

  /** The text `d` at `j`, followed by the character `c`. */
  predicate GroupTo(s: string, j: nat, d: string, c: char) {
    StartsAt(s, j, d) && j + |d| < |s| && s[j + |d|] == c
  }

  /** The `Date.UTC` expression matches at `i` with these groups. */
  predicate DateUtcAt(s: string, i: nat, st: Stamp) {
    WellFormed(st) && DateUtcHead(s, i) && GroupsAt(s, i + 9, st)
  }

  /** A non-empty run of digits at `j` ended by the character `c`: the run's length. */
  function RunTo(s: string, j: nat, c: char): (r: Option<nat>)
    requires j <= |s|
    ensures r.Some? ==> 0 < r.value && j + r.value < |s| && s[j + r.value] == c
  {
    var n := DigitRun(s, j);
    if n > 0 && j + n < |s| && s[j + n] == c then Some(n) else None
  }

  lemma RunToOf(s: string, j: nat, d: string, c: char)
    requires Numeral(d) && GroupTo(s, j, d, c) && !IsDigit(c)
    ensures RunTo(s, j, c) == Some(|d|)
  {
    DigitRunOf(s, j, d);
  }

  /** The lengths of the four groups. */
  datatype Runs = Runs(year: nat, month: nat, day: nat, count: nat)

  /** The group lengths of `([0-9]+),([0-9]+),([0-9]+)\),([0-9]+)` read from `p0`. */
  function RunsFrom(s: string, p0: nat): (r: Option<Runs>)
    requires p0 <= |s|
    ensures r.Some? ==> p0 + r.value.year + r.value.month + r.value.day + r.value.count + 4 <= |s|
  {
    match RunTo(s, p0, ',')
    case None => None
    case Some(n0) =>
      var p1 := p0 + n0 + 1;
      match RunTo(s, p1, ',')
      case None => None
      case Some(n1) =>
        var p2 := p1 + n1 + 1;
        match RunTo(s, p2, ')')
        case None => None
        case Some(n2) =>
          if p2 + n2 + 1 < |s| && s[p2 + n2 + 1] == ',' then
            var n3 := DigitRun(s, p2 + n2 + 2);
            if n3 == 0 then None else Some(Runs(n0, n1, n2, n3))
          else None
  }

  /** The groups that the lengths `r` cut out of `s` from `p0`. */
  function GroupsOf(s: string, p0: nat, r: Runs): Stamp
    requires p0 + r.year + r.month + r.day + r.count + 4 <= |s|
  {
    var p1 := p0 + r.year + 1;
    var p2 := p1 + r.month + 1;
    var p3 := p2 + r.day + 2;
    Stamp(s[p0..p0 + r.year], s[p1..p1 + r.month], s[p2..p2 + r.day], s[p3..p3 + r.count])
  }

  function StampAt(s: string, i: nat): Option<Stamp> {
    if DateUtcHead(s, i) then
      match RunsFrom(s, i + 9)
      case None => None
      case Some(r) => Some(GroupsOf(s, i + 9, r))
    else None
  }

  /** The runs that `RunsFrom` reads, stated one by one. */
  predicate RunsAt(s: string, p0: nat, r: Runs) {
    var p1 := p0 + r.year + 1;
    var p2 := p1 + r.month + 1;
    var p3 := p2 + r.day + 2;
    && p3 <= |s|
    && RunTo(s, p0, ',') == Some(r.year)
    && RunTo(s, p1, ',') == Some(r.month)
    && RunTo(s, p2, ')') == Some(r.day)
    && s[p3 - 1] == ','
    && 0 < r.count && DigitRun(s, p3) == r.count
  }

  lemma RunsFromAt(s: string, p0: nat, r: Runs)
    requires p0 <= |s|
    ensures RunsFrom(s, p0) == Some(r) <==> RunsAt(s, p0, r)
  {
  }

  lemma DateUtcAtHit(s: string, i: nat, st: Stamp)
    requires DateUtcAt(s, i, st)
    ensures StampAt(s, i) == Some(st)
  {
    var p0 := i + 9;
    var r := Runs(|st.year|, |st.month|, |st.day|, |st.count|);
    GroupsRuns(s, p0, st);
    RunsFromAt(s, p0, r);
    GroupsOfAt(s, p0, st);
  }

  lemma GroupsOfAt(s: string, p0: nat, st: Stamp)
    requires GroupsAt(s, p0, st)
    ensures p0 + |st.year| + |st.month| + |st.day| + |st.count| + 4 <= |s|
    ensures GroupsOf(s, p0, Runs(|st.year|, |st.month|, |st.day|, |st.count|)) == st
  {
  }

  lemma GroupsRuns(s: string, p0: nat, st: Stamp)
    requires WellFormed(st) && GroupsAt(s, p0, st)
    ensures RunsAt(s, p0, Runs(|st.year|, |st.month|, |st.day|, |st.count|))
  {
    var p1 := p0 + |st.year| + 1;
    var p2 := p1 + |st.month| + 1;
    var p3 := p2 + |st.day| + 2;
    RunToOf(s, p0, st.year, ',');
    RunToOf(s, p1, st.month, ',');
    RunToOf(s, p2, st.day, ')');
    DigitRunOf(s, p3, st.count);
  }

  lemma RunsGroups(s: string, p0: nat, r: Runs)
    requires p0 <= |s| && RunsAt(s, p0, r)
    ensures p0 + r.year + r.month + r.day + r.count + 4 <= |s|
    ensures WellFormed(GroupsOf(s, p0, r)) && GroupsAt(s, p0, GroupsOf(s, p0, r))
  {
    RunsWellFormed(s, p0, r);
    CutGroupsAt(s, p0, r);
  }

  /** The separators around the runs put `GroupsOf` back where it was cut from. */
  lemma CutGroupsAt(s: string, p0: nat, r: Runs)
    requires p0 + r.year + r.month + r.day + r.count + 4 <= |s|
    requires s[p0 + r.year] == ',' && s[p0 + r.year + 1 + r.month] == ','
    requires s[p0 + r.year + 1 + r.month + 1 + r.day] == ')'
    requires s[p0 + r.year + 1 + r.month + 1 + r.day + 1] == ','
    requires !DigitAt(s, p0 + r.year + r.month + r.day + r.count + 4)
    ensures GroupsAt(s, p0, GroupsOf(s, p0, r))
  {
  }

  lemma RunsWellFormed(s: string, p0: nat, r: Runs)
    requires p0 <= |s| && RunsAt(s, p0, r)
    ensures p0 + r.year + r.month + r.day + r.count + 4 <= |s|
    ensures WellFormed(GroupsOf(s, p0, r))
    ensures !DigitAt(s, p0 + r.year + r.month + r.day + r.count + 4)
  {
    RunsNumerals(s, p0, r);
    RunsEnd(s, p0, r);
  }

  /** Each run read is a numeral. */
  lemma RunsNumerals(s: string, p0: nat, r: Runs)
    requires p0 <= |s| && RunsAt(s, p0, r)
    ensures p0 + r.year + r.month + r.day + r.count + 4 <= |s|
    ensures WellFormed(GroupsOf(s, p0, r))
  {
    var p1 := p0 + r.year + 1;
    var p2 := p1 + r.month + 1;
    var p3 := p2 + r.day + 2;
    RunNumeral(s, p0, r.year);
    RunNumeral(s, p1, r.month);
    RunNumeral(s, p2, r.day);
    RunNumeral(s, p3, r.count);
    CutWellFormed(s, p0, r);
  }

  /** No digit follows the last run. */
  lemma RunsEnd(s: string, p0: nat, r: Runs)
    requires p0 <= |s| && RunsAt(s, p0, r)
    ensures !DigitAt(s, p0 + r.year + r.month + r.day + r.count + 4)
  {
    var p3 := p0 + r.year + 1 + r.month + 1 + r.day + 2;
    DigitRunDigits(s, p3);
  }

  /** The groups cut out of `s` are numerals when the runs they are cut from are. */
  lemma CutWellFormed(s: string, p0: nat, r: Runs)
    requires p0 + r.year + r.month + r.day + r.count + 4 <= |s|
    requires Numeral(s[p0..p0 + r.year])
    requires Numeral(s[p0 + r.year + 1..p0 + r.year + 1 + r.month])
    requires Numeral(s[p0 + r.year + 1 + r.month + 1..p0 + r.year + 1 + r.month + 1 + r.day])
    requires Numeral(s[p0 + r.year + 1 + r.month + 1 + r.day + 2..p0 + r.year + 1 + r.month + 1 + r.day + 2 + r.count])
    ensures WellFormed(GroupsOf(s, p0, r))
  {
  }

  lemma HitDateUtcAt(s: string, i: nat)
    requires StampAt(s, i).Some?
    ensures DateUtcAt(s, i, StampAt(s, i).value)
  {
    var r := RunsFrom(s, i + 9).value;
    RunsFromAt(s, i + 9, r);
    RunsGroups(s, i + 9, r);
  }

  lemma DateUtcAtHits(s: string)
    ensures forall i: nat, st :: DateUtcAt(s, i, st) <==> i < |s| && Hits(s, DateUtc, i) && StampAt(s, i) == Some(st)
  {
    forall i: nat, st
      ensures DateUtcAt(s, i, st) <==> i < |s| && Hits(s, DateUtc, i) && StampAt(s, i) == Some(st)
    {
      if DateUtcAt(s, i, st) {
        DateUtcAtHit(s, i, st);
      }
      if i < |s| && StampAt(s, i) == Some(st) {
        HitDateUtcAt(s, i);
      }
    }
  }

  /** The groups of the leftmost `Date.UTC(...)` match, or `None` when there is none. */
  function MatchStamp(s: string): (r: Option<Stamp>)
    ensures r.Some? ==> WellFormed(r.value)
    ensures r.None? <==> forall i: nat, st :: !DateUtcAt(s, i, st)
    ensures r.Some? ==> exists i: nat :: DateUtcAt(s, i, r.value) && forall j: nat, st :: j < i ==> !DateUtcAt(s, j, st)
  {
    DateUtcAtHits(s);
    match Leftmost(s, DateUtc, 0)
    case None => None
    case Some(i) =>
      var st := StampAt(s, i).value;
      assert DateUtcAt(s, i, st);
      Some(st)
  }

  /** The groups of the leftmost match are what `MatchStamp` returns. */
  lemma MatchStampLeftmost(s: string, i: nat, st: Stamp)
    requires DateUtcAt(s, i, st)
    requires forall j: nat, other :: j < i ==> !DateUtcAt(s, j, other)
    ensures MatchStamp(s) == Some(st)
  {
    DateUtcAtHits(s);
    var found := MatchStamp(s).value;
    var at: nat :| DateUtcAt(s, at, found) && forall j: nat, other :: j < at ==> !DateUtcAt(s, j, other);
    assert at == i;
  }
}
