/** The Python `str` operations the scraper relies on, over `seq<char>`:
    `replace(c, '')`, `split(sep)`, `sep.join(xs)`, `int(digits)`, `str(n)` and
    `'%0Nd' % n`. `IndexOf` is the search for the separator inside `split`; the
    scraper itself never calls `find`. */
module Strings {
  import opened Results

  // ---------------------------------------------------------------------------
  // Occurrences
  // ---------------------------------------------------------------------------

  /** The text `w` occurs in `s` at index `i`. */
  predicate StartsAt(s: string, i: nat, w: string) {
    i + |w| <= |s| && s[i..i + |w|] == w
  }

  /** A one-character string occurs exactly where its character does. */
  lemma StartsAtChar(s: string, i: nat, c: char)
    ensures StartsAt(s, i, [c]) <==> i < |s| && s[i] == c
  {
    if i < |s| {
      assert s[i..i + 1][0] == s[i];
    }
  }

  /** `w` occurs nowhere in `t`. */
  predicate Lacks(t: string, w: string) {
    forall i :: 0 <= i < |t| ==> !StartsAt(t, i, w)
  }

  /** No character of `t` is `c`. */
  predicate Free(t: string, c: char) {
    forall k :: 0 <= k < |t| ==> t[k] != c
  }

  /** A text free of `c` has no occurrence of the one-character string `[c]`. */
  lemma FreeLacks(t: string, c: char)
    requires Free(t, c)
    ensures Lacks(t, [c])
  {
    forall i | 0 <= i < |t|
      ensures !StartsAt(t, i, [c])
    {
      StartsAtChar(t, i, c);
    }
  }

  /** No proper suffix of `w` is also a prefix of it, so two occurrences cannot overlap. */
  predicate Borderless(w: string) {
    forall d :: 0 < d < |w| ==> w[d..] != w[..|w| - d]
  }

  lemma StartsAtConcat(s: string, i: nat, a: string, b: string)
    ensures StartsAt(s, i, a + b) <==> StartsAt(s, i, a) && StartsAt(s, i + |a|, b)
  {
    if i + |a| + |b| <= |s| {
      var x, y := s[i..i + |a|], s[i + |a|..i + |a| + |b|];
      assert s[i..i + |a| + |b|] == x + y;
      if x + y == a + b {
        assert x == (x + y)[..|a|] == (a + b)[..|a|] == a;
        assert y == (x + y)[|a|..] == (a + b)[|a|..] == b;
      }
    }
  }

  /** An occurrence inside the slice `s[lo..hi]` is an occurrence in `s`, shifted by `lo`. */
  lemma StartsAtSlice(s: string, lo: nat, hi: nat, i: nat, w: string)
    requires lo <= hi <= |s|
    ensures StartsAt(s[lo..hi], i, w) <==> lo + i + |w| <= hi && StartsAt(s, lo + i, w)
  {
    if lo + i + |w| <= hi {
      var a, b := s[lo..hi][i..i + |w|], s[lo + i..lo + i + |w|];
      forall t | 0 <= t < |w|
        ensures a[t] == b[t]
      {
      }
      assert a == b;
    }
  }

  /** `s.find(w, from)`: the first index at or after `from` where `w` occurs. */
  function IndexOf(s: string, w: string, from: nat): (r: Option<nat>)
    decreases |s| - from
    ensures r.Some? ==> from <= r.value < |s| && StartsAt(s, r.value, w)
    ensures r.Some? ==> forall j :: from <= j < r.value ==> !StartsAt(s, j, w)
    ensures r.None? ==> forall j :: from <= j < |s| ==> !StartsAt(s, j, w)
  {
    if from >= |s| then None
    else if StartsAt(s, from, w) then Some(from)
    else IndexOf(s, w, from + 1)
  }

  // ---------------------------------------------------------------------------
  // Deleting characters: `s.replace(c, '')`
  // ---------------------------------------------------------------------------

  /** `s` with every character of `drop` deleted; the others keep their order. */
  function Without(s: string, drop: set<char>): (r: string)
    decreases |s|
    ensures |r| <= |s|
    ensures forall k :: 0 <= k < |r| ==> r[k] !in drop
  {
    if |s| == 0 then ""
    else if s[0] in drop then Without(s[1..], drop)
    else [s[0]] + Without(s[1..], drop)
  }

  /** Every character outside `drop` occurs as often after deleting as before. */
  lemma {:induction false} WithoutKeepsCounts(s: string, drop: set<char>)
    decreases |s|
    ensures forall c :: c !in drop ==> multiset(Without(s, drop))[c] == multiset(s)[c]
  {
    if |s| > 0 {
      WithoutKeepsCounts(s[1..], drop);
      assert s == [s[0]] + s[1..];
    }
  }

  /** `s.replace(c, '')` for a one-character `c`. */
  function RemoveChar(s: string, c: char): string {
    Without(s, {c})
  }

  /** Deleting distributes over concatenation: the kept characters stay in order. */
  lemma {:induction false} WithoutConcat(a: string, b: string, drop: set<char>)
    ensures Without(a + b, drop) == Without(a, drop) + Without(b, drop)
  {
    if |a| == 0 {
      assert a + b == b;
    } else {
      assert (a + b)[0] == a[0];
      assert (a + b)[1..] == a[1..] + b;
      WithoutConcat(a[1..], b, drop);
    }
  }

  /** Text without any character of `drop` is left as it is. */
  lemma {:induction false} WithoutNothingToDrop(s: string, drop: set<char>)
    requires forall k :: 0 <= k < |s| ==> s[k] !in drop
    ensures Without(s, drop) == s
  {
    if |s| > 0 {
      WithoutNothingToDrop(s[1..], drop);
      assert s == [s[0]] + s[1..];
    }
  }

  /** Deleting one set and then another deletes their union. */
  lemma {:induction false} WithoutTwice(s: string, a: set<char>, b: set<char>)
    ensures Without(Without(s, a), b) == Without(s, a + b)
  {
    if |s| > 0 {
      WithoutTwice(s[1..], a, b);
      if s[0] !in a {
        var w := Without(s[1..], a);
        assert ([s[0]] + w)[0] == s[0];
        assert ([s[0]] + w)[1..] == w;
      }
    }
  }

  // ---------------------------------------------------------------------------
  // Decimal digits: `[0-9]`, `int(...)`, `str(n)`, `'%0Nd' % n`
  // ---------------------------------------------------------------------------

  predicate IsDigit(c: char) {
    '0' <= c <= '9'
  }

  predicate AllDigits(s: string) {
    forall k :: 0 <= k < |s| ==> IsDigit(s[k])
  }

  /** What `[0-9]+` captures: a non-empty run of digits. */
  predicate Numeral(s: string) {
    |s| > 0 && AllDigits(s)
  }

  /** There is a digit at index `j` of `s`. */
  predicate DigitAt(s: string, j: nat) {
    j < |s| && IsDigit(s[j])
  }

  /** The length of the longest run of digits starting at `j`. */
  function DigitRun(s: string, j: nat): (n: nat)
    requires j <= |s|
    decreases |s| - j
    ensures j + n <= |s|
  {
    if j < |s| && IsDigit(s[j]) then 1 + DigitRun(s, j + 1) else 0
  }

  /** The run is all digits, and no digit follows it. */
  lemma {:induction false} DigitRunDigits(s: string, j: nat)
    requires j <= |s|
    decreases |s| - j
    ensures forall k :: j <= k < j + DigitRun(s, j) ==> IsDigit(s[k])
    ensures !DigitAt(s, j + DigitRun(s, j))
  {
    if j < |s| && IsDigit(s[j]) {
      DigitRunDigits(s, j + 1);
    }
  }

  /** A run of digits at `j` that is not followed by a digit is the longest run there. */
  lemma DigitRunOf(s: string, j: nat, w: string)
    requires AllDigits(w) && StartsAt(s, j, w) && !DigitAt(s, j + |w|)
    ensures DigitRun(s, j) == |w|
  {
    DigitRunDigits(s, j);
    assert forall k :: j <= k < j + |w| ==> s[k] == w[k - j];
  }

  /** A non-empty prefix of the run of digits at `j` is a numeral. */
  lemma RunNumeral(s: string, j: nat, n: nat)
    requires j <= |s| && 0 < n <= DigitRun(s, j)
    ensures Numeral(s[j..j + n])
  {
    DigitRunDigits(s, j);
    var t := s[j..j + n];
    assert forall k :: 0 <= k < |t| ==> t[k] == s[j + k];
  }

  function DigitValue(c: char): nat
    requires IsDigit(c)
  {
    c as int - '0' as int
  }

  function DigitChar(d: nat): (c: char)
    requires d < 10
    ensures IsDigit(c) && DigitValue(c) == d
  {
    ('0' as int + d) as char
  }

  /** `int(s)` for a string of decimal digits; leading zeros are allowed. */
  function DecimalValue(s: string): nat
    requires AllDigits(s)
    decreases |s|
  {
    if |s| == 0 then 0 else 10 * DecimalValue(s[..|s| - 1]) + DigitValue(s[|s| - 1])
  }

  /** `str(n)` for a non-negative integer: its decimal spelling without leading zeros,
      which `int` reads back as `n`. */
  function Decimal(n: nat): (r: string)
    decreases n
    ensures Numeral(r)
    ensures |r| == 1 || r[0] != '0'
    ensures DecimalValue(r) == n
  {
    if n < 10 then
      var r := [DigitChar(n)];
      assert r[..0] == [];
      r
    else
      var h := Decimal(n / 10);
      var r := h + [DigitChar(n % 10)];
      assert r[..|r| - 1] == h;
      assert |h| == 1 ==> h[..0] == [] && DecimalValue(h) == DigitValue(h[0]);
      r
  }

  function Pow10(k: nat): (p: nat)
    ensures p >= 1
  {
    if k == 0 then 1 else 10 * Pow10(k - 1)
  }

  /** `'%0{width}d' % n` for an `n` that fits in `width` digits; `int` reads it back as `n`. */
  function Padded(n: nat, width: nat): (r: string)
    requires n < Pow10(width)
    decreases width
    ensures |r| == width && AllDigits(r)
  {
    if width == 0 then "" else Padded(n / 10, width - 1) + [DigitChar(n % 10)]
  }

  /** `int` reads a padded numeral back as the number. */
  lemma {:induction false} PaddedValue(n: nat, width: nat)
    requires n < Pow10(width)
    decreases width
    ensures DecimalValue(Padded(n, width)) == n
  {
    if width > 0 {
      PaddedValue(n / 10, width - 1);
      var h := Padded(n / 10, width - 1);
      var r := Padded(n, width);
      assert r == h + [DigitChar(n % 10)];
      assert r[..|r| - 1] == h;
    }
  }

  // ---------------------------------------------------------------------------
  // `sep.join(xs)` and `s.split(sep)`
  // ---------------------------------------------------------------------------

  /** `sep.join(xs)`: the elements with one `sep` between neighbours, none at the ends. */
  function Join(xs: seq<string>, sep: string): string
    decreases |xs|
  {
    if |xs| == 0 then ""
    else if |xs| == 1 then xs[0]
    else xs[0] + sep + Join(xs[1..], sep)
  }

  /** Joining texts free of `c` with a separator free of `c` gives a text free of `c`. */
  lemma {:induction false} JoinFree(xs: seq<string>, sep: string, c: char)
    requires Free(sep, c)
    requires forall k :: 0 <= k < |xs| ==> Free(xs[k], c)
    decreases |xs|
    ensures Free(Join(xs, sep), c)
  {
    if |xs| > 1 {
      JoinFree(xs[1..], sep, c);
      var rest := Join(xs[1..], sep);
      var r := xs[0] + sep + rest;
      assert forall k :: 0 <= k < |r| ==>
               r[k] == if k < |xs[0]| then xs[0][k]
                       else if k < |xs[0]| + |sep| then sep[k - |xs[0]|]
                       else rest[k - |xs[0]| - |sep|];
    }
  }

  /** A piece ends at the first occurrence of `sep` after it: `sep` does not start
      anywhere in `piece + sep` before the end of `piece`. */
  predicate CutAtFirst(piece: string, sep: string) {
    forall j :: 0 <= j < |piece| ==> !StartsAt(piece + sep, j, sep)
  }

  /** `s.split(sep)`: `s` cut at each occurrence of `sep`, taken from the left without
      overlaps. Joining the pieces gives `s` back, no piece contains `sep`, and every
      piece but the last ends at the first occurrence of `sep` after it, so the cuts are
      the leftmost ones even for a separator that can overlap itself (`SplitOverlapping`);
      `SplitUnique` shows that these facts determine the pieces. */
  function Split(s: string, sep: string): (r: seq<string>)
    requires |sep| > 0
    decreases |s|
    ensures |r| > 0
    ensures Join(r, sep) == s
    ensures forall k :: 0 <= k < |r| ==> Lacks(r[k], sep)
    ensures IndexOf(s, sep, 0).None? ==> r == [s]
    ensures IndexOf(s, sep, 0).Some? ==> r[0] == s[..IndexOf(s, sep, 0).value]
    ensures forall k :: 0 <= k < |r| - 1 ==> CutAtFirst(r[k], sep)
  {
    match IndexOf(s, sep, 0)
    case None =>
      PrefixLacks(s, |s|, sep);
      assert s[..|s|] == s;
      [s]
    case Some(i) =>
      var rest := Split(s[i + |sep|..], sep);
      PrefixLacks(s, i, sep);
      FirstCut(s, sep, i);
      SplitStep(s[..i], sep, s[i + |sep|..], rest);
      Around(s, i, sep);
      [s[..i]] + rest
  }

  /** Pieces of the text after an occurrence of `sep`, with a piece cut at that
      occurrence in front, are pieces of the whole text. */
  lemma SplitStep(pre: string, sep: string, post: string, rest: seq<string>)
    requires Lacks(pre, sep) && CutAtFirst(pre, sep)
    requires |rest| > 0 && Join(rest, sep) == post
    requires forall k :: 0 <= k < |rest| ==> Lacks(rest[k], sep)
    requires forall k :: 0 <= k < |rest| - 1 ==> CutAtFirst(rest[k], sep)
    ensures Join([pre] + rest, sep) == pre + sep + post
    ensures forall k :: 0 <= k < |rest| + 1 ==> Lacks(([pre] + rest)[k], sep)
    ensures forall k :: 0 <= k < |rest| ==> CutAtFirst(([pre] + rest)[k], sep)
  {
    var r := [pre] + rest;
    JoinCons(pre, rest, sep);
    forall k | 1 <= k < |r|
      ensures Lacks(r[k], sep) && (k < |rest| ==> CutAtFirst(r[k], sep))
    {
      assert r[k] == rest[k - 1];
    }
  }

  /** Joining one more piece in front puts it and a separator before the rest. */
  lemma JoinCons(x: string, xs: seq<string>, sep: string)
    requires |xs| > 0
    ensures Join([x] + xs, sep) == x + sep + Join(xs, sep)
  {
    assert ([x] + xs)[1..] == xs;
  }

  /** An occurrence of `w` at `i` splits `s` into the text before it, `w`, and the rest. */
  lemma Around(s: string, i: nat, w: string)
    requires StartsAt(s, i, w)
    ensures s == s[..i] + w + s[i + |w|..]
  {
    assert s == s[..i] + s[i..i + |w|] + s[i + |w|..];
  }

  /** The text before the first occurrence of `sep` is cut at that occurrence. */
  lemma FirstCut(s: string, sep: string, i: nat)
    requires IndexOf(s, sep, 0) == Some(i)
    ensures CutAtFirst(s[..i], sep)
  {
    assert s[..i] + sep == s[..i + |sep|];
    forall j | 0 <= j < i
      ensures !StartsAt(s[..i] + sep, j, sep)
    {
      StartsAtSlice(s, 0, i + |sep|, j, sep);
    }
  }

  /** The contract of `Split` determines its result: any pieces that join to `s`, each
      but the last cut at the first following `sep` and the last free of `sep`, are the
      pieces `s.split(sep)` returns. */
  lemma {:induction false} SplitUnique(s: string, sep: string, xs: seq<string>)
    requires |sep| > 0 && |xs| > 0
    requires Join(xs, sep) == s
    requires forall k :: 0 <= k < |xs| - 1 ==> CutAtFirst(xs[k], sep)
    requires Lacks(xs[|xs| - 1], sep)
    decreases |xs|
    ensures Split(s, sep) == xs
  {
    if |xs| == 1 {
      assert IndexOf(s, sep, 0).None?;
    } else {
      var x, rest := xs[0], Join(xs[1..], sep);
      assert s == x + sep + rest;
      CutIndex(x, sep, rest);
      assert s[..|x|] == x;
      assert s[|x| + |sep|..] == rest;
      forall k | 0 <= k < |xs[1..]| - 1
        ensures CutAtFirst(xs[1..][k], sep)
      {
        assert xs[1..][k] == xs[k + 1];
      }
      SplitUnique(rest, sep, xs[1..]);
      assert xs == [x] + xs[1..];
    }
  }

  /** A piece cut at the first following `sep` puts the first `sep` of
      `x + sep + rest` right after `x`. */
  lemma CutIndex(x: string, sep: string, rest: string)
    requires |sep| > 0 && CutAtFirst(x, sep)
    ensures IndexOf(x + sep + rest, sep, 0) == Some(|x|)
  {
    var s := x + sep + rest;
    assert s[..|x| + |sep|] == x + sep;
    forall j | 0 <= j < |x|
      ensures !StartsAt(s, j, sep)
    {
      StartsAtSlice(s, 0, |x| + |sep|, j, sep);
    }
    StartsAtSlice(s, 0, |x| + |sep|, |x|, sep);
    IndexOfFirst(s, sep, |x|);
  }

  /** An occurrence with none before it is what `IndexOf` finds. */
  lemma {:induction false} IndexOfFirst(s: string, w: string, i: nat)
    requires StartsAt(s, i, w) && i < |s|
    requires forall j :: 0 <= j < i ==> !StartsAt(s, j, w)
    ensures IndexOf(s, w, 0) == Some(i)
  {
    var r := IndexOf(s, w, 0);
    assert r.Some?;
    assert !(r.value < i) && !(i < r.value);
  }

  /** Python cuts `"aaa".split("aa")` at the first occurrence: `["", "a"]`, not `["a", ""]`. */
  lemma SplitOverlapping()
    ensures Split("aaa", "aa") == ["", "a"]
  {
    assert StartsAt("aaa", 0, "aa") by {
      assert "aaa"[0..2] == "aa";
    }
    assert IndexOf("aaa", "aa", 0) == Some(0);
    assert "aaa"[2..] == "a";
    assert IndexOf("a", "aa", 0) == None;
    assert "aaa"[..0] == "";
  }

  /** Every cut is the leftmost one, not only the first: `"baaaaa".split("aa")` is
      `["b", "", "a"]`. */
  lemma SplitLeftmostCuts()
    ensures Split("baaaaa", "aa") == ["b", "", "a"]
  {
    var xs := ["b", "", "a"];
    assert Join(xs, "aa") == "baaaaa" by {
      assert xs[1..] == ["", "a"] && xs[1..][1..] == ["a"];
    }
    assert CutAtFirst("b", "aa") by {
      assert !StartsAt("baa", 0, "aa") by { assert "baa"[0..2] == "ba"; }
    }
    assert CutAtFirst("", "aa");
    assert Lacks("a", "aa");
    SplitUnique("baaaaa", "aa", xs);
  }

  /** A prefix before the first occurrence of `w` does not contain `w`. */
  lemma PrefixLacks(s: string, i: nat, w: string)
    requires i <= |s|
    requires forall j :: 0 <= j < i ==> !StartsAt(s, j, w)
    ensures Lacks(s[..i], w)
  {
    forall j | 0 <= j < i
      ensures !StartsAt(s[..i], j, w)
    {
      StartsAtSlice(s, 0, i, j, w);
    }
  }

  /** Splitting a join gives the elements back, when none of them contains the
      separator and the separator cannot overlap itself. */
  lemma {:induction false} SplitJoin(xs: seq<string>, sep: string)
    requires |sep| > 0 && Borderless(sep)
    requires |xs| > 0
    requires forall k :: 0 <= k < |xs| ==> Lacks(xs[k], sep)
    ensures Split(Join(xs, sep), sep) == xs
  {
    var s := Join(xs, sep);
    if |xs| == 1 {
      assert Lacks(s, sep);
      assert IndexOf(s, sep, 0).None?;
    } else {
      var x, rest := xs[0], Join(xs[1..], sep);
      assert s == x + sep + rest;
      StartsAtConcat(s, 0, x, sep + rest);
      StartsAtConcat(s, |x|, sep, rest);
      FirstSeparator(x, sep, rest);
      assert IndexOf(s, sep, 0) == Some(|x|);
      assert s[..|x|] == x;
      assert s[|x| + |sep|..] == rest;
      SplitJoin(xs[1..], sep);
      assert xs == [x] + xs[1..];
    }
  }

  /** In `x + sep + rest`, with `x` free of `sep`, the first `sep` is the one right after `x`. */
  lemma FirstSeparator(x: string, sep: string, rest: string)
    requires |sep| > 0 && Borderless(sep) && Lacks(x, sep)
    ensures forall j :: 0 <= j < |x| ==> !StartsAt(x + sep + rest, j, sep)
  {
    var s := x + sep + rest;
    forall j | 0 <= j < |x|
      ensures !StartsAt(s, j, sep)
    {
      if StartsAt(s, j, sep) {
        if j + |sep| <= |x| {
          assert x[j..j + |sep|] == s[j..j + |sep|];
          assert StartsAt(x, j, sep);
        } else {
          OverlapIsBorder(x, sep, rest, j);
          assert false;
        }
      }
    }
  }

  /** An occurrence of `sep` that starts inside `x` and ends inside the `sep` after it
      makes a proper suffix of `sep` equal to a prefix of it. */
  lemma OverlapIsBorder(x: string, sep: string, rest: string, j: nat)
    requires j < |x| < j + |sep|
    requires StartsAt(x + sep + rest, j, sep)
    ensures sep[|x| - j..] == sep[..|sep| - (|x| - j)]
  {
    var s, d := x + sep + rest, |x| - j;
    forall t | 0 <= t < |sep| - d
      ensures sep[d..][t] == sep[..|sep| - d][t]
    {
      assert sep[d + t] == s[j + d + t] == s[|x| + t] == sep[t];
    }
  }
}
