/** Line-oriented extraction from the two source pages (read as `readlines()`, so each
    line keeps its newline): the data-blob marker lookup and the historic-mode capture
    of the `viz2`..`viz7` function run. */
module LineScan {
  import opened PyText

  /** The first index at or after `from` whose line satisfies `test`, or `|lines|` when
      there is none. */
  function FirstFrom(lines: seq<string>, from: nat, test: string -> bool): (i: nat)
    requires from <= |lines|
    ensures from <= i <= |lines|
    ensures i < |lines| ==> test(lines[i])
    ensures forall j :: from <= j < i ==> !test(lines[j])
    decreases |lines| - from
  {
    if from == |lines| || test(lines[from]) then from
    else FirstFrom(lines, from + 1, test)
  }

  /** Lines in front of the searched range do not move the first match, only shift it. */
  lemma {:induction false} FirstFromShift(pre: seq<string>, lines: seq<string>, from: nat, test: string -> bool)
    requires from <= |lines|
    ensures FirstFrom(pre + lines, |pre| + from, test) == |pre| + FirstFrom(lines, from, test)
    decreases |lines| - from
  {
    if from < |lines| {
      assert (pre + lines)[|pre| + from] == lines[from];
      if !test(lines[from]) {
        FirstFromShift(pre, lines, from + 1, test);
      }
    }
  }

  /** The search from `0` and from `from` agree when nothing before `from` matches. */
  lemma {:induction false} FirstFromSkip(lines: seq<string>, from: nat, test: string -> bool)
    requires from <= |lines|
    requires forall j :: 0 <= j < from ==> !test(lines[j])
    ensures FirstFrom(lines, 0, test) == FirstFrom(lines, from, test)
    decreases from
  {
    if from > 0 {
      FirstFromSkip(lines, from - 1, test);
    }
  }

  /** A preamble with no matching line only shifts the first match. */
  lemma FirstAfterPreamble(pre: seq<string>, lines: seq<string>, test: string -> bool)
    requires forall j :: 0 <= j < |pre| ==> !test(pre[j])
    ensures FirstFrom(pre + lines, 0, test) == |pre| + FirstFrom(lines, 0, test)
  {
    var all := pre + lines;
    forall j | 0 <= j < |pre|
      ensures !test(all[j])
    {
      assert all[j] == pre[j];
    }
    FirstFromSkip(all, |pre|, test);
    FirstFromShift(pre, lines, 0, test);
  }

  /** The line test of the data-blob lookup: the stripped line starts with `marker`. */
  predicate HasMarker(marker: string, line: string) {
    StartsWith(Strip(line), marker)
  }

  function MarkerTest(marker: string): string -> bool {
    line => HasMarker(marker, line)
  }

  /** Data-blob lookup (`const INLINE_DATA`, `const RDATA`): the stripped form of the
      first line whose stripped text starts with `marker`, or `""` when no line does;
      later matching lines are ignored. */
  method FindMarkerLine(lines: seq<string>, marker: string) returns (found: string)
    ensures var i := FirstFrom(lines, 0, MarkerTest(marker));
      found == if i < |lines| then Strip(lines[i]) else ""
    ensures marker != [] ==>
      (found == "" <==> forall j :: 0 <= j < |lines| ==> !HasMarker(marker, lines[j]))
  {
    found := "";
    var i := 0;
    while i < |lines|
      invariant 0 <= i <= |lines|
      invariant forall j :: 0 <= j < i ==> !HasMarker(marker, lines[j])
    {
      var stripped := Strip(lines[i]);
      if StartsWith(stripped, marker) {
        FirstFromSkip(lines, i, MarkerTest(marker));
        found := stripped;
        return;
      }
      i := i + 1;
    }
    FirstFromSkip(lines, i, MarkerTest(marker));
  }

  /** The block of lines from the first `start` line up to, not including, the first
      `stop` line at or after it (or to the end); empty when no line is a `start` line. */
  function Region(lines: seq<string>, start: string -> bool, stop: string -> bool): (r: seq<string>)
    ensures r != [] ==> start(r[0])
    ensures forall k :: 0 <= k < |r| ==> !stop(r[k])
    ensures var s := FirstFrom(lines, 0, start);
      s + |r| <= |lines| && r == lines[s..s + |r|]
      && (s < |lines| ==> s + |r| == |lines| || stop(lines[s + |r|]))
  {
    var s := FirstFrom(lines, 0, start);
    if s == |lines| then []
    else lines[s..FirstFrom(lines, s, stop)]
  }

  lemma SliceOfAppend<T>(pre: seq<T>, a: seq<T>, s: nat, e: nat)
    requires s <= e <= |a|
    ensures (pre + a)[|pre| + s..|pre| + e] == a[s..e]
  {
  }

  lemma SliceExtend<T>(a: seq<T>, s: nat, i: nat)
    requires s <= i < |a|
    ensures a[s..i + 1] == a[s..i] + [a[i]]
  {
  }

  /** Lines before the first `start` line, `stop` lines included, have no effect. */
  lemma RegionIgnoresPreamble(pre: seq<string>, lines: seq<string>, start: string -> bool, stop: string -> bool)
    requires forall j :: 0 <= j < |pre| ==> !start(pre[j])
    ensures Region(pre + lines, start, stop) == Region(lines, start, stop)
  {
    FirstAfterPreamble(pre, lines, start);
    var s := FirstFrom(lines, 0, start);
    if s < |lines| {
      var e := FirstFrom(lines, s, stop);
      FirstFromShift(pre, lines, s, stop);
      SliceOfAppend(pre, lines, s, e);
    }
  }

  /** The line the historic run starts at. */
  predicate IsViz2Start(line: string) {
    StartsWith(Strip(line), "function viz2(")
  }

  /** The lines the historic run stops before. */
  predicate IsHistoricStop(line: string) {
    IsStopText(Strip(line))
  }

  /** The three stop signatures, tested on a stripped line. */
  predicate IsStopText(t: string) {
    StartsWith(t, "function sliderStep(") || StartsWith(t, "function setupScrollObserver(")
    || StartsWith(t, "function goToStep(")
  }

  /** The `viz2` line is never itself a stop line: the signatures differ at index 9. */
  lemma Viz2IsNotStop(line: string)
    requires IsViz2Start(line)
    ensures !IsHistoricStop(line)
  {
    var t := Strip(line);
    assert t[9] == "function viz2("[9];
  }

  /** The historic-mode region: the `function viz2(` line and every line after it up to
      the first `sliderStep`, `setupScrollObserver` or `goToStep` definition. */
  function HistoricRegion(lines: seq<string>): seq<string> {
    Region(lines, IsViz2Start, IsHistoricStop)
  }

  /** The historic region is empty exactly when the page has no `function viz2(` line. */
  lemma HistoricRegionEmpty(lines: seq<string>)
    ensures HistoricRegion(lines) == [] <==> forall j :: 0 <= j < |lines| ==> !IsViz2Start(lines[j])
  {
    var s := FirstFrom(lines, 0, IsViz2Start);
    if s < |lines| {
      Viz2IsNotStop(lines[s]);
    }
  }

  /** The capture loop: a `capture` flag switched on at `function viz2(`, lines appended
      unmodified until a stop line. */
  method CaptureHistoric(lines: seq<string>) returns (captured: seq<string>)
    ensures captured == HistoricRegion(lines)
  {
    captured := [];
    var capture := false;
    ghost var s := FirstFrom(lines, 0, IsViz2Start);
    var i := 0;
    while i < |lines|
      invariant 0 <= i <= |lines|
      invariant !capture ==> captured == [] && i <= s
      invariant capture ==> s < i && FirstFrom(lines, s, IsHistoricStop) >= i && captured == lines[s..i]
    {
      var stripped := Strip(lines[i]);
      assert IsViz2Start(lines[i]) == StartsWith(stripped, "function viz2(");
      if StartsWith(stripped, "function viz2(") {
        capture := true;
      }
      if capture {
        if IsStopText(stripped) {
          HistoricRegionUpTo(lines, i);
          break;
        }
        CaptureStep(lines, s, i, captured);
        captured := captured + [lines[i]];
      }
      i := i + 1;
    }
    if capture && i == |lines| {
      HistoricRegionUpTo(lines, |lines|);
    }
  }

  /** Appending a line that is not a stop line keeps the captured lines a prefix of
      the region. */
  lemma CaptureStep(lines: seq<string>, s: nat, i: nat, captured: seq<string>)
    requires s <= i < |lines| && FirstFrom(lines, s, IsHistoricStop) >= i
    requires !IsHistoricStop(lines[i]) && captured == lines[s..i]
    ensures FirstFrom(lines, s, IsHistoricStop) >= i + 1
    ensures captured + [lines[i]] == lines[s..i + 1]
  {
    SliceExtend(lines, s, i);
  }

  /** The historic region ends at `e` when `e` is the end of the page or a stop line and
      no stop line comes between the `viz2` line and `e`. */
  lemma HistoricRegionUpTo(lines: seq<string>, e: nat)
    requires var s := FirstFrom(lines, 0, IsViz2Start);
      s <= e <= |lines| && s < |lines| && FirstFrom(lines, s, IsHistoricStop) >= e
    requires e == |lines| || IsHistoricStop(lines[e])
    ensures HistoricRegion(lines) == lines[FirstFrom(lines, 0, IsViz2Start)..e]
  {
  }
}
