/** The hourly-mode capture from the second page: from the `COL` palette definition up
    to the scroll listener, dropping single-line declarations the merged page supplies
    itself and every function it replaces, the latter tracked by counting braces. */
module HourlyCapture {
  import opened PyText
  import opened LineScan

  /** `t` contains `"function " + sig` for some `sig` of `sigs`. */
  predicate OpensAny(t: string, sigs: seq<string>)
    decreases |sigs|
  {
    sigs != [] && (Contains(t, "function " + sigs[0]) || OpensAny(t, sigs[1..]))
  }

  /** The line tests of the capture, as data: the prefixes that switch capture on, the
      fragments it stops at, the prefixes of the dropped declarations and the signatures
      of the dropped functions. */
  datatype Rules = Rules(colStarts: seq<string>, stops: seq<string>, drops: seq<string>, skipSigs: seq<string>)

  /** `SKIP_FUNCS`. */
  const SkipFuncs: seq<string> := ["buildMap()", "selectRegion(", "buildStory(", "setupObs()", "goToStep("]

  /** The build script's tests: the `COL` palette line; the scroll listener (either
      quote style) and `DOMContentLoaded`; the `REGIONS`, `RCOL`, `ACTIVE` and `selReg`
      declarations; `SKIP_FUNCS`. */
  const Source := Rules(
    ["const COL = {", "const COL={"],
    ["window.addEventListener('scroll'", "window.addEventListener(\"scroll\"", "DOMContentLoaded"],
    ["const REGIONS =", "const REGIONS=", "const RCOL =", "const RCOL=", "const ACTIVE =", "const ACTIVE=", "let selReg="],
    SkipFuncs)

  predicate IsColLine(rules: Rules, line: string) {
    StartsWithAny(Strip(line), rules.colStarts)
  }

  predicate IsStopLine(rules: Rules, line: string) {
    ContainsAny(Strip(line), rules.stops)
  }

  function ColTest(rules: Rules): string -> bool {
    line => IsColLine(rules, line)
  }

  function StopTest(rules: Rules): string -> bool {
    line => IsStopLine(rules, line)
  }

  /** The loop's variables: `capture`, `skip_func` and `brace_depth`. */
  datatype Scan = Scan(capture: bool, skipping: bool, depth: int)

  const Start := Scan(false, false, 0)

  /** What happens to a line: appended, passed over (`continue`), or the end (`break`). */
  datatype Action = Emit | Drop | Halt

  /** The body of the capture loop for one line. Brace counts are taken on the line as
      read, the tests on the stripped line. */
  function Step(rules: Rules, st: Scan, line: string): (Action, Scan) {
    var t := Strip(line);
    var capture := st.capture || StartsWithAny(t, rules.colStarts);
    if !capture then (Drop, st)
    else if ContainsAny(t, rules.stops) then (Halt, st.(capture := true))
    else if StartsWithAny(t, rules.drops) then (Drop, st.(capture := true))
    else
      var entering := !st.skipping && OpensAny(t, rules.skipSigs);
      var skipping := st.skipping || entering;
      var depth := if entering then 0 else st.depth;
      if skipping then
        var d := depth + CountChar(line, '{') - CountChar(line, '}');
        var closed := d <= 0 && d + CountChar(line, '}') > 0;
        (Drop, Scan(true, !closed, d))
      else (Emit, Scan(true, false, depth))
  }

  /** The indices of the lines appended from line `i` on, starting in state `st`, in
      increasing order. */
  function PicksFrom(rules: Rules, lines: seq<string>, i: nat, st: Scan): (ps: seq<nat>)
    requires i <= |lines|
    ensures forall k :: 0 <= k < |ps| ==> i <= ps[k] < |lines|
    ensures forall k :: 0 <= k < |ps| - 1 ==> ps[k] < ps[k + 1]
    decreases |lines| - i
  {
    if i == |lines| then []
    else if Step(rules, st, lines[i]).0 == Halt then []
    else if Step(rules, st, lines[i]).0 == Drop then PicksFrom(rules, lines, i + 1, Step(rules, st, lines[i]).1)
    else [i] + PicksFrom(rules, lines, i + 1, Step(rules, st, lines[i]).1)
  }

  /** The lines at the given indices. */
  function Select(lines: seq<string>, ps: seq<nat>): (r: seq<string>)
    requires forall k :: 0 <= k < |ps| ==> ps[k] < |lines|
    ensures |r| == |ps|
    ensures forall k :: 0 <= k < |ps| ==> r[k] == lines[ps[k]]
  {
    if ps == [] then [] else [lines[ps[0]]] + Select(lines, ps[1..])
  }

  /** The lines the capture appends under `rules`, in order. */
  function RegionWith(rules: Rules, lines: seq<string>): seq<string> {
    Select(lines, PicksFrom(rules, lines, 0, Start))
  }

  /** The captured hourly code, line by line. */
  function HourlyRegion(lines: seq<string>): seq<string> {
    RegionWith(Source, lines)
  }

  /** One step of `PicksFrom`, for the loop's proof. */
  lemma PicksStep(rules: Rules, lines: seq<string>, i: nat, st: Scan)
    requires i < |lines|
    ensures var next := Step(rules, st, lines[i]);
      var tail := Select(lines, PicksFrom(rules, lines, i + 1, next.1));
      Select(lines, PicksFrom(rules, lines, i, st))
      == if next.0 == Halt then [] else if next.0 == Drop then tail else [lines[i]] + tail
  {
    var next := Step(rules, st, lines[i]);
    if next.0 == Emit {
      var ps := PicksFrom(rules, lines, i, st);
      assert ps[1..] == PicksFrom(rules, lines, i + 1, next.1);
    }
  }

  /** The inner search over `SKIP_FUNCS`, in list order. */
  method FindSkipSig(stripped: string, sigs: seq<string>) returns (found: bool)
    ensures found == OpensAny(stripped, sigs)
  {
    found := false;
    var k := 0;
    while k < |sigs|
      invariant 0 <= k <= |sigs|
      invariant OpensAny(stripped, sigs) == OpensAny(stripped, sigs[k..])
    {
      if Contains(stripped, "function " + sigs[k]) {
        found := true;
        return;
      }
      assert sigs[k..][1..] == sigs[k + 1..];
      k := k + 1;
    }
  }

  /** The body of the capture loop for one line, in the build script's order of tests:
      `Drop` where it has `continue`, `Halt` where it has `break`. */
  method ScanLine(rules: Rules, st: Scan, line: string) returns (act: Action, next: Scan)
    ensures (act, next) == Step(rules, st, line)
  {
    var capture, skipFunc, braceDepth := st.capture, st.skipping, st.depth;
    var stripped := Strip(line);
    if StartsWithAny(stripped, rules.colStarts) {
      capture := true;
    }
    if !capture {
      return Drop, st;
    }
    if ContainsAny(stripped, rules.stops) {
      return Halt, st.(capture := true);
    }
    if StartsWithAny(stripped, rules.drops) {
      return Drop, st.(capture := true);
    }
    if !skipFunc {
      var opens := FindSkipSig(stripped, rules.skipSigs);
      if opens {
        skipFunc := true;
        braceDepth := 0;
      }
    }
    if skipFunc {
      braceDepth := braceDepth + CountChar(line, '{') - CountChar(line, '}');
      if braceDepth <= 0 && braceDepth + CountChar(line, '}') > 0 {
        skipFunc := false;
      }
      return Drop, Scan(capture, skipFunc, braceDepth);
    }
    return Emit, Scan(capture, skipFunc, braceDepth);
  }

  /** The capture loop: every line goes through `ScanLine`; appended lines are kept
      unmodified. */
  method CaptureHourly(lines: seq<string>) returns (captured: seq<string>)
    ensures captured == HourlyRegion(lines)
  {
    captured := [];
    var st := Start;
    var i := 0;
    while i < |lines|
      invariant 0 <= i <= |lines|
      invariant captured + Select(lines, PicksFrom(Source, lines, i, st)) == HourlyRegion(lines)
    {
      var act, next := ScanLine(Source, st, lines[i]);
      AppendStep(Source, lines, i, st, captured, act, next);
      if act == Halt {
        break;
      }
      if act == Emit {
        captured := captured + [lines[i]];
      }
      st := next;
      i := i + 1;
    }
  }

  /** The loop invariant across one line: a halt leaves nothing to append, otherwise the
      line moves from the remaining selection to the captured lines exactly on `Emit`. */
  lemma AppendStep(rules: Rules, lines: seq<string>, i: nat, st: Scan, captured: seq<string>, act: Action, next: Scan)
    requires i < |lines| && (act, next) == Step(rules, st, lines[i])
    ensures act == Halt ==> captured + Select(lines, PicksFrom(rules, lines, i, st)) == captured
    ensures act == Emit ==> (captured + Select(lines, PicksFrom(rules, lines, i, st))
      == (captured + [lines[i]]) + Select(lines, PicksFrom(rules, lines, i + 1, next)))
    ensures act == Drop ==> (captured + Select(lines, PicksFrom(rules, lines, i, st))
      == captured + Select(lines, PicksFrom(rules, lines, i + 1, next)))
  {
    var whole := Select(lines, PicksFrom(rules, lines, i, st));
    var tail := Select(lines, PicksFrom(rules, lines, i + 1, next));
    PicksStep(rules, lines, i, st);
    if act == Halt {
      assert whole == [];
      AppendNothing(captured);
    } else if act == Emit {
      assert whole == [lines[i]] + tail;
      AppendLine(captured, lines[i], tail);
    }
  }

  lemma AppendNothing(a: seq<string>)
    ensures a + [] == a
  {
  }

  lemma AppendLine(a: seq<string>, x: string, b: seq<string>)
    ensures a + ([x] + b) == (a + [x]) + b
  {
  }

  // ---------------------------------------------------------------------------
  // Properties of one step

  /** A line that may be appended: no stop fragment, no dropped declaration and no
      dropped function's signature. */
  predicate Appendable(rules: Rules, line: string) {
    var t := Strip(line);
    !ContainsAny(t, rules.stops) && !StartsWithAny(t, rules.drops) && !OpensAny(t, rules.skipSigs)
  }

  /** A line is appended only with capture on and outside a dropped function, and only
      when it is appendable; afterwards capture stays on and no skip is pending. */
  lemma EmitOnlyAppendable(rules: Rules, st: Scan, line: string)
    requires Step(rules, st, line).0 == Emit
    ensures Appendable(rules, line) && !st.skipping
    ensures Step(rules, st, line).1 == Scan(true, false, st.depth)
  {
  }

  /** Conversely, a line read with capture on and no skip pending is appended when it is
      appendable, and capture carries on with the same depth. */
  lemma EmitWhenAppendable(rules: Rules, st: Scan, line: string)
    requires st.capture && !st.skipping && Appendable(rules, line)
    ensures Step(rules, st, line) == (Emit, Scan(true, false, st.depth))
  {
  }

  /** With capture on (or switched on by this line) and no stop fragment, a line is
      appended exactly when no skip is pending and the line is appendable. */
  lemma EmitIff(rules: Rules, st: Scan, line: string)
    requires (st.capture || IsColLine(rules, line)) && !IsStopLine(rules, line)
    ensures Step(rules, st, line).0 == Emit <==> !st.skipping && Appendable(rules, line)
  {
  }

  /** Every step leaves capture on once it is on or the line switches it on, and off
      otherwise. */
  lemma CaptureFlag(rules: Rules, st: Scan, line: string)
    ensures Step(rules, st, line).1.capture == (st.capture || IsColLine(rules, line))
  {
  }

  /** Before the first `COL` line nothing happens. */
  lemma IdleBeforeCol(rules: Rules, st: Scan, line: string)
    requires !st.capture && !IsColLine(rules, line)
    ensures Step(rules, st, line) == (Drop, st)
  {
  }

  /** Once capture is on, a stop line ends it, inside a dropped function too. */
  lemma StopLineHalts(rules: Rules, st: Scan, line: string)
    requires st.capture || IsColLine(rules, line)
    ensures Step(rules, st, line).0 == Halt <==> IsStopLine(rules, line)
  {
  }

  /** A dropped declaration is passed over without touching the skip state, inside a
      dropped function too: its braces are not counted. */
  lemma DeclDroppedKeepsSkip(rules: Rules, st: Scan, line: string)
    requires st.capture && !IsStopLine(rules, line) && StartsWithAny(Strip(line), rules.drops)
    ensures Step(rules, st, line) == (Drop, st)
  {
  }

  /** Entering a dropped function restarts the depth at zero: the new depth is that
      line's balance of braces, whatever the old depth was. */
  lemma SkipEntryResetsDepth(rules: Rules, st: Scan, line: string)
    requires st.capture && !st.skipping
    requires var t := Strip(line);
      !ContainsAny(t, rules.stops) && !StartsWithAny(t, rules.drops) && OpensAny(t, rules.skipSigs)
    ensures var (act, next) := Step(rules, st, line);
      act == Drop && next.depth == CountChar(line, '{') - CountChar(line, '}')
  {
  }

  /** A dropped function written on one line with balanced braces, such as
      `function buildMap(){}`, is dropped and capture resumes with the next line. */
  lemma OneLineFunctionDropped(rules: Rules, st: Scan, line: string)
    requires st.capture && !st.skipping
    requires var t := Strip(line);
      !ContainsAny(t, rules.stops) && !StartsWithAny(t, rules.drops) && OpensAny(t, rules.skipSigs)
    requires CountChar(line, '{') == CountChar(line, '}') > 0
    ensures Step(rules, st, line) == (Drop, Scan(true, false, 0))
  {
  }

  /** Inside a dropped function a line without braces never ends the skip, whatever
      the depth. */
  lemma BracelessLineKeepsSkipping(rules: Rules, st: Scan, line: string)
    requires st.capture && st.skipping
    requires !IsStopLine(rules, line) && !StartsWithAny(Strip(line), rules.drops)
    requires CountChar(line, '{') == 0 && CountChar(line, '}') == 0
    ensures Step(rules, st, line) == (Drop, st)
  {
  }

  /** Inside a dropped function the skip ends exactly on a line after which the depth
      is at most zero and that had something to close: the depth before it plus its
      opening braces is positive. */
  lemma SkipEndsWhenClosed(rules: Rules, st: Scan, line: string)
    requires st.capture && st.skipping
    requires !IsStopLine(rules, line) && !StartsWithAny(Strip(line), rules.drops)
    ensures var (act, next) := Step(rules, st, line);
      var d := st.depth + CountChar(line, '{') - CountChar(line, '}');
      act == Drop && next.depth == d
      && (!next.skipping <==> d <= 0 && st.depth + CountChar(line, '{') > 0)
  {
  }

  // ---------------------------------------------------------------------------
  // Properties of the whole capture

  /** Every line at the indices `ps` is appendable. */
  predicate AllAppendable(rules: Rules, lines: seq<string>, ps: seq<nat>) {
    forall k :: 0 <= k < |ps| ==> ps[k] < |lines| && Appendable(rules, lines[ps[k]])
  }

  /** Every appended line is appendable. */
  lemma {:induction false} PicksAppendable(rules: Rules, lines: seq<string>, i: nat, st: Scan)
    requires i <= |lines|
    ensures AllAppendable(rules, lines, PicksFrom(rules, lines, i, st))
    decreases |lines| - i
  {
    if i < |lines| {
      var next := Step(rules, st, lines[i]);
      PicksAppendable(rules, lines, i + 1, next.1);
      PicksShape(rules, lines, i, st);
      if next.0 == Emit {
        EmitOnlyAppendable(rules, st, lines[i]);
      }
      AppendableCons(rules, lines, i, PicksFrom(rules, lines, i, st), PicksFrom(rules, lines, i + 1, next.1));
    }
  }

  /** The fold from line `i` appends nothing, the same as from line `i + 1`, or line `i`
      in front of that, and the last only when the step at `i` emits. */
  lemma PicksShape(rules: Rules, lines: seq<string>, i: nat, st: Scan)
    requires i < |lines|
    ensures var next := Step(rules, st, lines[i]);
      var ps, rest := PicksFrom(rules, lines, i, st), PicksFrom(rules, lines, i + 1, next.1);
      ps == [] || ps == rest || (ps == [i] + rest && next.0 == Emit)
  {
  }

  lemma AppendableCons(rules: Rules, lines: seq<string>, i: nat, ps: seq<nat>, rest: seq<nat>)
    requires i < |lines| && AllAppendable(rules, lines, rest)
    requires ps == [] || ps == rest || (ps == [i] + rest && Appendable(rules, lines[i]))
    ensures AllAppendable(rules, lines, ps)
  {
    if ps != [] && ps != rest {
      forall k | 0 < k < |ps|
        ensures ps[k] < |lines| && Appendable(rules, lines[ps[k]])
      {
        assert ps[k] == rest[k - 1];
      }
    }
  }

  /** Every index of `ps` lies in `[lo, hi)`. */
  predicate AllWithin(ps: seq<nat>, lo: int, hi: int) {
    forall k :: 0 <= k < |ps| ==> lo <= ps[k] < hi
  }

  /** With capture on, nothing at or after the first stop line is appended. */
  lemma {:induction false} PicksBeforeStop(rules: Rules, lines: seq<string>, i: nat, st: Scan)
    requires i <= |lines| && st.capture
    ensures AllWithin(PicksFrom(rules, lines, i, st), i, FirstFrom(lines, i, StopTest(rules)))
    decreases |lines| - i
  {
    if i < |lines| && !IsStopLine(rules, lines[i]) {
      var next := Step(rules, st, lines[i]);
      PicksBeforeStop(rules, lines, i + 1, next.1);
      var ps, rest := PicksFrom(rules, lines, i, st), PicksFrom(rules, lines, i + 1, next.1);
      var e := FirstFrom(lines, i + 1, StopTest(rules));
      assert FirstFrom(lines, i, StopTest(rules)) == e;
      PicksShape(rules, lines, i, st);
      WithinCons(i, ps, rest, e);
    }
  }

  lemma WithinCons(i: nat, ps: seq<nat>, rest: seq<nat>, e: int)
    requires i < e && AllWithin(rest, i + 1, e)
    requires ps == [] || ps == rest || ps == [i] + rest
    ensures AllWithin(ps, i, e)
  {
    if ps != [] && ps != rest {
      forall k | 0 < k < |ps|
        ensures i <= ps[k] < e
      {
        assert ps[k] == rest[k - 1];
      }
    }
  }

  /** From the line that switches capture on, nothing at or after the first stop line
      is appended. */
  lemma PicksFromColLine(rules: Rules, lines: seq<string>, i: nat, st: Scan)
    requires i < |lines| && !st.capture && IsColLine(rules, lines[i])
    ensures AllWithin(PicksFrom(rules, lines, i, st), i, FirstFrom(lines, i, StopTest(rules)))
  {
    if !IsStopLine(rules, lines[i]) {
      var next := Step(rules, st, lines[i]);
      var ps, rest := PicksFrom(rules, lines, i, st), PicksFrom(rules, lines, i + 1, next.1);
      PicksBeforeStop(rules, lines, i + 1, next.1);
      var e := FirstFrom(lines, i + 1, StopTest(rules));
      assert FirstFrom(lines, i, StopTest(rules)) == e;
      PicksShape(rules, lines, i, st);
      WithinCons(i, ps, rest, e);
    }
  }

  /** With capture off, nothing before the first `COL` line is appended, and nothing at
      or after the first stop line from there on. */
  lemma {:induction false} PicksInWindow(rules: Rules, lines: seq<string>, i: nat, st: Scan)
    requires i <= |lines| && !st.capture
    ensures var c := FirstFrom(lines, i, ColTest(rules));
      AllWithin(PicksFrom(rules, lines, i, st), c, FirstFrom(lines, c, StopTest(rules)))
    decreases |lines| - i
  {
    if i < |lines| {
      if IsColLine(rules, lines[i]) {
        PicksFromColLine(rules, lines, i, st);
      } else {
        IdleBeforeCol(rules, st, lines[i]);
        PicksInWindow(rules, lines, i + 1, st);
      }
    }
  }

  /** The captured code is a subsequence of the page's lines, in order and unmodified,
      each appendable, lying from the first `COL` line up to (not including) the first
      stop line after it; empty when the page has no `COL` line. */
  lemma RegionWithSpec(rules: Rules, lines: seq<string>)
    ensures var r := RegionWith(rules, lines);
      var ps := PicksFrom(rules, lines, 0, Start);
      var c := FirstFrom(lines, 0, ColTest(rules));
      |r| == |ps|
      && (forall k :: 0 <= k < |ps| - 1 ==> ps[k] < ps[k + 1])
      && (forall k :: 0 <= k < |ps| ==>
            r[k] == lines[ps[k]] && Appendable(rules, r[k])
            && c <= ps[k] < FirstFrom(lines, c, StopTest(rules)))
      && (c == |lines| ==> r == [])
  {
    PicksAppendable(rules, lines, 0, Start);
    PicksInWindow(rules, lines, 0, Start);
  }

  // ---------------------------------------------------------------------------
  // Which lines the capture appends

  /** The loop's state before line `j`: `Step` folded over the lines before it. */
  function StateBefore(rules: Rules, lines: seq<string>, j: nat): Scan
    requires j <= |lines|
  {
    if j == 0 then Start else Step(rules, StateBefore(rules, lines, j - 1), lines[j - 1]).1
  }

  /** What the loop does with line `m`, in the state the lines before it leave. */
  function ActionAt(rules: Rules, lines: seq<string>, m: nat): Action
    requires m < |lines|
  {
    Step(rules, StateBefore(rules, lines, m), lines[m]).0
  }

  /** No line in `[i, j)` halts the loop. */
  predicate NoHaltBetween(rules: Rules, lines: seq<string>, i: nat, j: nat) {
    j <= |lines| && forall m :: i <= m < j ==> ActionAt(rules, lines, m) != Halt
  }

  /** Up to the first `COL` line the state is the start state. */
  lemma {:induction false} IdleUntilCol(rules: Rules, lines: seq<string>, j: nat)
    requires j <= FirstFrom(lines, 0, ColTest(rules))
    ensures StateBefore(rules, lines, j) == Start
  {
    if j > 0 {
      IdleUntilCol(rules, lines, j - 1);
      assert !ColTest(rules)(lines[j - 1]);
      IdleBeforeCol(rules, Start, lines[j - 1]);
    }
  }

  /** After the first `COL` line capture is on. */
  lemma {:induction false} CaptureOnAfterCol(rules: Rules, lines: seq<string>, j: nat)
    requires FirstFrom(lines, 0, ColTest(rules)) < j <= |lines|
    ensures StateBefore(rules, lines, j).capture
  {
    var c := FirstFrom(lines, 0, ColTest(rules));
    CaptureFlag(rules, StateBefore(rules, lines, j - 1), lines[j - 1]);
    if j - 1 == c {
      assert ColTest(rules)(lines[c]);
    } else {
      CaptureOnAfterCol(rules, lines, j - 1);
    }
  }

  /** Line `j` is among the lines the fold appends from line `i` on. */
  predicate Picked(rules: Rules, lines: seq<string>, i: nat, j: nat)
    requires i <= |lines|
  {
    j in PicksFrom(rules, lines, i, StateBefore(rules, lines, i))
  }

  /** The fold from line `i` appends that line exactly when the loop emits it. */
  lemma PicksHead(rules: Rules, lines: seq<string>, i: nat)
    requires i < |lines|
    ensures Picked(rules, lines, i, i) <==> ActionAt(rules, lines, i) == Emit
  {
    var rest := PicksFrom(rules, lines, i + 1, StateBefore(rules, lines, i + 1));
    assert forall k :: 0 <= k < |rest| ==> rest[k] != i;
  }

  /** Past a line that does not halt, a later line is appended from line `i` exactly
      when it is appended from line `i + 1`. */
  lemma PicksLater(rules: Rules, lines: seq<string>, i: nat, j: nat)
    requires i < j < |lines| && NoHaltBetween(rules, lines, 0, j)
    ensures Picked(rules, lines, i, j) <==> Picked(rules, lines, i + 1, j)
  {
    assert ActionAt(rules, lines, i) != Halt;
    var ps := PicksFrom(rules, lines, i, StateBefore(rules, lines, i));
    var rest := PicksFrom(rules, lines, i + 1, StateBefore(rules, lines, i + 1));
    assert ps == rest || ps == [i] + rest;
  }

  /** Without a halt before line `j`, the fold from line `i` appends line `j` exactly
      when the step at `j` emits. */
  lemma {:induction false} PicksMember(rules: Rules, lines: seq<string>, i: nat, j: nat)
    requires i <= j < |lines| && NoHaltBetween(rules, lines, 0, j)
    ensures Picked(rules, lines, i, j) <==> ActionAt(rules, lines, j) == Emit
    decreases j - i
  {
    if i == j {
      PicksHead(rules, lines, i);
    } else {
      PicksMember(rules, lines, i + 1, j);
      PicksBack(rules, lines, i, j);
    }
  }

  /** One induction step of `PicksMember`: what holds from line `i + 1` holds from line `i`. */
  lemma PicksBack(rules: Rules, lines: seq<string>, i: nat, j: nat)
    requires i < j < |lines| && NoHaltBetween(rules, lines, 0, j)
    requires Picked(rules, lines, i + 1, j) <==> ActionAt(rules, lines, j) == Emit
    ensures Picked(rules, lines, i, j) <==> ActionAt(rules, lines, j) == Emit
  {
    PicksLater(rules, lines, i, j);
  }

  /** No line before the first stop line after the `COL` line halts the loop. */
  lemma NoHaltInWindow(rules: Rules, lines: seq<string>, j: nat)
    requires var c := FirstFrom(lines, 0, ColTest(rules));
      j <= FirstFrom(lines, c, StopTest(rules))
    ensures NoHaltBetween(rules, lines, 0, j)
  {
    var c := FirstFrom(lines, 0, ColTest(rules));
    forall m | 0 <= m < j
      ensures ActionAt(rules, lines, m) != Halt
    {
      if m < c {
        IdleUntilCol(rules, lines, m);
        assert !ColTest(rules)(lines[m]);
        IdleBeforeCol(rules, Start, lines[m]);
      } else {
        assert !StopTest(rules)(lines[m]);
        if m == c {
          assert ColTest(rules)(lines[m]);
        } else {
          CaptureOnAfterCol(rules, lines, m);
        }
        StopLineHalts(rules, StateBefore(rules, lines, m), lines[m]);
      }
    }
  }

  /** The capture appends line `j` exactly when it lies between the first `COL` line and
      the first stop line after it, no dropped function is open when it is read, and it
      is appendable. */
  lemma CaptureIff(rules: Rules, lines: seq<string>, j: nat)
    requires j < |lines|
    ensures var c := FirstFrom(lines, 0, ColTest(rules));
      j in PicksFrom(rules, lines, 0, Start)
      <==> (c <= j < FirstFrom(lines, c, StopTest(rules))
        && !StateBefore(rules, lines, j).skipping && Appendable(rules, lines[j]))
  {
    var c := FirstFrom(lines, 0, ColTest(rules));
    var e := FirstFrom(lines, c, StopTest(rules));
    var ps := PicksFrom(rules, lines, 0, Start);
    PicksInWindow(rules, lines, 0, Start);
    if c <= j < e {
      NoHaltInWindow(rules, lines, j);
      PicksMember(rules, lines, 0, j);
      assert !StopTest(rules)(lines[j]);
      if j == c {
        assert ColTest(rules)(lines[j]);
      } else {
        CaptureOnAfterCol(rules, lines, j);
      }
      EmitIff(rules, StateBefore(rules, lines, j), lines[j]);
    }
  }
}
