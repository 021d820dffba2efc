/** The two chart libraries inlined in the second page's head: the text before the
    first `<style>`, its `<script>` blocks, and the last block of each kind. */
module HeadScripts {
  import opened PyText

  /** `sep` cannot overlap a later copy of itself from the right: its first character
      occurs nowhere else in it. */
  predicate NoBorder(sep: string) {
    sep != [] && forall i :: 1 <= i < |sep| ==> sep[i] != sep[0]
  }

  /** `text.split(sep)[0]`: everything before the first `sep`, or all of `text`. */
  function Before(text: string, sep: string): (r: string)
    requires sep != []
  {
    text[..FindFrom(text, sep, 0)]
  }

  /** What `split` keeps is a prefix of the text without `sep` in it, and the text
      continues with `sep` when it is shorter. */
  lemma BeforeSpec(text: string, sep: string)
    requires sep != []
    ensures var r := Before(text, sep);
      r <= text && !Contains(r, sep) && (|r| < |text| ==> OccursAt(text, sep, |r|))
  {
    var r := Before(text, sep);
    forall j | 0 <= j <= |r| - |sep|
      ensures !OccursAt(r, sep, j)
    {
      assert text[j..j + |sep|] == r[j..j + |sep|];
      assert !OccursAt(text, sep, j);
    }
  }

  /** An occurrence of a border-free `sep` right at `m` rules out every occurrence
      that starts before `m` and runs into it. */
  lemma NoStraddle(text: string, sep: string, m: int, j: int)
    requires NoBorder(sep) && OccursAt(text, sep, m)
    requires j < m < j + |sep|
    ensures !OccursAt(text, sep, j)
  {
    assert text[m] == text[m..m + |sep|][0] == sep[0];
    if 0 <= j && j + |sep| <= |text| {
      assert text[j..j + |sep|][m - j] == text[m];
    }
  }

  /** An occurrence lying wholly inside a stretch without `sep` is ruled out. */
  lemma NotBeforeEnd(x: string, sep: string, rest: string, from: nat, j: int)
    requires from <= j && j + |sep| <= |x| && !Contains(x[from..], sep)
    ensures !OccursAt(x + sep + rest, sep, j)
  {
    AbsentAt(x[from..], sep, j - from);
    OccursInSuffix(x, sep, from, j);
    OccursInFront(x, sep, sep, j);
    OccursInFront(x + sep, rest, sep, j);
  }

  /** The first `sep` after a stretch without one is the one that ends the stretch. */
  lemma FirstAfter(x: string, sep: string, rest: string, from: nat)
    requires NoBorder(sep) && from <= |x| && !Contains(x[from..], sep)
    ensures FindFrom(x + sep + rest, sep, from) == |x|
  {
    var text := x + sep + rest;
    assert text[|x|..|x| + |sep|] == sep;
    forall j | from <= j < |x|
      ensures !OccursAt(text, sep, j)
    {
      if j + |sep| <= |x| {
        NotBeforeEnd(x, sep, rest, from, j);
      } else {
        NoStraddle(text, sep, |x|, j);
      }
    }
    FindFirst(text, sep, from, |x|);
  }

  /** Splitting off what follows the first border-free `sep` gives back the part before. */
  lemma BeforeRoundTrip(x: string, sep: string, rest: string)
    requires NoBorder(sep) && !Contains(x, sep)
    ensures Before(x + sep + rest, sep) == x
  {
    assert x[0..] == x;
    FirstAfter(x, sep, rest, 0);
    assert (x + sep + rest)[..|x|] == x;
  }

  /** `re.findall(open + "(.*?)" + close, s, re.DOTALL)`: from the first `open`, the
      shortest stretch up to a `close`; the search resumes after that `close`, and
      stops when an `open` has no `close` after it. The match is non-greedy: no block
      contains the closing tag. */
  function BlocksBetween(s: string, open: string, close: string): (r: seq<string>)
    requires open != [] && close != []
    ensures NoneContains(r, close)
    decreases |s|
  {
    if !HasBlock(s, open, close) then []
    else
      BlockBounds(s, open, close);
      FirstBlockFree(s, close, OpenAt(s, open) + |open|, BlocksBetween(s[CloseAt(s, open, close) + |close|..], open, close));
      [s[OpenAt(s, open) + |open|..CloseAt(s, open, close)]] + BlocksBetween(s[CloseAt(s, open, close) + |close|..], open, close)
  }

  /** The first block lies after the first `open`, and its `close` ends within `s`. */
  lemma BlockBounds(s: string, open: string, close: string)
    requires open != [] && close != [] && HasBlock(s, open, close)
    ensures OpenAt(s, open) + |open| <= CloseAt(s, open, close)
    ensures CloseAt(s, open, close) + |close| <= |s|
  {
  }

  /** Where the first `open` is, or `|s|`. */
  function OpenAt(s: string, open: string): nat
    requires open != []
  {
    FindFrom(s, open, 0)
  }

  /** There is an `open` with a `close` after it. */
  predicate HasBlock(s: string, open: string, close: string)
    requires open != [] && close != []
  {
    OpenAt(s, open) < |s| && FindFrom(s, close, OpenAt(s, open) + |open|) < |s|
  }

  /** Where the first block ends: the first `close` after the first `open`. */
  function CloseAt(s: string, open: string, close: string): nat
    requires open != [] && close != [] && HasBlock(s, open, close)
  {
    FindFrom(s, close, OpenAt(s, open) + |open|)
  }

  /** No string of `bs` contains `p`. */
  predicate NoneContains(bs: seq<string>, p: string) {
    forall k :: 0 <= k < |bs| ==> !Contains(bs[k], p)
  }

  /** The stretch up to the first `close` has no `close` in it. */
  lemma UpToFirst(s: string, close: string, from: nat)
    requires close != [] && from <= |s|
    ensures !Contains(s[from..FindFrom(s, close, from)], close)
  {
    var b := FindFrom(s, close, from);
    var blk := s[from..b];
    forall j | 0 <= j <= |blk| - |close|
      ensures !OccursAt(blk, close, j)
    {
      assert OccursAt(blk, close, j) ==> OccursAt(s, close, from + j) by {
        assert s[from + j..from + j + |close|] == blk[j..j + |close|];
      }
    }
  }

  /** The stretch up to the first `close`, put in front of blocks without `close`. */
  lemma FirstBlockFree(s: string, close: string, from: nat, tail: seq<string>)
    requires close != [] && from <= |s| && NoneContains(tail, close)
    ensures NoneContains([s[from..FindFrom(s, close, from)]] + tail, close)
  {
    UpToFirst(s, close, from);
    NoneContainsCons(s[from..FindFrom(s, close, from)], tail, close);
  }

  lemma NoneContainsCons(b: string, bs: seq<string>, p: string)
    requires !Contains(b, p) && NoneContains(bs, p)
    ensures NoneContains([b] + bs, p)
  {
    forall k | 1 <= k < |bs| + 1
      ensures !Contains(([b] + bs)[k], p)
    {
      assert ([b] + bs)[k] == bs[k - 1];
    }
  }

  /** One step of the search: the first block heads the list. */
  lemma BlocksCons(s: string, open: string, close: string)
    requires open != [] && close != [] && HasBlock(s, open, close)
    ensures BlocksBetween(s, open, close)
      == [s[OpenAt(s, open) + |open|..CloseAt(s, open, close)]] + BlocksBetween(s[CloseAt(s, open, close) + |close|..], open, close)
  {
  }

  /** The blocks `bs` written out, each between `open` and `close`. */
  function Wrap(bs: seq<string>, open: string, close: string): string {
    if bs == [] then [] else open + bs[0] + close + Wrap(bs[1..], open, close)
  }

  /** A run of blocks is its first block written out, then the rest of the run. */
  lemma WrapShape(bs: seq<string>, open: string, close: string)
    requires bs != []
    ensures var s := Wrap(bs, open, close);
      s == (open + bs[0]) + close + Wrap(bs[1..], open, close)
      && s[..|open|] == open
      && s[|open|..|open| + |bs[0]|] == bs[0]
      && s[|open| + |bs[0]| + |close|..] == Wrap(bs[1..], open, close)
  {
    var s := Wrap(bs, open, close);
    assert s[|open|..|open| + |bs[0]|] == (open + bs[0])[|open|..];
  }

  /** A run of blocks opens at 0 and its first block ends at the first `close`. */
  lemma WrapFirst(bs: seq<string>, open: string, close: string)
    requires bs != [] && open != [] && NoBorder(close) && !Contains(bs[0], close)
    ensures var s := Wrap(bs, open, close);
      HasBlock(s, open, close) && OpenAt(s, open) == 0 && CloseAt(s, open, close) == |open| + |bs[0]|
  {
    var s := Wrap(bs, open, close);
    WrapShape(bs, open, close);
    assert FindFrom(s, open, 0) == 0 by {
      FindFirst(s, open, 0, 0);
    }
    assert FindFrom(s, close, |open|) == |open| + |bs[0]| by {
      assert (open + bs[0])[|open|..] == bs[0];
      FirstAfter(open + bs[0], close, Wrap(bs[1..], open, close), |open|);
    }
  }

  /** Extracting the blocks of a page written as a run of blocks gives them back,
      provided no block contains the closing tag. */
  lemma {:induction false} BlocksRoundTrip(bs: seq<string>, open: string, close: string)
    requires open != [] && NoBorder(close) && NoneContains(bs, close)
    ensures BlocksBetween(Wrap(bs, open, close), open, close) == bs
  {
    if bs != [] {
      NoneContainsTail(bs, close);
      BlocksRoundTrip(bs[1..], open, close);
      RoundTripStep(bs, open, close);
    }
  }

  /** The blocks after the first keep the property. */
  lemma NoneContainsTail(bs: seq<string>, p: string)
    requires bs != [] && NoneContains(bs, p)
    ensures !Contains(bs[0], p) && NoneContains(bs[1..], p)
  {
    forall k | 0 <= k < |bs| - 1
      ensures !Contains(bs[1..][k], p)
    {
      assert bs[1..][k] == bs[k + 1];
    }
  }

  /** Reading the first block of a run and then the rest. */
  lemma RoundTripStep(bs: seq<string>, open: string, close: string)
    requires bs != [] && open != [] && NoBorder(close) && !Contains(bs[0], close)
    requires BlocksBetween(Wrap(bs[1..], open, close), open, close) == bs[1..]
    ensures BlocksBetween(Wrap(bs, open, close), open, close) == bs
  {
    var s := Wrap(bs, open, close);
    var c := |open| + |bs[0]|;
    WrapFirst(bs, open, close);
    WrapRest(bs, open, close);
    BlocksAfterFirst(s, open, close, c);
    ConsRebuild(bs, BlocksBetween(s, open, close), s[|open|..c], BlocksBetween(s[c + |close|..], open, close));
  }

  /** `BlocksCons` for a first block that opens at 0 and closes at `c`. */
  lemma BlocksAfterFirst(s: string, open: string, close: string, c: nat)
    requires open != [] && close != [] && HasBlock(s, open, close)
    requires OpenAt(s, open) == 0 && CloseAt(s, open, close) == c
    ensures |open| <= c && c + |close| <= |s|
    ensures BlocksBetween(s, open, close) == [s[|open|..c]] + BlocksBetween(s[c + |close|..], open, close)
  {
    BlockBounds(s, open, close);
    BlocksCons(s, open, close);
  }

  lemma ConsRebuild(bs: seq<string>, r: seq<string>, first: string, later: seq<string>)
    requires bs != [] && r == [first] + later && first == bs[0] && later == bs[1..]
    ensures r == bs
  {
    assert bs == [bs[0]] + bs[1..];
  }

  /** The first block and what follows it, as slices of a run of blocks. */
  lemma WrapRest(bs: seq<string>, open: string, close: string)
    requires bs != []
    ensures var s := Wrap(bs, open, close);
      s[|open|..|open| + |bs[0]|] == bs[0]
      && s[|open| + |bs[0]| + |close|..] == Wrap(bs[1..], open, close)
  {
    WrapShape(bs, open, close);
  }

  /** `gv_text.split("<style>")[0]`. */
  function HeadSection(text: string): string {
    Before(text, "<style>")
  }

  /** The `<script>` blocks of the head section. */
  function ScriptBlocks(head: string): seq<string> {
    BlocksBetween(head, "<script>", "</script>")
  }

  lemma ScriptTagsBorderFree()
    ensures NoBorder("<style>") && NoBorder("</script>")
  {
  }

  /** The two libraries looked for, and everything else. */
  datatype Library = HighchartsCore | SankeyModule | Other

  /** The tests of the classification loop, as data: the core library's name and the
      span it must appear in, the module's name that, in any case, rules the core out
      within that span, and the module's spellings and the span they must appear in. */
  datatype Markers = Markers(core: string, coreSpan: nat, moduleLower: string, moduleNames: seq<string>, moduleSpan: nat)

  /** `Highcharts` in the first 200 characters with no `sankey` in any case there, else
      `Sankey` or `sankey` in the first 300. */
  const HeadMarkers := Markers("Highcharts", 200, "sankey", ["Sankey", "sankey"], 300)

  /** The if/elif of the classification loop, on a stripped block. */
  function Classify(m: Markers, t: string): Library {
    if Contains(Take(t, m.coreSpan), m.core) && !Contains(Lower(Take(t, m.coreSpan)), m.moduleLower) then HighchartsCore
    else if ContainsAny(Take(t, m.moduleSpan), m.moduleNames) then SankeyModule
    else Other
  }

  /** The markers name something: none of the searched names is empty. */
  predicate NonEmptyNames(m: Markers) {
    m.core != [] && forall i :: 0 <= i < |m.moduleNames| ==> m.moduleNames[i] != []
  }

  lemma HeadMarkersNonEmpty()
    ensures NonEmptyNames(HeadMarkers)
  {
  }

  lemma {:induction false} ContainsAnyEmpty(ps: seq<string>)
    requires forall i :: 0 <= i < |ps| ==> ps[i] != []
    ensures !ContainsAny([], ps)
    decreases |ps|
  {
    if ps != [] {
      assert !OccursAt([], ps[0], 0);
      ContainsAnyEmpty(ps[1..]);
    }
  }

  /** An empty block is neither library. */
  lemma ClassifyEmpty(m: Markers)
    requires NonEmptyNames(m)
    ensures Classify(m, "") == Other
  {
    assert Take("", m.coreSpan) == [] && Take("", m.moduleSpan) == [];
    assert !OccursAt([], m.core, 0);
    ContainsAnyEmpty(m.moduleNames);
  }

  /** The kind of a block, after stripping. */
  predicate OfKind(m: Markers, b: string, k: Library) {
    Classify(m, Strip(b)) == k
  }

  function KindTest(m: Markers, k: Library): string -> bool {
    b => OfKind(m, b, k)
  }

  /** The stripped text of the last block that passes `test`, or `""`. */
  function LastWhere(bs: seq<string>, test: string -> bool): string {
    if bs == [] then ""
    else if test(bs[|bs| - 1]) then Strip(bs[|bs| - 1])
    else LastWhere(bs[..|bs| - 1], test)
  }

  /** `bs[i]` is the last block that passes `test`. */
  predicate LastAt(bs: seq<string>, test: string -> bool, i: int) {
    0 <= i < |bs| && test(bs[i]) && forall j :: i < j < |bs| ==> !test(bs[j])
  }

  /** No block passes `test`. */
  predicate NoneWhere(bs: seq<string>, test: string -> bool) {
    forall i :: 0 <= i < |bs| ==> !test(bs[i])
  }

  /** Every block that passes `test` is non-blank. */
  predicate PassersNonBlank(bs: seq<string>, test: string -> bool) {
    forall i :: 0 <= i < |bs| ==> test(bs[i]) ==> Strip(bs[i]) != ""
  }

  /** Last wins: the result is the stripped text of the last block that passes, and
      `""` exactly when none does. */
  lemma {:induction false} LastWhereSpec(bs: seq<string>, test: string -> bool)
    requires PassersNonBlank(bs, test)
    ensures var r := LastWhere(bs, test);
      (r == "" <==> NoneWhere(bs, test))
      && (r != "" ==> exists i :: LastAt(bs, test, i) && r == Strip(bs[i]))
  {
    if bs != [] {
      var n := |bs| - 1;
      if test(bs[n]) {
        assert LastAt(bs, test, n);
      } else {
        InitOf(bs, test);
        LastWhereSpec(bs[..n], test);
        var r := LastWhere(bs[..n], test);
        if r != "" {
          var i :| LastAt(bs[..n], test, i) && r == Strip(bs[..n][i]);
          LastAtInit(bs, test, i);
        }
      }
    }
  }

  /** Dropping a last block that fails `test` keeps the blocks that pass. */
  lemma InitOf(bs: seq<string>, test: string -> bool)
    requires bs != [] && !test(bs[|bs| - 1]) && PassersNonBlank(bs, test)
    ensures PassersNonBlank(bs[..|bs| - 1], test)
    ensures NoneWhere(bs, test) <==> NoneWhere(bs[..|bs| - 1], test)
  {
    assert forall i :: 0 <= i < |bs| - 1 ==> bs[..|bs| - 1][i] == bs[i];
  }

  /** The last passer before a failing last block is the last passer of all. */
  lemma LastAtInit(bs: seq<string>, test: string -> bool, i: int)
    requires bs != [] && !test(bs[|bs| - 1]) && LastAt(bs[..|bs| - 1], test, i)
    ensures LastAt(bs, test, i) && bs[..|bs| - 1][i] == bs[i]
  {
    assert forall j :: i < j < |bs| - 1 ==> bs[..|bs| - 1][j] == bs[j];
  }

  /** The stripped text of the last block of kind `k`, or `""`. */
  function LastOfKind(m: Markers, bs: seq<string>, k: Library): string {
    LastWhere(bs, KindTest(m, k))
  }

  /** For either library the result is the stripped text of the last block of that
      kind, and `""` exactly when there is none. */
  lemma LastOfKindSpec(m: Markers, bs: seq<string>, k: Library)
    requires k != Other && NonEmptyNames(m)
    ensures var r := LastOfKind(m, bs, k);
      (r == "" <==> NoneWhere(bs, KindTest(m, k)))
      && (r != "" ==> exists i :: LastAt(bs, KindTest(m, k), i) && r == Strip(bs[i]))
  {
    ClassifyEmpty(m);
    LastWhereSpec(bs, KindTest(m, k));
  }

  /** One more block: it wins when it is of the kind, else the earlier answer stands. */
  lemma LastOfKindSnoc(m: Markers, bs: seq<string>, b: string, k: Library)
    ensures LastOfKind(m, bs + [b], k) == if OfKind(m, b, k) then Strip(b) else LastOfKind(m, bs, k)
  {
    assert (bs + [b])[..|bs|] == bs;
  }

  /** One pass of the classification loop: the block's kind decides which answer it
      replaces. */
  lemma LibrariesStep(blocks: seq<string>, i: nat, kind: Library)
    requires i < |blocks| && kind == Classify(HeadMarkers, Strip(blocks[i]))
    ensures LastOfKind(HeadMarkers, blocks[..i + 1], HighchartsCore)
      == if kind == HighchartsCore then Strip(blocks[i]) else LastOfKind(HeadMarkers, blocks[..i], HighchartsCore)
    ensures LastOfKind(HeadMarkers, blocks[..i + 1], SankeyModule)
      == if kind == SankeyModule then Strip(blocks[i]) else LastOfKind(HeadMarkers, blocks[..i], SankeyModule)
  {
    assert blocks[..i + 1] == blocks[..i] + [blocks[i]];
    LastOfKindSnoc(HeadMarkers, blocks[..i], blocks[i], HighchartsCore);
    LastOfKindSnoc(HeadMarkers, blocks[..i], blocks[i], SankeyModule);
  }

  /** The classification loop: every block of the head is stripped and classified; a
      later block of the same kind replaces an earlier one. */
  method HeadLibraries(text: string) returns (highcharts: string, sankey: string)
    ensures var bs := ScriptBlocks(HeadSection(text));
      highcharts == LastOfKind(HeadMarkers, bs, HighchartsCore)
      && sankey == LastOfKind(HeadMarkers, bs, SankeyModule)
  {
    var blocks := ScriptBlocks(HeadSection(text));
    highcharts, sankey := "", "";
    var i := 0;
    while i < |blocks|
      invariant 0 <= i <= |blocks|
      invariant highcharts == LastOfKind(HeadMarkers, blocks[..i], HighchartsCore)
      invariant sankey == LastOfKind(HeadMarkers, blocks[..i], SankeyModule)
    {
      var stripped := Strip(blocks[i]);
      var kind := Classify(HeadMarkers, stripped);
      LibrariesStep(blocks, i, kind);
      if kind == HighchartsCore {
        highcharts := stripped;
      } else if kind == SankeyModule {
        sankey := stripped;
      }
      i := i + 1;
    }
    assert blocks[..i] == blocks;
  }
}
