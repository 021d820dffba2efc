/** The tile-map path table from the first page: `re.search(r"const T=(\{[^;]+\});")`
    with group 1, or `"{}"` when nothing matches. */
module TileMap {
  import opened PyText
  import opened Wrappers

  /** The text in front of the captured group. */
  const TileLead := "const T="

  /** A group the pattern `\{[^;]+\}` accepts: `{`, at least one character other than
      `;`, then `}`. */
  predicate TileBody(g: string) {
    |g| >= 3 && g[0] == '{' && g[|g| - 1] == '}' && forall i :: 0 <= i < |g| ==> g[i] != ';'
  }

  /** The pattern matches at `p` with group `g`. */
  predicate MatchesAt(text: string, lead: string, p: int, g: string) {
    TileBody(g) && OccursAt(text, lead + g + ";", p)
  }

  /** The pattern tried at `p`: after `lead` and `{`, the greedy `[^;]+` runs up to the
      first `;`; backtracking can only give characters back, so the match exists
      exactly when that `;` is there, the character before it is `}`, and at least
      one character lies between the braces. */
  function GroupAt(text: string, lead: string, p: nat): Option<string>
    requires p <= |text|
  {
    var o := p + |lead|;
    if OccursAt(text, lead, p) && o < |text| && text[o] == '{' then
      var q := FindFrom(text, ";", o + 1);
      if q < |text| && q >= o + 3 && text[q - 1] == '}' then Some(text[o..q]) else None
    else None
  }

  /** An occurrence of `a + b` is an occurrence of `a` followed by one of `b`. */
  lemma OccursConcat(text: string, a: string, b: string, p: int)
    ensures OccursAt(text, a + b, p) <==> OccursAt(text, a, p) && OccursAt(text, b, p + |a|)
  {
    if OccursAt(text, a, p) && OccursAt(text, b, p + |a|) {
      assert text[p..p + |a + b|] == text[p..p + |a|] + text[p + |a|..p + |a| + |b|];
    }
    if OccursAt(text, a + b, p) {
      assert text[p..p + |a|] == (a + b)[..|a|];
      assert text[p + |a|..p + |a| + |b|] == (a + b)[|a|..];
    }
  }

  /** A one-character pattern occurs where that character is. */
  lemma OccursChar(text: string, c: char, j: int)
    ensures OccursAt(text, [c], j) <==> 0 <= j < |text| && text[j] == c
  {
    if 0 <= j < |text| {
      assert text[j..j + 1] == [text[j]];
    }
  }

  /** Every group `GroupAt` returns is a match of the pattern at `p`. */
  lemma GroupAtSound(text: string, lead: string, p: nat)
    requires p <= |text| && GroupAt(text, lead, p).Some?
    ensures MatchesAt(text, lead, p, GroupAt(text, lead, p).value)
  {
    var o := p + |lead|;
    var q := FindFrom(text, ";", o + 1);
    var g := text[o..q];
    forall j | o + 1 <= j < q
      ensures text[j] != ';'
    {
      OccursChar(text, ';', j);
    }
    assert forall i :: 0 <= i < |g| ==> g[i] == text[o + i];
    OccursChar(text, ';', q);
    OccursConcat(text, lead, g, p);
    OccursConcat(text, lead + g, ";", p);
  }

  /** A match at `p` is the only one there: `GroupAt` finds every group the pattern
      accepts at `p`. */
  lemma GroupAtComplete(text: string, lead: string, p: nat, g: string)
    requires p <= |text| && MatchesAt(text, lead, p, g)
    ensures GroupAt(text, lead, p) == Some(g)
  {
    var o := p + |lead|;
    var q := o + |g|;
    OccursConcat(text, lead + g, ";", p);
    OccursConcat(text, lead, g, p);
    OccursChar(text, ';', q);
    assert text[o..q] == g;
    forall j | o + 1 <= j < q
      ensures !OccursAt(text, ";", j)
    {
      OccursChar(text, ';', j);
      assert text[j] == g[j - o];
    }
    FindFirst(text, ";", o + 1, q);
  }

  /** No match starts in `[p, j)`. */
  ghost predicate NoMatchBetween(text: string, lead: string, p: int, j: int) {
    forall i, h :: p <= i < j ==> !MatchesAt(text, lead, i, h)
  }

  /** The leftmost match at or after `p` starts at `j` and has group `g`. */
  ghost predicate LeftmostAt(text: string, lead: string, p: int, j: int, g: string) {
    p <= j <= |text| && MatchesAt(text, lead, j, g) && NoMatchBetween(text, lead, p, j)
  }

  /** The leftmost match at or after `p`. */
  function Search(text: string, lead: string, p: nat): (r: Option<string>)
    requires p <= |text|
    decreases |text| - p
  {
    match GroupAt(text, lead, p)
    case Some(g) => Some(g)
    case None => if p == |text| then None else Search(text, lead, p + 1)
  }

  /** `Search` returns the group of the leftmost match, or `None` when there is none. */
  lemma {:induction false} SearchSpec(text: string, lead: string, p: nat)
    requires p <= |text|
    ensures var r := Search(text, lead, p);
      (r.None? <==> NoMatchBetween(text, lead, p, |text| + 1))
      && (r.Some? ==> exists j :: LeftmostAt(text, lead, p, j, r.value))
    decreases |text| - p
  {
    match GroupAt(text, lead, p)
    case Some(g) =>
      GroupAtSound(text, lead, p);
      assert LeftmostAt(text, lead, p, p, g);
    case None =>
      forall g
        ensures !MatchesAt(text, lead, p, g)
      {
        if MatchesAt(text, lead, p, g) {
          GroupAtComplete(text, lead, p, g);
        }
      }
      if p < |text| {
        SearchSpec(text, lead, p + 1);
        var r := Search(text, lead, p + 1);
        if r.Some? {
          var j :| LeftmostAt(text, lead, p + 1, j, r.value);
          assert LeftmostAt(text, lead, p, j, r.value);
        }
      }
  }

  /** `tile_paths`: the first group, or `"{}"`. */
  function TilePaths(text: string): string {
    match Search(text, TileLead, 0)
    case Some(g) => g
    case None => "{}"
  }

  /** The result is `"{}"` exactly when the pattern matches nowhere; otherwise it is the
      group of the leftmost match, which starts with `{`, ends with `}` and holds no `;`. */
  lemma TilePathsSpec(text: string)
    ensures var r := TilePaths(text);
      (r == "{}" <==> NoMatchBetween(text, TileLead, 0, |text| + 1))
      && (r != "{}" ==> exists j :: LeftmostAt(text, TileLead, 0, j, r))
  {
    SearchSpec(text, TileLead, 0);
  }

  /** A page that starts with the table gives that table back, whatever follows it. */
  lemma TilePathsRoundTrip(g: string, rest: string)
    requires TileBody(g)
    ensures TilePaths(TileLead + g + ";" + rest) == g
  {
    var text := TileLead + g + ";" + rest;
    assert text[0..|TileLead + g + ";"|] == TileLead + g + ";";
    GroupAtComplete(text, TileLead, 0, g);
    assert Search(text, TileLead, 0) == Some(g);
  }
}
