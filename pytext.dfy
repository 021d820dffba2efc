/** The Python `str` builtins the build script relies on, over `string` (= `seq<char>`):
    `strip`, `startswith`, `in`, `count` of one character, ASCII `lower` and the
    slice `s[:n]`, and the forward search the regular-expression matchers scan with. */
module PyText {

  /** Python's `str.isspace()` for one character: the ASCII controls TAB..CR, the
      separators 0x1C..0x1F, SPACE, NEL, NBSP and the Unicode space separators. */
  predicate IsSpace(c: char) {
    c == ' ' || ('\U{9}' <= c <= '\U{d}') || ('\U{1c}' <= c <= '\U{1f}')
    || c == '\U{85}' || c == '\U{a0}' || c == '\U{1680}' || ('\U{2000}' <= c <= '\U{200a}')
    || c == '\U{2028}' || c == '\U{2029}' || c == '\U{202f}' || c == '\U{205f}' || c == '\U{3000}'
  }

  predicate AllSpace(s: string) {
    forall i :: 0 <= i < |s| ==> IsSpace(s[i])
  }

  /** `s.lstrip()`. */
  function LStrip(s: string): (r: string)
    ensures |r| <= |s|
  {
    if |s| > 0 && IsSpace(s[0]) then LStrip(s[1..]) else s
  }

  /** `s.rstrip()`. */
  function RStrip(s: string): (r: string)
    ensures |r| <= |s|
  {
    if |s| > 0 && IsSpace(s[|s| - 1]) then RStrip(s[..|s| - 1]) else s
  }

  /** `lstrip` keeps a suffix: what it removes is whitespace, and what it keeps does
      not start with whitespace. */
  lemma {:induction false} LStripSpec(s: string)
    ensures var r := LStrip(s);
      r == s[|s| - |r|..] && AllSpace(s[..|s| - |r|]) && (r == [] || !IsSpace(r[0]))
  {
    if |s| > 0 && IsSpace(s[0]) {
      LStripSpec(s[1..]);
      var r := LStrip(s);
      assert s[..|s| - |r|] == [s[0]] + s[1..][..|s| - 1 - |r|];
    }
  }

  /** `rstrip` keeps a prefix: what it removes is whitespace, and what it keeps does
      not end with whitespace. */
  lemma {:induction false} RStripSpec(s: string)
    ensures var r := RStrip(s);
      r == s[..|r|] && AllSpace(s[|r|..]) && (r == [] || !IsSpace(r[|r| - 1]))
  {
    if |s| > 0 && IsSpace(s[|s| - 1]) {
      RStripSpec(s[..|s| - 1]);
      var r := RStrip(s);
      assert s[|r|..] == s[..|s| - 1][|r|..] + [s[|s| - 1]];
    }
  }

  /** `r` is `s` with the whitespace run `s[..a]` before it and only whitespace after it. */
  predicate PaddedAt(s: string, r: string, a: int) {
    0 <= a && a + |r| <= |s| && s[a..a + |r|] == r && AllSpace(s[..a]) && AllSpace(s[a + |r|..])
  }

  /** `s.strip()`. */
  function Strip(s: string): (r: string)
    ensures |r| <= |s|
  {
    RStrip(LStrip(s))
  }

  /** What `strip` keeps is an infix of `s` with only whitespace around it, and it
      neither starts nor ends with whitespace; these facts determine the result. */
  lemma StripSpec(s: string)
    ensures var r := Strip(s); r == [] || (!IsSpace(r[0]) && !IsSpace(r[|r| - 1]))
    ensures exists a | 0 <= a <= |s| :: PaddedAt(s, Strip(s), a)
  {
    var l := LStrip(s);
    var r := RStrip(l);
    LStripSpec(s);
    RStripSpec(l);
    var a := |s| - |l|;
    assert r == Strip(s);
    assert s[a..a + |r|] == r;
    assert s[a + |r|..] == l[|r|..];
    assert PaddedAt(s, r, a);
  }

  /** `s.startswith(p)`. */
  predicate StartsWith(s: string, p: string) {
    |p| <= |s| && s[..|p|] == p
  }

  /** `p` occurs in `s` at index `i`. */
  predicate OccursAt(s: string, p: string, i: int) {
    0 <= i && i + |p| <= |s| && s[i..i + |p|] == p
  }

  /** `p in s`, scanning left to right. */
  function Contains(s: string, p: string): (b: bool)
    ensures b <==> exists i | 0 <= i <= |s| - |p| :: OccursAt(s, p, i)
    decreases |s|
  {
    if StartsWith(s, p) then
      assert OccursAt(s, p, 0);
      true
    else if s == [] then false
    else
      var b := Contains(s[1..], p);
      if b then
        var i :| 0 <= i <= |s| - 1 - |p| && OccursAt(s[1..], p, i);
        assert OccursAt(s, p, i + 1);
        true
      else
        assert forall i | 1 <= i <= |s| - |p| :: OccursAt(s, p, i) ==> OccursAt(s[1..], p, i - 1);
        false
  }

  /** Text that does not contain `p` has no occurrence of it anywhere. */
  lemma AbsentAt(s: string, p: string, i: int)
    requires !Contains(s, p)
    ensures !OccursAt(s, p, i)
  {
  }

  /** An occurrence ending inside the front part of a text is one of the front part. */
  lemma OccursInFront(a: string, b: string, p: string, i: int)
    requires 0 <= i && i + |p| <= |a|
    ensures OccursAt(a + b, p, i) <==> OccursAt(a, p, i)
  {
    assert (a + b)[i..i + |p|] == a[i..i + |p|];
  }

  /** An occurrence at or after `from` is one of the suffix from `from`. */
  lemma OccursInSuffix(s: string, p: string, from: int, j: int)
    requires 0 <= from <= j && from <= |s|
    ensures OccursAt(s, p, j) <==> OccursAt(s[from..], p, j - from)
  {
    if j + |p| <= |s| {
      assert s[j..j + |p|] == s[from..][j - from..j - from + |p|];
    }
  }

  /** `t` starts with one of `ps`. */
  predicate StartsWithAny(t: string, ps: seq<string>)
    decreases |ps|
  {
    ps != [] && (StartsWith(t, ps[0]) || StartsWithAny(t, ps[1..]))
  }

  /** `t` contains one of `ps`. */
  predicate ContainsAny(t: string, ps: seq<string>)
    decreases |ps|
  {
    ps != [] && (Contains(t, ps[0]) || ContainsAny(t, ps[1..]))
  }

  /** The first index at or after `from` where the non-empty `p` occurs, or `|s|` when
      there is none: the left-to-right scan behind the `re.findall` and `re.search`
      matchers of the head scripts and the tile table. */
  function FindFrom(s: string, p: string, from: nat): (r: nat)
    requires p != [] && from <= |s|
    ensures from <= r <= |s|
    ensures r < |s| ==> OccursAt(s, p, r)
    ensures forall j :: from <= j < r ==> !OccursAt(s, p, j)
    decreases |s| - from
  {
    if from == |s| || OccursAt(s, p, from) then from else FindFrom(s, p, from + 1)
  }

  /** An occurrence with none before it, from `from` on, is the one `FindFrom` returns. */
  lemma FindFirst(s: string, p: string, from: nat, q: nat)
    requires p != [] && from <= q < |s| && OccursAt(s, p, q)
    requires forall j :: from <= j < q ==> !OccursAt(s, p, j)
    ensures FindFrom(s, p, from) == q
  {
  }

  /** `s.count(c)` for a one-character pattern. */
  function CountChar(s: string, c: char): (n: nat)
    ensures n <= |s|
    ensures n == 0 <==> forall i :: 0 <= i < |s| ==> s[i] != c
    ensures n == multiset(s)[c]
  {
    if s == [] then 0
    else
      var n := CountChar(s[1..], c);
      assert forall i :: 1 <= i < |s| ==> s[i] == s[1..][i - 1];
      assert s == [s[0]] + s[1..];
      (if s[0] == c then 1 else 0) + n
  }

  /** The slice `s[:n]`. */
  function Take(s: string, n: nat): string {
    if n <= |s| then s[..n] else s
  }

  function LowerChar(c: char): char {
    if 'A' <= c <= 'Z' then (c as int + 32) as char else c
  }

  /** `s.lower()` on ASCII letters. */
  function Lower(s: string): string {
    seq(|s|, i requires 0 <= i < |s| => LowerChar(s[i]))
  }

  /** Stripping is idempotent: `strip` of a stripped line is the line itself. */
  lemma StripStripped(s: string)
    ensures Strip(Strip(s)) == Strip(s)
  {
    var r := Strip(s);
    StripSpec(s);
    assert LStrip(r) == r;
    assert RStrip(r) == r;
  }
}
