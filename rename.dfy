/** The rename chain applied to the captured historic code: whole-word renames
    (`re.sub(r'\bNAME\b', NEW, code)`) and plain substring replacements
    (`code.replace(OLD, NEW)`), composed by reassignment. */
module Rename {
  import opened PyText

  /** A character `\w` matches: an ASCII letter, digit or underscore. */
  predicate IsWordChar(c: char) {
    ('a' <= c <= 'z') || ('A' <= c <= 'Z') || ('0' <= c <= '9') || c == '_'
  }

  predicate IsIdentifier(w: string) {
    w != [] && forall i :: 0 <= i < |w| ==> IsWordChar(w[i])
  }

  /** `name` occurs at `i` with a word boundary on both sides: what `\bname\b` matches. */
  predicate WholeWordAt(s: string, name: string, i: int) {
    OccursAt(s, name, i)
    && (i == 0 || !IsWordChar(s[i - 1]))
    && (i + |name| == |s| || !IsWordChar(s[i + |name|]))
  }

  /** `re.search(r'\bname\b', s)` finds something. */
  ghost predicate HasWholeWord(s: string, name: string) {
    exists i :: WholeWordAt(s, name, i)
  }

  // ---------------------------------------------------------------------------------
  // Whole-word substitution as the regex engine scans: left to right, a match at the
  // current position is replaced and the scan resumes after it, otherwise one character
  // is copied. `afterWord` says whether the character before `s` is a word character.
  // ---------------------------------------------------------------------------------

  function SubWordFrom(s: string, name: string, repl: string, afterWord: bool): string
    requires IsIdentifier(name)
    decreases |s|
  {
    if s == [] then []
    else if !afterWord && StartsWith(s, name) && (|s| == |name| || !IsWordChar(s[|name|])) then
      repl + SubWordFrom(s[|name|..], name, repl, true)
    else [s[0]] + SubWordFrom(s[1..], name, repl, IsWordChar(s[0]))
  }

  /** `re.sub(r'\bname\b', repl, s)`. */
  function RenameWord(s: string, name: string, repl: string): string
    requires IsIdentifier(name)
  {
    SubWordFrom(s, name, repl, false)
  }

  // ---------------------------------------------------------------------------------
  // The reference definition: the text as a sequence of tokens, each a maximal run of
  // word characters or a single other character; renaming swaps the tokens equal to
  // `name` and leaves every other token as it is.
  // ---------------------------------------------------------------------------------

  /** The length of the run of word characters `s` starts with. */
  function WordRun(s: string): (k: nat)
    ensures k <= |s|
    ensures forall j :: 0 <= j < k ==> IsWordChar(s[j])
    ensures k < |s| ==> !IsWordChar(s[k])
  {
    if s != [] && IsWordChar(s[0]) then 1 + WordRun(s[1..]) else 0
  }

  function Concat(ts: seq<string>): string {
    if ts == [] then [] else ts[0] + Concat(ts[1..])
  }

  predicate IsToken(t: string) {
    IsIdentifier(t) || (|t| == 1 && !IsWordChar(t[0]))
  }

  /** Every token is a word run or one other character, and no two word runs touch. */
  predicate WellTokenized(ts: seq<string>) {
    (forall i :: 0 <= i < |ts| ==> IsToken(ts[i]))
    && (forall i :: 0 <= i < |ts| - 1 ==> !(IsIdentifier(ts[i]) && IsIdentifier(ts[i + 1])))
  }

  /** The length of the token `s` starts with. */
  function TokenLen(s: string): (k: nat)
    requires s != []
    ensures 1 <= k <= |s|
  {
    if IsWordChar(s[0]) then WordRun(s) else 1
  }

  /** The token sequence of `s`, left to right. */
  function Tokens(s: string): seq<string>
    decreases |s|
  {
    if s == [] then [] else [s[..TokenLen(s)]] + Tokens(s[TokenLen(s)..])
  }

  lemma TokensCons(s: string)
    requires s != []
    ensures Tokens(s) == [s[..TokenLen(s)]] + Tokens(s[TokenLen(s)..])
  {
  }

  /** Tokenising is lossless and well formed: the tokens concatenate back to the text,
      each is a word run or one other character, and no two word runs touch. */
  lemma {:induction false} TokensSpec(s: string)
    ensures WellTokenized(Tokens(s)) && Concat(Tokens(s)) == s
    decreases |s|
  {
    if s != [] {
      TokensSpec(s[TokenLen(s)..]);
      TokensCase(s);
    }
  }

  /** The step of `TokensSpec`: the first token in front of the rest's tokens. */
  lemma TokensCase(s: string)
    requires s != []
    requires WellTokenized(Tokens(s[TokenLen(s)..])) && Concat(Tokens(s[TokenLen(s)..])) == s[TokenLen(s)..]
    ensures WellTokenized(Tokens(s)) && Concat(Tokens(s)) == s
  {
    var k := TokenLen(s);
    TokensCons(s);
    FirstTokenIsToken(s);
    if IsIdentifier(s[..k]) && k < |s| {
      NextTokenNotWord(s[k..]);
    }
    WellTokenizedCons(s[..k], Tokens(s[k..]));
    ConcatCons(s[..k], Tokens(s[k..]));
    TakeDrop(s, k);
  }

  lemma TakeDrop(s: string, k: nat)
    requires k <= |s|
    ensures s[..k] + s[k..] == s
  {
  }

  /** The first token is a token, and a word run is maximal. */
  lemma FirstTokenIsToken(s: string)
    requires s != []
    ensures IsToken(s[..TokenLen(s)])
    ensures IsIdentifier(s[..TokenLen(s)]) && TokenLen(s) < |s| ==> !IsWordChar(s[TokenLen(s)])
  {
    var k := TokenLen(s);
    if !IsWordChar(s[0]) {
      assert !IsIdentifier(s[..k]) by {
        assert s[..k][0] == s[0];
      }
    }
  }

  /** Text starting with a non-word character starts with a one-character token. */
  lemma NextTokenNotWord(rest: string)
    requires rest != [] && !IsWordChar(rest[0])
    ensures Tokens(rest) != [] && !IsIdentifier(Tokens(rest)[0])
  {
    TokensCons(rest);
    assert Tokens(rest)[0][0] == rest[0];
  }

  /** A token in front of a well-formed sequence keeps it well formed, unless two word
      runs would touch. */
  lemma WellTokenizedCons(t: string, ts: seq<string>)
    requires IsToken(t) && WellTokenized(ts)
    requires IsIdentifier(t) && ts != [] ==> !IsIdentifier(ts[0])
    ensures WellTokenized([t] + ts)
  {
    var us := [t] + ts;
    assert forall i :: 1 <= i < |us| ==> us[i] == ts[i - 1];
  }

  lemma ConcatCons(t: string, ts: seq<string>)
    ensures Concat([t] + ts) == t + Concat(ts)
  {
    assert ([t] + ts)[1..] == ts;
  }

  /** The first character of a concatenation is the first character of its first token. */
  lemma ConcatHead(ts: seq<string>)
    requires ts != [] && ts[0] != []
    ensures Concat(ts) != [] && Concat(ts)[0] == ts[0][0]
  {
  }

  lemma {:induction false} WordRunOfIdentifier(w: string, r: string)
    requires forall j :: 0 <= j < |w| ==> IsWordChar(w[j])
    requires r == [] || !IsWordChar(r[0])
    ensures WordRun(w + r) == |w|
    decreases |w|
  {
    if w != [] {
      assert (w + r)[1..] == w[1..] + r;
      WordRunOfIdentifier(w[1..], r);
    }
  }

  /** Tokenising a well-formed token sequence gives it back. */
  lemma {:induction false} TokensOfConcat(ts: seq<string>)
    requires WellTokenized(ts)
    ensures Tokens(Concat(ts)) == ts
  {
    if ts != [] {
      var t, rest := ts[0], ts[1..];
      assert IsToken(t);
      assert WellTokenized(rest) by {
        assert forall i :: 0 <= i < |rest| ==> rest[i] == ts[i + 1];
      }
      TokensOfConcat(rest);
      var s := Concat(ts);
      assert s == t + Concat(rest);
      if IsIdentifier(t) {
        if rest != [] {
          assert !IsIdentifier(rest[0]);
          ConcatHead(rest);
        }
        WordRunOfIdentifier(t, Concat(rest));
        assert s[..|t|] == t && s[|t|..] == Concat(rest);
      } else {
        assert s[..1] == t && s[1..] == Concat(rest);
      }
    }
  }

  /** Each token equal to `name` replaced by `repl`, every other token kept. */
  function MapTokens(ts: seq<string>, name: string, repl: string): (ms: seq<string>)
    ensures |ms| == |ts|
    ensures forall i :: 0 <= i < |ts| ==> ms[i] == if ts[i] == name then repl else ts[i]
  {
    if ts == [] then [] else [if ts[0] == name then repl else ts[0]] + MapTokens(ts[1..], name, repl)
  }

  // ---------------------------------------------------------------------------------
  // The scanner agrees with the reference definition.
  // ---------------------------------------------------------------------------------

  /** Inside a word run the scanner never matches: it copies the run. */
  lemma {:induction false} ScanWordRun(w: string, rest: string, name: string, repl: string)
    requires IsIdentifier(name)
    requires forall j :: 0 <= j < |w| ==> IsWordChar(w[j])
    ensures SubWordFrom(w + rest, name, repl, true) == w + SubWordFrom(rest, name, repl, true)
    decreases |w|
  {
    if w != [] {
      var s := w + rest;
      assert s[0] == w[0] && IsWordChar(w[0]);
      assert s[1..] == w[1..] + rest;
      ScanWordRun(w[1..], rest, name, repl);
      assert SubWordFrom(s, name, repl, true) == [w[0]] + SubWordFrom(s[1..], name, repl, true);
      assert w == [w[0]] + w[1..];
    } else {
      assert w + rest == rest;
    }
  }

  /** At a non-word character the scanner behaves the same whatever came before. */
  lemma AfterWordIrrelevant(s: string, name: string, repl: string)
    requires IsIdentifier(name)
    requires s == [] || !IsWordChar(s[0])
    ensures SubWordFrom(s, name, repl, true) == SubWordFrom(s, name, repl, false)
  {
    if s != [] {
      assert !StartsWith(s, name) by {
        assert name[0] != s[0];
      }
    }
  }

  /** At a non-word character the scanner copies it. */
  lemma ScanOtherChar(s: string, name: string, repl: string)
    requires IsIdentifier(name) && s != [] && !IsWordChar(s[0])
    ensures SubWordFrom(s, name, repl, false) == s[..1] + SubWordFrom(s[1..], name, repl, false)
  {
    assert !StartsWith(s, name) by {
      assert name[0] != s[0];
    }
  }

  /** A word run equal to `name` is replaced. */
  lemma ScanNameRun(s: string, name: string, repl: string)
    requires IsIdentifier(name) && StartsWith(s, name)
    requires |s| == |name| || !IsWordChar(s[|name|])
    ensures SubWordFrom(s, name, repl, false) == repl + SubWordFrom(s[|name|..], name, repl, false)
  {
    AfterWordIrrelevant(s[|name|..], name, repl);
  }

  /** A maximal word run other than `name` does not start a whole-word `name`. */
  lemma RunIsNotName(s: string, name: string, k: nat)
    requires IsIdentifier(name) && 0 < k <= |s| && s[..k] != name
    requires forall j :: 0 <= j < k ==> IsWordChar(s[j])
    requires k == |s| || !IsWordChar(s[k])
    ensures !(StartsWith(s, name) && (|s| == |name| || !IsWordChar(s[|name|])))
  {
    if StartsWith(s, name) && |name| < k {
      assert IsWordChar(s[|name|]);
    }
    if k < |name| <= |s| {
      assert IsWordChar(name[k]);
    }
  }

  /** A word character that does not start a whole-word `name` is copied, and the
      scan goes on inside a word. */
  lemma ScanWordStart(s: string, name: string, repl: string)
    requires IsIdentifier(name) && s != [] && IsWordChar(s[0])
    requires !(StartsWith(s, name) && (|s| == |name| || !IsWordChar(s[|name|])))
    ensures SubWordFrom(s, name, repl, false) == [s[0]] + SubWordFrom(s[1..], name, repl, true)
  {
  }

  /** The two ways of cutting `s` at its head and at `k`. */
  lemma SplitAtHead(s: string, k: nat)
    requires 0 < k <= |s|
    ensures s[1..] == s[1..k] + s[k..]
    ensures s[..k] == [s[0]] + s[1..k]
  {
  }

  lemma AppendAssoc(a: string, b: string, c: string)
    ensures a + (b + c) == (a + b) + c
  {
  }

  /** Any other word run `s[..k]` is copied. */
  lemma ScanOtherRun(s: string, name: string, repl: string, k: nat)
    requires IsIdentifier(name) && 0 < k <= |s| && s[..k] != name
    requires forall j :: 0 <= j < k ==> IsWordChar(s[j])
    requires k == |s| || !IsWordChar(s[k])
    ensures SubWordFrom(s, name, repl, false) == s[..k] + SubWordFrom(s[k..], name, repl, false)
  {
    var w, rest := s[1..k], s[k..];
    RunIsNotName(s, name, k);
    ScanWordStart(s, name, repl);
    SplitAtHead(s, k);
    ScanWordRun(w, rest, name, repl);
    AfterWordIrrelevant(rest, name, repl);
    AppendAssoc([s[0]], w, SubWordFrom(rest, name, repl, false));
  }

  /** One scanner step over the first token: a word run equal to `name` becomes
      `repl`, any other token is copied. */
  lemma ScanFirstToken(s: string, name: string, repl: string)
    requires IsIdentifier(name) && s != []
    ensures var k := TokenLen(s);
      SubWordFrom(s, name, repl, false)
      == (if s[..k] == name then repl else s[..k]) + SubWordFrom(s[k..], name, repl, false)
  {
    var k := TokenLen(s);
    if !IsWordChar(s[0]) {
      ScanOtherChar(s, name, repl);
      assert s[..k] != name by {
        assert s[..k][0] == s[0];
      }
    } else if s[..k] == name {
      ScanNameRun(s, name, repl);
    } else {
      ScanOtherRun(s, name, repl, k);
    }
  }

  /** Whole-word renaming is token renaming: `re.sub(r'\bname\b', repl, s)` replaces the
      maximal word runs equal to `name` and preserves every other character. */
  lemma {:induction false} RenameWordIsTokenMap(s: string, name: string, repl: string)
    requires IsIdentifier(name)
    ensures RenameWord(s, name, repl) == Concat(MapTokens(Tokens(s), name, repl))
    decreases |s|
  {
    if s != [] {
      var k := TokenLen(s);
      TokensCons(s);
      ScanFirstToken(s, name, repl);
      RenameWordIsTokenMap(s[k..], name, repl);
      var ms := MapTokens(Tokens(s), name, repl);
      assert ms[1..] == MapTokens(Tokens(s[k..]), name, repl);
    }
  }

  /** Inside the first token only its start can begin a whole-word occurrence, and it
      does exactly when the token is `name`. */
  lemma WholeWordInFirstToken(s: string, name: string, i: int)
    requires IsIdentifier(name) && s != [] && 0 <= i < TokenLen(s)
    ensures WholeWordAt(s, name, i) <==> i == 0 && s[..TokenLen(s)] == name
  {
    var k := TokenLen(s);
    if i == 0 && s[..k] == name {
      assert OccursAt(s, name, 0);
    }
    if WholeWordAt(s, name, i) {
      assert s[i] == name[0];
    }
  }

  /** A slice lying wholly in the second part of a concatenation is a slice of that part. */
  lemma SliceOfTail(a: string, b: string, i: int, n: nat)
    ensures |a| <= i && i + n <= |a + b| ==> (a + b)[i..i + n] == b[i - |a|..i - |a| + n]
  {
    if |a| <= i && i + n <= |a + b| {
      forall j | i <= j < i + n
        ensures (a + b)[j] == b[j - |a|]
      {
      }
    }
  }

  /** Right after the first token, a whole-word occurrence in the text is one at the
      start of the rest: after a word run neither can start. */
  lemma WholeWordAtTokenEnd(s: string, name: string)
    requires IsIdentifier(name) && s != []
    ensures WholeWordAt(s, name, TokenLen(s)) <==> WholeWordAt(s[TokenLen(s)..], name, 0)
  {
    var k := TokenLen(s);
    if k < |s| {
      assert s[k..][0] == s[k];
    }
    if IsWordChar(s[0]) {
      assert IsWordChar(s[k - 1]);
      if k < |s| {
        assert !OccursAt(s[k..], name, 0) by {
          assert s[k..][0] != name[0];
        }
      }
    }
  }

  /** After the first token, whole-word occurrences are those of the rest. */
  lemma WholeWordAfterFirstToken(s: string, name: string, i: int)
    requires IsIdentifier(name) && s != [] && i >= TokenLen(s)
    ensures WholeWordAt(s, name, i) <==> WholeWordAt(s[TokenLen(s)..], name, i - TokenLen(s))
  {
    var k := TokenLen(s);
    OccursInSuffix(s, name, k, i);
    if i == k {
      WholeWordAtTokenEnd(s, name);
    }
  }

  lemma {:induction false} WholeWordIsToken(s: string, name: string, i: int)
    requires IsIdentifier(name) && WholeWordAt(s, name, i)
    ensures name in Tokens(s)
    decreases |s|
  {
    var k := TokenLen(s);
    if i < k {
      WholeWordInFirstToken(s, name, i);
      FirstTokenMember(s, name);
    } else {
      WholeWordAfterFirstToken(s, name, i);
      WholeWordIsToken(s[k..], name, i - k);
      LaterTokenMember(s, name);
    }
  }

  lemma FirstTokenMember(s: string, name: string)
    requires s != [] && s[..TokenLen(s)] == name
    ensures name in Tokens(s)
  {
    TokensCons(s);
    assert Tokens(s)[0] == name;
  }

  lemma LaterTokenMember(s: string, name: string)
    requires s != [] && name in Tokens(s[TokenLen(s)..])
    ensures name in Tokens(s)
  {
    var rest := Tokens(s[TokenLen(s)..]);
    TokensCons(s);
    var j :| 0 <= j < |rest| && rest[j] == name;
    assert Tokens(s)[j + 1] == name;
  }

  /** An element of `[t] + ts` other than `t` is an element of `ts`. */
  lemma InLaterToken(name: string, t: string, ts: seq<string>)
    requires name in [t] + ts && name != t
    ensures name in ts
  {
    var j :| 0 <= j < |[t] + ts| && ([t] + ts)[j] == name;
    assert ([t] + ts)[j] == ts[j - 1];
  }

  /** A first token equal to `name` is a whole-word occurrence at the start. */
  lemma FirstTokenIsWholeWord(s: string, name: string) returns (i: int)
    requires IsIdentifier(name) && s != [] && s[..TokenLen(s)] == name
    ensures i == 0 && WholeWordAt(s, name, i)
  {
    WholeWordInFirstToken(s, name, 0);
    i := 0;
  }

  /** A whole-word occurrence after the first token is one in the whole text. */
  lemma WholeWordShift(s: string, name: string, j: int) returns (i: int)
    requires IsIdentifier(name) && s != [] && WholeWordAt(s[TokenLen(s)..], name, j)
    ensures i == j + TokenLen(s) && WholeWordAt(s, name, i)
  {
    i := j + TokenLen(s);
    WholeWordAfterFirstToken(s, name, i);
  }

  /** A token of `s` is its first token or a token of the rest. */
  lemma TokenSplit(s: string, name: string)
    requires name in Tokens(s)
    ensures s != [] && (name != s[..TokenLen(s)] ==> name in Tokens(s[TokenLen(s)..]))
  {
    var k := TokenLen(s);
    TokensCons(s);
    if name != s[..k] {
      InLaterToken(name, s[..k], Tokens(s[k..]));
    }
  }

  lemma {:induction false} TokenIsWholeWord(s: string, name: string) returns (i: int)
    requires IsIdentifier(name) && name in Tokens(s)
    ensures WholeWordAt(s, name, i)
    decreases |s|
  {
    TokenSplit(s, name);
    var k := TokenLen(s);
    if name == s[..k] {
      i := FirstTokenIsWholeWord(s, name);
    } else {
      var i' := TokenIsWholeWord(s[k..], name);
      i := WholeWordShift(s, name, i');
    }
  }

  /** A whole-word occurrence of `name` is exactly a token equal to `name`. */
  lemma WholeWordIffToken(s: string, name: string)
    requires IsIdentifier(name)
    ensures HasWholeWord(s, name) <==> name in Tokens(s)
  {
    if HasWholeWord(s, name) {
      var i :| WholeWordAt(s, name, i);
      WholeWordIsToken(s, name, i);
    }
    if name in Tokens(s) {
      var i := TokenIsWholeWord(s, name);
    }
  }

  /** Renaming to an identifier keeps the token structure well formed. */
  lemma MapTokensWell(ts: seq<string>, name: string, repl: string)
    requires WellTokenized(ts) && IsIdentifier(name) && IsIdentifier(repl)
    ensures WellTokenized(MapTokens(ts, name, repl))
  {
    var ms := MapTokens(ts, name, repl);
    assert forall i :: 0 <= i < |ms| ==> IsIdentifier(ms[i]) == IsIdentifier(ts[i]);
  }

  /** Renaming to a different identifier removes `name` as a whole word: no occurrence
      bounded by non-word characters on both sides remains. */
  lemma NoWholeWordLeft(s: string, name: string, repl: string)
    requires IsIdentifier(name) && IsIdentifier(repl) && repl != name
    ensures !HasWholeWord(RenameWord(s, name, repl), name)
  {
    var ts := Tokens(s);
    var ms := MapTokens(ts, name, repl);
    RenameWordIsTokenMap(s, name, repl);
    TokensSpec(s);
    MapTokensWell(ts, name, repl);
    TokensOfConcat(ms);
    MapTokensAvoids(ts, name, repl);
    WholeWordIffToken(Concat(ms), name);
  }

  lemma MapTokensAvoids(ts: seq<string>, name: string, repl: string)
    requires repl != name
    ensures name !in MapTokens(ts, name, repl)
  {
    var ms := MapTokens(ts, name, repl);
    forall i | 0 <= i < |ms|
      ensures ms[i] != name
    {
    }
  }

  lemma {:induction false} ConcatOfTokensMapped(ts: seq<string>, name: string, repl: string)
    requires name !in ts
    ensures MapTokens(ts, name, repl) == ts
  {
  }

  /** Text with no whole-word occurrence of `name` is left unchanged. */
  lemma RenameWordAbsent(s: string, name: string, repl: string)
    requires IsIdentifier(name)
    requires !HasWholeWord(s, name)
    ensures RenameWord(s, name, repl) == s
  {
    RenameWordIsTokenMap(s, name, repl);
    WholeWordIffToken(s, name);
    ConcatOfTokensMapped(Tokens(s), name, repl);
    TokensSpec(s);
  }

  // ---------------------------------------------------------------------------------
  // Plain substring replacement.
  // ---------------------------------------------------------------------------------

  /** `s.replace(pat, sub)`: non-overlapping occurrences, left to right. */
  function Replace(s: string, pat: string, sub: string): string
    requires pat != []
    decreases |s|
  {
    if s == [] then []
    else if StartsWith(s, pat) then sub + Replace(s[|pat|..], pat, sub)
    else [s[0]] + Replace(s[1..], pat, sub)
  }

  /** Text without the pattern is left unchanged. */
  lemma {:induction false} ReplaceAbsent(s: string, pat: string, sub: string)
    requires pat != []
    requires !Contains(s, pat)
    ensures Replace(s, pat, sub) == s
    decreases |s|
  {
    if s != [] {
      assert !OccursAt(s, pat, 0);
      ReplaceAbsent(s[1..], pat, sub);
      assert s == [s[0]] + s[1..];
    }
  }

  /** When the replacement starts with a character absent from `w`, a result starting with
      `w` comes from a text starting with `w`. */
  lemma {:induction false} ReplacedPrefixOrigin(t: string, pat: string, sub: string, w: string)
    requires pat != [] && sub != [] && sub[0] !in w
    requires StartsWith(Replace(t, pat, sub), w)
    ensures StartsWith(t, w)
    decreases |t|
  {
    if w != [] && t != [] {
      var r := Replace(t, pat, sub);
      ReplaceStart(t, pat, sub);
      assert r[0] == w[0];
      if !StartsWith(t, pat) {
        var r' := Replace(t[1..], pat, sub);
        assert r == [t[0]] + r';
        assert StartsWith(r', w[1..]) by {
          assert r'[..|w| - 1] == r[1..|w|] == w[1..];
        }
        ReplacedPrefixOrigin(t[1..], pat, sub, w[1..]);
        assert t[..|w|] == [t[0]] + t[1..][..|w| - 1];
      }
    }
  }

  /** A text starting with the pattern is replaced starting with the replacement. */
  lemma ReplaceStart(t: string, pat: string, sub: string)
    requires pat != [] && sub != []
    ensures StartsWith(t, pat) ==> Replace(t, pat, sub) != [] && Replace(t, pat, sub)[0] == sub[0]
  {
  }

  /** The result of `replace(pat, pre + pat)` does not start with `pat`. */
  lemma ReplacedNotAtStart(t: string, pre: string, pat: string)
    requires pat != [] && pre != []
    requires pre[0] !in pat
    ensures !StartsWith(Replace(t, pat, pre + pat), pat)
  {
    var r := Replace(t, pat, pre + pat);
    ReplaceStart(t, pat, pre + pat);
    if StartsWith(r, pat) {
      ReplacedPrefixOrigin(t, pat, pre + pat, pat);
    }
  }

  /** `pat` is preceded by `pre` at `i`. */
  predicate PrefixedAt(r: string, pre: string, i: int) {
    |pre| <= i <= |r| && r[i - |pre|..i] == pre
  }

  /** Inside an inserted `pre + pat`, the pattern can start only right after `pre`. */
  lemma OccurrenceInInsert(pre: string, pat: string, x: string, i: int)
    requires pat != [] && pat[0] !in pre && pat[0] !in pat[1..]
    requires 0 < i < |pre + pat| && OccursAt(pre + pat + x, pat, i)
    ensures i == |pre|
  {
    var r := pre + pat + x;
    assert r[i] == pat[0];
  }

  /** An occurrence preceded by `pre` in the tail is preceded by it in the whole text. */
  lemma PrefixedInTail(head: string, r': string, pre: string, pat: string, i: int)
    requires |head| < i && OccursAt(head + r', pat, i)
    requires OccursAt(r', pat, i - |head|) ==> PrefixedAt(r', pre, i - |head|)
    ensures PrefixedAt(head + r', pre, i)
  {
    var r := head + r';
    assert r[i..i + |pat|] == r'[i - |head|..i - |head| + |pat|];
    assert OccursAt(r', pat, i - |head|);
    if |pre| <= i - |head| {
      assert r[i - |pre|..i] == r'[i - |head| - |pre|..i - |head|];
    }
  }

  /** An occurrence after an inserted `pre + pat` is prefixed, given that those in the
      rest are. */
  lemma PrefixedAfterInsert(pre: string, pat: string, r': string, i: int)
    requires pat != [] && pat[0] !in pre && pat[0] !in pat[1..]
    requires 0 < i && OccursAt(pre + pat + r', pat, i) && !StartsWith(r', pat)
    requires OccursAt(r', pat, i - |pre + pat|) ==> PrefixedAt(r', pre, i - |pre + pat|)
    ensures PrefixedAt(pre + pat + r', pre, i)
  {
    var q := pre + pat;
    SliceOfTail(q, r', i, |pat|);
    if i > |q| {
      PrefixedInTail(q, r', pre, pat, i);
    } else {
      OccurrenceInInsert(pre, pat, r', i);
      assert (q + r')[..|pre|] == pre;
    }
  }

  /** An occurrence after a copied character is prefixed, given that those in the rest
      are. */
  lemma PrefixedAfterChar(c: char, pre: string, pat: string, r': string, i: int)
    requires 0 < i && OccursAt([c] + r', pat, i) && !StartsWith(r', pat)
    requires OccursAt(r', pat, i - 1) ==> PrefixedAt(r', pre, i - 1)
    ensures PrefixedAt([c] + r', pre, i)
  {
    SliceOfTail([c], r', i, |pat|);
    if i > 1 {
      PrefixedInTail([c], r', pre, pat, i);
    }
  }

  /** One occurrence of the pattern in the result of `replace(pat, pre + pat)` is
      immediately preceded by the prefix. */
  lemma {:induction false} OccurrencePrefixed(s: string, pre: string, pat: string, i: int)
    requires pat != [] && pre != []
    requires pre[0] !in pat && pat[0] !in pre && pat[0] !in pat[1..]
    requires OccursAt(Replace(s, pat, pre + pat), pat, i)
    ensures PrefixedAt(Replace(s, pat, pre + pat), pre, i)
    decreases |s|
  {
    var q := pre + pat;
    var r := Replace(s, pat, q);
    ReplacedNotAtStart(s, pre, pat);
    assert i > 0 by {
      assert !OccursAt(r, pat, 0);
    }
    if StartsWith(s, pat) {
      var r' := Replace(s[|pat|..], pat, q);
      assert r == q + r';
      ReplacedNotAtStart(s[|pat|..], pre, pat);
      if OccursAt(r', pat, i - |q|) {
        OccurrencePrefixed(s[|pat|..], pre, pat, i - |q|);
      }
      PrefixedAfterInsert(pre, pat, r', i);
    } else if s != [] {
      var r' := Replace(s[1..], pat, q);
      assert r == [s[0]] + r';
      ReplacedNotAtStart(s[1..], pre, pat);
      if OccursAt(r', pat, i - 1) {
        OccurrencePrefixed(s[1..], pre, pat, i - 1);
      }
      PrefixedAfterChar(s[0], pre, pat, r', i);
    }
  }

  /** Prefixing by replacement (`DATA.annual` to `GS_DATA.annual`): every occurrence of
      the pattern in the result is immediately preceded by the prefix, provided the
      prefix and the pattern share no first characters and the pattern's first character
      does not recur in it. */
  lemma PrefixedEverywhere(s: string, pre: string, pat: string)
    requires pat != [] && pre != []
    requires pre[0] !in pat && pat[0] !in pre && pat[0] !in pat[1..]
    ensures forall i :: OccursAt(Replace(s, pat, pre + pat), pat, i) ==>
      PrefixedAt(Replace(s, pat, pre + pat), pre, i)
  {
    forall i | OccursAt(Replace(s, pat, pre + pat), pat, i)
      ensures PrefixedAt(Replace(s, pat, pre + pat), pre, i)
    {
      OccurrencePrefixed(s, pre, pat, i);
    }
  }

  /** Text none of whose characters starts the pattern is copied. */
  lemma {:induction false} ReplaceCopiesHead(u: string, x: string, pat: string, sub: string)
    requires pat != [] && pat[0] !in u
    ensures Replace(u + x, pat, sub) == u + Replace(x, pat, sub)
    decreases |u|
  {
    if u != [] {
      var s := u + x;
      assert s[0] == u[0] != pat[0];
      assert s[1..] == u[1..] + x;
      ReplaceCopiesHead(u[1..], x, pat, sub);
      AppendAssoc([u[0]], u[1..], Replace(x, pat, sub));
      assert [u[0]] + u[1..] == u;
    } else {
      assert u + x == x;
    }
  }

  /** A word that differs from the pattern at `k`, and in which the pattern's first
      character appears only at its start, is copied. */
  lemma ReplaceCopiesOther(w: string, x: string, pat: string, sub: string, k: nat)
    requires pat != [] && k < |w| && k < |pat| && w[k] != pat[k] && pat[0] !in w[1..]
    ensures Replace(w + x, pat, sub) == w + Replace(x, pat, sub)
  {
    var s := w + x;
    assert s[k] == w[k];
    assert !StartsWith(s, pat);
    assert s[1..] == w[1..] + x;
    ReplaceCopiesHead(w[1..], x, pat, sub);
    AppendAssoc([w[0]], w[1..], Replace(x, pat, sub));
    assert [w[0]] + w[1..] == w;
  }

  /** A text starting with the pattern begins with the replacement. */
  lemma ReplaceAtPattern(x: string, pat: string, sub: string)
    requires pat != []
    ensures Replace(pat + x, pat, sub) == sub + Replace(x, pat, sub)
  {
    assert (pat + x)[..|pat|] == pat && (pat + x)[|pat|..] == x;
  }

  /** A text that does not start with the pattern begins with its first character. */
  lemma ReplaceAtOther(s: string, pat: string, sub: string)
    requires pat != [] && s != [] && !StartsWith(s, pat)
    ensures Replace(s, pat, sub) == [s[0]] + Replace(s[1..], pat, sub)
  {
  }

  /** A prefix free of the pattern's first character, then a word as in
      `ReplaceCopiesOther`, is copied. */
  lemma ReplaceCopiesPrefixed(pre: string, w: string, x: string, pat: string, sub: string, k: nat)
    requires pat != [] && pat[0] !in pre
    requires k < |w| && k < |pat| && w[k] != pat[k] && pat[0] !in w[1..]
    ensures Replace(w + x, pat, sub) == w + Replace(x, pat, sub)
    ensures Replace(pre + w + x, pat, sub) == pre + w + Replace(x, pat, sub)
  {
    var r := Replace(x, pat, sub);
    ReplaceCopiesOther(w, x, pat, sub, k);
    ReplaceCopiesHead(pre, w + x, pat, sub);
    AppendAssoc(pre, w, x);
    AppendAssoc(pre, w, r);
  }

  /** The monthly step copies `DATA.annual` and `GS_DATA.annual`. */
  lemma MonthlyStepCopies(x: string)
    ensures Replace("DATA.annual" + x, "DATA.monthly", "GS_DATA.monthly")
      == "DATA.annual" + Replace(x, "DATA.monthly", "GS_DATA.monthly")
    ensures Replace("GS_DATA.annual" + x, "DATA.monthly", "GS_DATA.monthly")
      == "GS_DATA.annual" + Replace(x, "DATA.monthly", "GS_DATA.monthly")
  {
    assert "GS_DATA.annual" == "GS_" + "DATA.annual";
    ReplaceCopiesPrefixed("GS_", "DATA.annual", x, "DATA.monthly", "GS_DATA.monthly", 5);
  }

  /** The annual step copies `DATA.monthly` and `GS_DATA.monthly`. */
  lemma AnnualStepCopies(x: string)
    ensures Replace("DATA.monthly" + x, "DATA.annual", "GS_DATA.annual")
      == "DATA.monthly" + Replace(x, "DATA.annual", "GS_DATA.annual")
    ensures Replace("GS_DATA.monthly" + x, "DATA.annual", "GS_DATA.annual")
      == "GS_DATA.monthly" + Replace(x, "DATA.annual", "GS_DATA.annual")
  {
    assert "GS_DATA.monthly" == "GS_" + "DATA.monthly";
    ReplaceCopiesPrefixed("GS_", "DATA.monthly", x, "DATA.annual", "GS_DATA.annual", 5);
  }

  /** The two `DATA` steps commute: neither pattern can start inside the other's
      replacement or inside the other pattern, and neither replacement creates a new
      occurrence of the other pattern. */
  lemma {:induction false} DataStepsCommute(s: string)
    ensures Replace(Replace(s, "DATA.annual", "GS_DATA.annual"), "DATA.monthly", "GS_DATA.monthly")
      == Replace(Replace(s, "DATA.monthly", "GS_DATA.monthly"), "DATA.annual", "GS_DATA.annual")
    decreases |s|
  {
    var a, ga, m, gm := "DATA.annual", "GS_DATA.annual", "DATA.monthly", "GS_DATA.monthly";
    if s == [] {
    } else if StartsWith(s, a) {
      var y := s[|a|..];
      assert s == a + y;
      ReplaceAtPattern(y, a, ga);
      MonthlyStepCopies(Replace(y, a, ga));
      MonthlyStepCopies(y);
      ReplaceAtPattern(Replace(y, m, gm), a, ga);
      DataStepsCommute(y);
    } else if StartsWith(s, m) {
      var y := s[|m|..];
      assert s == m + y;
      ReplaceAtPattern(y, m, gm);
      AnnualStepCopies(Replace(y, m, gm));
      AnnualStepCopies(y);
      ReplaceAtPattern(Replace(y, a, ga), m, gm);
      DataStepsCommute(y);
    } else {
      ReplaceAtOther(s, a, ga);
      if StartsWith(Replace(s, a, ga), m) {
        ReplacedPrefixOrigin(s, a, ga, m);
      }
      ReplaceAtOther(Replace(s, a, ga), m, gm);
      ReplaceAtOther(s, m, gm);
      if StartsWith(Replace(s, m, gm), a) {
        ReplacedPrefixOrigin(s, m, gm, a);
      }
      ReplaceAtOther(Replace(s, m, gm), a, ga);
      DataStepsCommute(s[1..]);
    }
  }

  // ---------------------------------------------------------------------------------
  // The chain, in the order the build applies it.
  // ---------------------------------------------------------------------------------

  /** The historic code with the `gs` prefixes applied. */
  function RenameHistoric(code: string): string {
    VizNamesAreIdentifiers();
    LongNamesAreIdentifiers();
    var c := RenameWord(code, "viz2", "gsViz2");
    var c := RenameWord(c, "viz3", "gsViz3");
    var c := RenameWord(c, "viz4", "gsViz4");
    var c := RenameWord(c, "viz5", "gsViz5");
    var c := RenameWord(c, "viz6", "gsViz6");
    var c := RenameWord(c, "viz7", "gsViz7");
    var c := RenameWord(c, "setupCanvas", "gsSetupCanvas");
    var c := Replace(c, "DATA.annual", "GS_DATA.annual");
    var c := Replace(c, "DATA.monthly", "GS_DATA.monthly");
    var c := RenameWord(c, "animFrames", "gsAnimFrames");
    var c := Replace(c, "window.onSlider2", "window.gsOnSlider2");
    var c := Replace(c, "window.onSlider4", "window.gsOnSlider4");
    Replace(c, "window.onSlider6", "window.gsOnSlider6")
  }

  /** After each `DATA` step, every occurrence of its field reads `GS_DATA.…`. */
  lemma DataFieldsPrefixed(s: string)
    ensures var r := Replace(s, "DATA.annual", "GS_DATA.annual");
      forall i :: OccursAt(r, "DATA.annual", i) ==> PrefixedAt(r, "GS_", i)
    ensures var r := Replace(s, "DATA.monthly", "GS_DATA.monthly");
      forall i :: OccursAt(r, "DATA.monthly", i) ==> PrefixedAt(r, "GS_", i)
  {
    assert "GS_DATA.annual" == "GS_" + "DATA.annual";
    assert "GS_DATA.monthly" == "GS_" + "DATA.monthly";
    PrefixedEverywhere(s, "GS_", "DATA.annual");
    PrefixedEverywhere(s, "GS_", "DATA.monthly");
  }

  /** After both `DATA` steps, in the order the chain applies them, every `DATA.annual`
      and every `DATA.monthly` reads `GS_DATA.…`: the monthly step does not undo the
      annual one. */
  lemma DataStepsPrefixed(s: string)
    ensures var r := Replace(Replace(s, "DATA.annual", "GS_DATA.annual"), "DATA.monthly", "GS_DATA.monthly");
      forall i :: OccursAt(r, "DATA.annual", i) ==> PrefixedAt(r, "GS_", i)
    ensures var r := Replace(Replace(s, "DATA.annual", "GS_DATA.annual"), "DATA.monthly", "GS_DATA.monthly");
      forall i :: OccursAt(r, "DATA.monthly", i) ==> PrefixedAt(r, "GS_", i)
  {
    DataStepsCommute(s);
    DataFieldsPrefixed(Replace(s, "DATA.monthly", "GS_DATA.monthly"));
    DataFieldsPrefixed(Replace(s, "DATA.annual", "GS_DATA.annual"));
  }

  /** Each whole-word step on a chart function leaves no whole-word occurrence of the
      name it renames. */
  lemma VizStepsComplete(s: string)
    ensures !HasWholeWord(RenameWord(s, "viz2", "gsViz2"), "viz2")
    ensures !HasWholeWord(RenameWord(s, "viz3", "gsViz3"), "viz3")
    ensures !HasWholeWord(RenameWord(s, "viz4", "gsViz4"), "viz4")
  {
    NoWholeWordLeft(s, "viz2", "gsViz2");
    NoWholeWordLeft(s, "viz3", "gsViz3");
    NoWholeWordLeft(s, "viz4", "gsViz4");
  }

  /** The same for the remaining chart functions. */
  lemma VizStepsCompleteLate(s: string)
    ensures !HasWholeWord(RenameWord(s, "viz5", "gsViz5"), "viz5")
    ensures !HasWholeWord(RenameWord(s, "viz6", "gsViz6"), "viz6")
    ensures !HasWholeWord(RenameWord(s, "viz7", "gsViz7"), "viz7")
  {
    NoWholeWordLeft(s, "viz5", "gsViz5");
    NoWholeWordLeft(s, "viz6", "gsViz6");
    NoWholeWordLeft(s, "viz7", "gsViz7");
  }

  /** The same for the canvas helper and the animation-frame table. */
  lemma WordStepsComplete(s: string)
    ensures !HasWholeWord(RenameWord(s, "setupCanvas", "gsSetupCanvas"), "setupCanvas")
    ensures !HasWholeWord(RenameWord(s, "animFrames", "gsAnimFrames"), "animFrames")
  {
    NoWholeWordLeft(s, "setupCanvas", "gsSetupCanvas");
    NoWholeWordLeft(s, "animFrames", "gsAnimFrames");
  }

  /** Code that mentions none of the renamed names or dotted forms passes unchanged. */
  lemma RenameHistoricUnchanged(code: string)
    requires !HasWholeWord(code, "viz2") && !HasWholeWord(code, "viz3")
      && !HasWholeWord(code, "viz4") && !HasWholeWord(code, "viz5")
      && !HasWholeWord(code, "viz6") && !HasWholeWord(code, "viz7")
      && !HasWholeWord(code, "setupCanvas") && !HasWholeWord(code, "animFrames")
    requires !Contains(code, "DATA.annual") && !Contains(code, "DATA.monthly")
    requires !Contains(code, "window.onSlider2") && !Contains(code, "window.onSlider4")
      && !Contains(code, "window.onSlider6")
    ensures RenameHistoric(code) == code
  {
    VizNamesAreIdentifiers();
    LongNamesAreIdentifiers();
    RenameWordAbsent(code, "viz2", "gsViz2");
    RenameWordAbsent(code, "viz3", "gsViz3");
    RenameWordAbsent(code, "viz4", "gsViz4");
    RenameWordAbsent(code, "viz5", "gsViz5");
    RenameWordAbsent(code, "viz6", "gsViz6");
    RenameWordAbsent(code, "viz7", "gsViz7");
    RenameWordAbsent(code, "setupCanvas", "gsSetupCanvas");
    ReplaceAbsent(code, "DATA.annual", "GS_DATA.annual");
    ReplaceAbsent(code, "DATA.monthly", "GS_DATA.monthly");
    RenameWordAbsent(code, "animFrames", "gsAnimFrames");
    ReplaceAbsent(code, "window.onSlider2", "window.gsOnSlider2");
    ReplaceAbsent(code, "window.onSlider4", "window.gsOnSlider4");
    ReplaceAbsent(code, "window.onSlider6", "window.gsOnSlider6");
  }

  /** The names the chain renames whole-word are identifiers. */
  lemma VizNamesAreIdentifiers()
    ensures IsIdentifier("viz2") && IsIdentifier("viz3") && IsIdentifier("viz4")
    ensures IsIdentifier("viz5") && IsIdentifier("viz6") && IsIdentifier("viz7")
  {
  }

  lemma LongNamesAreIdentifiers()
    ensures IsIdentifier("setupCanvas")
    ensures IsIdentifier("animFrames")
  {
  }

  /** A whole word equal to `name` is replaced. */
  lemma NameReplaced(r: string, name: string, repl: string)
    requires IsIdentifier(name)
    requires r == [] || !IsWordChar(r[0])
    ensures RenameWord(name + r, name, repl) == repl + RenameWord(r, name, repl)
  {
    WordRunOfIdentifier(name, r);
    ScanFirstToken(name + r, name, repl);
    assert (name + r)[..|name|] == name && (name + r)[|name|..] == r;
  }

  /** Any other whole word, a longer one containing `name` included, is kept. */
  lemma OtherWordKept(w: string, r: string, name: string, repl: string)
    requires IsIdentifier(name) && IsIdentifier(w) && w != name
    requires r == [] || !IsWordChar(r[0])
    ensures RenameWord(w + r, name, repl) == w + RenameWord(r, name, repl)
  {
    WordRunOfIdentifier(w, r);
    ScanFirstToken(w + r, name, repl);
    assert (w + r)[..|w|] == w && (w + r)[|w|..] == r;
  }

  /** A non-word character is copied. */
  lemma OtherCharKept(c: char, r: string, name: string, repl: string)
    requires IsIdentifier(name) && !IsWordChar(c)
    ensures RenameWord([c] + r, name, repl) == [c] + RenameWord(r, name, repl)
  {
    ScanFirstToken([c] + r, name, repl);
    assert ([c] + r)[1..] == r;
  }

  /** A longer identifier that starts with a renamed name is kept: `viz20` passes
      unchanged through the `viz2` step. */
  lemma LongerIdentifierKept()
    ensures RenameWord("viz20", "viz2", "gsViz2") == "viz20"
  {
    var w := "viz20";
    assert w + [] == w;
    OtherWordKept(w, [], "viz2", "gsViz2");
  }
}
