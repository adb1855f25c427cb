/** From the text of a speech to tokenised sentences: splitting at
    sentence-final punctuation, rejecting sentences that are not Hebrew
    prose, and splitting a sentence into word and punctuation tokens. */
module Speech {
  import opened Wrappers
  import opened TextUtil

  // ---------------------------------------------------------------------
  // Dash normalisation
  // ---------------------------------------------------------------------

  /** The class `[‐‑‒–—―−]`: hyphen, non-breaking hyphen, figure dash, en
      dash, em dash, horizontal bar and minus sign. */
  predicate IsFancyDash(c: char) {
    ('\U{2010}' <= c <= '\U{2015}') || c == '\U{2212}'
  }

  function PlainDash(c: char): char { if IsFancyDash(c) then '-' else c }

  /** `dash_substitution_regex.sub('-', s)`. */
  function NormalizeDashes(s: string): string {
    Map(PlainDash, s)
  }

  // ---------------------------------------------------------------------
  // segment_sentences
  // ---------------------------------------------------------------------

  predicate IsSentenceEnd(c: char) { c == '.' || c == '!' || c == '?' }

  predicate EndsWithMark(x: string) { x != [] && IsSentenceEnd(x[|x| - 1]) }

  /** The length of the whitespace run at the start of `s`. */
  function SpaceRun(s: string): nat {
    |TakeWhile(s, IsSpace)|
  }

  /** `sentence_end_pattern`, `(?<=[.!?])\s+(?=[^\s])`, matches at `i`: a
      sentence-final mark before `i`, whitespace at `i`, and the
      whitespace run does not reach the end. */
  predicate BreaksAt(s: string, i: nat)
    requires i < |s|
  {
    0 < i && IsSentenceEnd(s[i - 1]) && IsSpace(s[i]) && i + SpaceRun(s[i..]) < |s|
  }

  /** The leftmost match at or after `i`. */
  function FirstBreak(s: string, i: nat): (r: Option<nat>)
    requires i <= |s|
    decreases |s| - i
    ensures r.Some? ==> i <= r.value < |s| && BreaksAt(s, r.value)
    ensures r.None? ==> forall k :: i <= k < |s| ==> !BreaksAt(s, k)
  {
    if i == |s| then None
    else if BreaksAt(s, i) then Some(i)
    else FirstBreak(s, i + 1)
  }

  /** No position between `i` and the match found is a match: it is the
      leftmost one. */
  lemma {:induction false} FirstBreakLeftmost(s: string, i: nat)
    requires i <= |s|
    decreases |s| - i
    ensures FirstBreak(s, i).Some? ==> forall k :: i <= k < FirstBreak(s, i).value ==> !BreaksAt(s, k)
  {
    if i < |s| && !BreaksAt(s, i) {
      FirstBreakLeftmost(s, i + 1);
    }
  }

  /** `sentence_end_pattern.split(s)`: the text between the matches, each
      match being the whole whitespace run after the mark. */
  function Pieces(s: string): (ps: seq<string>)
    decreases |s|
    ensures |ps| >= 1
  {
    match FirstBreak(s, 0)
    case None => [s]
    case Some(i) =>
      var j := i + SpaceRun(s[i..]);
      [s[..i]] + Pieces(s[j..])
  }

  /** Every piece but the last ends with its sentence-final mark. */
  lemma {:induction false} PiecesEndWithMarks(s: string, k: nat)
    requires k + 1 < |Pieces(s)|
    ensures EndsWithMark(Pieces(s)[k])
    decreases |s|
  {
    match FirstBreak(s, 0)
    case Some(i) =>
      var j := i + SpaceRun(s[i..]);
      var rest := Pieces(s[j..]);
      assert Pieces(s) == [s[..i]] + rest;
      if k == 0 {
        assert s[..i][i - 1] == s[i - 1];
      } else {
        assert Pieces(s)[k] == rest[k - 1];
        PiecesEndWithMarks(s[j..], k - 1);
      }
  }

  /** No piece holds a match of the pattern: `split` cut at every one. */
  lemma {:induction false} PiecesNoBreak(s: string, k: nat)
    requires k < |Pieces(s)|
    ensures forall m :: 0 <= m < |Pieces(s)[k]| ==> !BreaksAt(Pieces(s)[k], m)
    decreases |s|
  {
    match FirstBreak(s, 0)
    case None =>
    case Some(i) =>
      var j := i + SpaceRun(s[i..]);
      var rest := Pieces(s[j..]);
      assert Pieces(s) == [s[..i]] + rest;
      if k == 0 {
        BeforeFirstBreak(s, i);
      } else {
        assert Pieces(s)[k] == rest[k - 1];
        PiecesNoBreak(s[j..], k - 1);
      }
  }

  /** The text before the leftmost match holds no match. */
  lemma BeforeFirstBreak(s: string, i: nat)
    requires FirstBreak(s, 0) == Some(i)
    ensures forall m :: 0 <= m < i ==> !BreaksAt(s[..i], m)
  {
    FirstBreakLeftmost(s, 0);
    forall m | 0 <= m < i
      ensures !BreaksAt(s[..i], m)
    {
      if BreaksAt(s[..i], m) {
        assert s[0..i] == s[..i];
        BreakInSlice(s, 0, i, m);
      }
    }
  }

  /** A match inside a slice is a match in the whole text: the whitespace
      run after it ends inside the slice, so it ends at the same place. */
  lemma BreakInSlice(x: string, a: nat, b: nat, m: nat)
    requires a <= b <= |x| && m < b - a && BreaksAt(x[a..b], m)
    ensures BreaksAt(x, a + m)
  {
    var y := x[a..b];
    assert y[m - 1] == x[a + m - 1] && y[m] == x[a + m];
    assert y[m..] == x[a + m..][..b - a - m];
    TakeWhilePrefix(x[a + m..], b - a - m, IsSpace);
  }

  /** `TakeWhile` that stops inside a prefix stops at the same place in the
      whole text. */
  lemma TakeWhilePrefix(t: string, n: nat, keep: char -> bool)
    requires n <= |t| && |TakeWhile(t[..n], keep)| < n
    ensures TakeWhile(t, keep) == TakeWhile(t[..n], keep)
  {
    var w := TakeWhile(t[..n], keep);
    assert w == t[..|w|];
    assert t[..n][|w|] == t[|w|];
    TakeWhileStops(t, w, keep);
  }

  /** A non-empty string that starts and ends with non-whitespace. */
  predicate Stripped(x: string) {
    x != [] && NotSpace(x[0]) && NotSpace(x[|x| - 1])
  }

  /** A stripped-looking string is its own strip. */
  lemma StrippedIsOwnStrip(x: string)
    requires Stripped(x)
    ensures Strip(x) == x
  {
    TrimLeftStops(x, IsSpace);
  }

  /** A non-empty strip looks stripped. */
  lemma StripIsStripped(x: string)
    requires Strip(x) != []
    ensures Stripped(Strip(x))
  {
    var l := TrimLeft(x, IsSpace);
    var r := TrimRight(l, IsSpace);
    assert r == Strip(x);
    assert r[0] == l[0];
  }

  /** `[f(p) for p in ps if f(p)]`: the non-empty images, in order. */
  function MapNonEmpty(f: string -> string, ps: seq<string>): (out: seq<string>)
    ensures |out| <= |ps|
  {
    if ps == [] then []
    else
      var p := f(ps[0]);
      var rest := MapNonEmpty(f, ps[1..]);
      if p == [] then rest else [p] + rest
  }

  /** Each kept element is the non-empty image of some element. */
  lemma {:induction false} MapNonEmptyElem(f: string -> string, ps: seq<string>, k: nat)
    requires k < |MapNonEmpty(f, ps)|
    ensures exists i :: 0 <= i < |ps| && MapNonEmpty(f, ps)[k] == f(ps[i]) != []
  {
    var p := f(ps[0]);
    var rest := MapNonEmpty(f, ps[1..]);
    if p == [] {
      MapNonEmptyElem(f, ps[1..], k);
      var i :| 0 <= i < |ps[1..]| && rest[k] == f(ps[1..][i]) != [];
      assert ps[1..][i] == ps[i + 1];
    } else if k > 0 {
      assert MapNonEmpty(f, ps)[k] == rest[k - 1];
      MapNonEmptyElem(f, ps[1..], k - 1);
      var i :| 0 <= i < |ps[1..]| && rest[k - 1] == f(ps[1..][i]) != [];
      assert ps[1..][i] == ps[i + 1];
    }
  }

  /** `[s.strip() for s in ps if s.strip()]`: every sentence is non-empty
      and starts and ends with non-whitespace. */
  function StripAll(ps: seq<string>): (out: seq<string>)
    ensures |out| <= |ps|
    ensures forall k :: 0 <= k < |out| ==> Stripped(out[k])
  {
    NonEmptyStripsStripped(ps);
    MapNonEmpty(Strip, ps)
  }

  lemma NonEmptyStripsStripped(ps: seq<string>)
    ensures forall k :: 0 <= k < |MapNonEmpty(Strip, ps)| ==> Stripped(MapNonEmpty(Strip, ps)[k])
  {
    var out := MapNonEmpty(Strip, ps);
    forall k | 0 <= k < |out|
      ensures Stripped(out[k])
    {
      MapNonEmptyElem(Strip, ps, k);
      var i :| 0 <= i < |ps| && out[k] == Strip(ps[i]) != [];
      StripIsStripped(ps[i]);
    }
  }

  /** `segment_sentences`. */
  function SegmentSentences(text: string): seq<string> {
    StripAll(Pieces(text))
  }

  /** Every sentence is non-empty and equal to its own strip. */
  lemma SentencesStripped(text: string, k: nat)
    requires k < |SegmentSentences(text)|
    ensures SegmentSentences(text)[k] != []
    ensures Strip(SegmentSentences(text)[k]) == SegmentSentences(text)[k]
  {
    StrippedIsOwnStrip(SegmentSentences(text)[k]);
  }

  /** Segmentation loses no text but whitespace: the sentences, put
      together, hold the non-whitespace characters of the text in order. */
  lemma {:induction false} SegmentKeepsText(text: string)
    ensures Filter(NotSpace, Concat(SegmentSentences(text))) == Filter(NotSpace, text)
  {
    PiecesKeepText(text);
    StripAllKeepsText(Pieces(text));
  }

  lemma {:induction false} PiecesKeepText(s: string)
    decreases |s|
    ensures Filter(NotSpace, Concat(Pieces(s))) == Filter(NotSpace, s)
  {
    match FirstBreak(s, 0)
    case None =>
      ConcatSingle(s);
    case Some(i) =>
      var j := i + SpaceRun(s[i..]);
      var rest := Pieces(s[j..]);
      PiecesKeepText(s[j..]);
      assert Pieces(s) == [s[..i]] + rest;
      assert s[i..j] == TakeWhile(s[i..], IsSpace);
      BreakKeepsText(s, i, j, rest);
  }

  lemma ConcatSingle(s: string)
    ensures Concat([s]) == s
  {
    assert [s][1..] == [];
  }

  /** One split of `Pieces`: the text before the break, then the pieces of
      the text after the whitespace run. */
  lemma BreakKeepsText(s: string, i: nat, j: nat, rest: seq<string>)
    requires i <= j <= |s| && AllSpace(s[i..j])
    requires Filter(NotSpace, Concat(rest)) == Filter(NotSpace, s[j..])
    ensures Filter(NotSpace, Concat([s[..i]] + rest)) == Filter(NotSpace, s)
  {
    var a, run, b := s[..i], s[i..j], s[j..];
    assert ([a] + rest)[1..] == rest;
    assert Concat([a] + rest) == a + Concat(rest);
    FilterAppend(NotSpace, a, Concat(rest));
    assert s == a + run + b;
    FilterSkips(NotSpace, a, run, b);
  }

  /** Characters the filter drops, between two pieces of text, leave no
      trace in it. */
  lemma FilterSkips(keep: char -> bool, a: string, run: string, b: string)
    requires forall i :: 0 <= i < |run| ==> !keep(run[i])
    ensures Filter(keep, a + run + b) == Filter(keep, a) + Filter(keep, b)
  {
    var ar := a + run;
    FilterAppend(keep, ar, b);
    FilterAppend(keep, a, run);
    FilterNone(keep, run);
    assert Filter(keep, ar) == Filter(keep, a);
  }

  /** The kept images hold the same characters, as far as `keep` sees,
      when each image does. */
  lemma {:induction false} MapNonEmptyKeepsText(f: string -> string, keep: char -> bool, ps: seq<string>)
    requires forall x :: Filter(keep, f(x)) == Filter(keep, x)
    ensures Filter(keep, Concat(MapNonEmpty(f, ps))) == Filter(keep, Concat(ps))
  {
    if ps != [] {
      MapNonEmptyKeepsText(f, keep, ps[1..]);
      var p := f(ps[0]);
      var rest := MapNonEmpty(f, ps[1..]);
      FilterAppend(keep, ps[0], Concat(ps[1..]));
      if p == [] {
        assert Filter(keep, ps[0]) == Filter(keep, p) == [];
      } else {
        assert MapNonEmpty(f, ps) == [p] + rest;
        assert ([p] + rest)[1..] == rest;
        assert Concat([p] + rest) == p + Concat(rest);
        FilterAppend(keep, p, Concat(rest));
      }
    }
  }

  lemma StripAllKeepsText(ps: seq<string>)
    ensures Filter(NotSpace, Concat(StripAll(ps))) == Filter(NotSpace, Concat(ps))
  {
    forall x
      ensures Filter(NotSpace, Strip(x)) == Filter(NotSpace, x)
    {
      StripKeepsText(x);
    }
    MapNonEmptyKeepsText(Strip, NotSpace, ps);
  }

  /** Every sentence but the last ends with `.`, `!` or `?`. */
  lemma SentencesEndWithMarks(text: string, k: nat)
    requires k + 1 < |SegmentSentences(text)|
    ensures var x := SegmentSentences(text)[k]; IsSentenceEnd(x[|x| - 1])
  {
    var ps := Pieces(text);
    forall j | 0 <= j < |ps| - 1
      ensures EndsWithMark(ps[j])
    {
      PiecesEndWithMarks(text, j);
    }
    StripAllKeepsEnds(ps, k);
  }

  /** No sentence holds a sentence-final mark followed by whitespace and
      more text: every such place is a sentence boundary. */
  lemma SentencesHaveNoBreak(text: string, k: nat)
    requires k < |SegmentSentences(text)|
    ensures var x := SegmentSentences(text)[k];
            forall m :: 0 <= m < |x| ==> !BreaksAt(x, m)
  {
    var ps := Pieces(text);
    MapNonEmptyElem(Strip, ps, k);
    var i :| 0 <= i < |ps| && MapNonEmpty(Strip, ps)[k] == Strip(ps[i]) != [];
    PiecesNoBreak(text, i);
    StripNoBreak(ps[i]);
  }

  /** Stripping a text without a match leaves a text without a match. */
  lemma StripNoBreak(p: string)
    requires forall m :: 0 <= m < |p| ==> !BreaksAt(p, m)
    ensures var x := Strip(p); forall m :: 0 <= m < |x| ==> !BreaksAt(x, m)
  {
    var a := StripIsSlice(p);
    var x := Strip(p);
    forall m | 0 <= m < |x|
      ensures !BreaksAt(x, m)
    {
      if BreaksAt(x, m) {
        BreakInSlice(p, a, a + |x|, m);
      }
    }
  }

  /** What `strip` keeps is a slice of the text. */
  lemma StripIsSlice(p: string) returns (a: nat)
    ensures a + |Strip(p)| <= |p| && Strip(p) == p[a..a + |Strip(p)|]
  {
    var l := TrimLeft(p, IsSpace);
    TrimLeftSuffix(p, IsSpace);
    a := |p| - |l|;
    var x := TrimRight(l, IsSpace);
    assert x == Strip(p);
    assert x == l[..|x|];
  }

  /** When every element but the last ends with a mark and `f` keeps a
      final mark, every kept image but the last ends with a mark. */
  lemma {:induction false} MapNonEmptyKeepsEnds(f: string -> string, ps: seq<string>, k: nat)
    requires forall x :: EndsWithMark(x) ==> EndsWithMark(f(x))
    requires forall j :: 0 <= j < |ps| - 1 ==> EndsWithMark(ps[j])
    requires k + 1 < |MapNonEmpty(f, ps)|
    ensures EndsWithMark(MapNonEmpty(f, ps)[k])
  {
    var p := f(ps[0]);
    var rest := MapNonEmpty(f, ps[1..]);
    assert forall j :: 0 <= j < |ps[1..]| - 1 ==> ps[1..][j] == ps[j + 1];
    if p == [] {
      // Only the last element may lack a mark, and its image is then dropped.
      assert false;
    } else if k == 0 {
      assert |ps| >= 2;
    } else {
      assert MapNonEmpty(f, ps)[k] == rest[k - 1];
      MapNonEmptyKeepsEnds(f, ps[1..], k - 1);
    }
  }

  lemma StripAllKeepsEnds(ps: seq<string>, k: nat)
    requires forall j :: 0 <= j < |ps| - 1 ==> EndsWithMark(ps[j])
    requires k + 1 < |StripAll(ps)|
    ensures EndsWithMark(StripAll(ps)[k])
  {
    forall x | EndsWithMark(x)
      ensures EndsWithMark(Strip(x))
    {
      StripKeepsLast(x);
    }
    MapNonEmptyKeepsEnds(Strip, ps, k);
  }

  /** Stripping keeps a last character that is not whitespace. */
  lemma StripKeepsLast(p: string)
    requires EndsWithMark(p)
    ensures EndsWithMark(Strip(p))
  {
    TrimLeftKeeps(p, IsSpace, |p| - 1);
    var l := TrimLeft(p, IsSpace);
    TrimLeftSuffix(p, IsSpace);
    assert l[|l| - 1] == p[|p| - 1];
  }

  // ---------------------------------------------------------------------
  // is_valid_sentence
  // ---------------------------------------------------------------------

  /** `dash_sequence_regex`, `(-\s*){2,}`, matches somewhere: a dash
      followed, after whitespace only, by another dash. */
  predicate HasDashRun(s: string) {
    exists i :: 0 <= i < |s| && s[i] == '-' && DashFollows(s[i + 1..])
  }

  predicate DashFollows(t: string) {
    var u := TrimLeft(t, IsSpace);
    u != [] && u[0] == '-'
  }

  /** `is_valid_sentence`: some character of the Hebrew block survives
      `hebrew_letters_pattern.sub('', s)`, no `[A-Za-z]` is found and no
      run of dashes is found. */
  function IsValidSentence(s: string): (ok: bool)
    ensures ok <==> (exists i :: 0 <= i < |s| && IsHebrewBlock(s[i]))
                    && (forall i :: 0 <= i < |s| ==> !IsAsciiLetter(s[i]))
                    && !HasDashRun(s)
  {
    FilterEmpty(IsHebrewBlock, s);
    if Filter(IsHebrewBlock, s) == [] then false
    else if exists i | 0 <= i < |s| :: IsAsciiLetter(s[i]) then false
    else if HasDashRun(s) then false
    else true
  }

  /** A filter keeps nothing exactly when no character qualifies. */
  lemma {:induction false} FilterEmpty(keep: char -> bool, s: string)
    ensures Filter(keep, s) == [] <==> forall i :: 0 <= i < |s| ==> !keep(s[i])
  {
    if s != [] {
      FilterEmpty(keep, s[1..]);
      assert forall i :: 1 <= i < |s| ==> s[i] == s[1..][i - 1];
    }
  }

  // ---------------------------------------------------------------------
  // tokenize_sentence and split_mixed_token
  // ---------------------------------------------------------------------

  predicate IsQuote(c: char) { c == '"' || c == '\'' }

  /** The punctuation class of `tokenize_pattern`. */
  predicate IsPunctuation(c: char) {
    c == '"' || c == '.' || c == ',' || c == ';' || c == ':' || c == '!' || c == '?'
    || c == '(' || c == ')' || c == '[' || c == ']' || c == '{' || c == '}' || c == '-'
    || c == '%' || c == '&' || c == '@' || c == '#' || c == '$' || c == '*' || c == '+'
    || c == '=' || c == '/' || c == '<' || c == '>' || c == '~' || c == '`' || c == '|'
    || c == '\\'
  }

  /** A character some alternative of `tokenize_pattern` can consume. */
  predicate IsTokenChar(c: char) { IsWordChar(c) || IsQuote(c) || IsPunctuation(c) }

  /** The length of `\w+["']?\w*` at the start of `s`: the word run, and
      when a quote follows it, the quote and the word run after it. */
  function WordTokenLength(s: string): (n: nat)
    requires s != [] && IsWordChar(s[0])
    ensures 0 < n <= |s|
    ensures forall i :: 0 <= i < n ==> IsWordChar(s[i]) || IsQuote(s[i])
  {
    var a := |TakeWhile(s, IsWordChar)|;
    if a < |s| && IsQuote(s[a]) then
      var v := TakeWhile(s[a + 1..], IsWordChar);
      assert forall i :: a + 1 <= i < a + 1 + |v| ==> s[i] == v[i - a - 1];
      a + 1 + |v|
    else a
  }

  /** The length of the match of `tokenize_pattern` at the start of `s`, if
      any. The alternative `\d+` never wins: a digit is a word character,
      so the first alternative already matches there. */
  function TokenAt(s: string): (r: Option<nat>)
    ensures r.Some? ==> 0 < r.value <= |s|
    ensures r.Some? ==> forall i :: 0 <= i < r.value ==> IsTokenChar(s[i])
    ensures r.None? <==> s == [] || !(IsWordChar(s[0]) || IsPunctuation(s[0]))
  {
    if s == [] then None
    else if IsWordChar(s[0]) then Some(WordTokenLength(s))
    else if IsPunctuation(s[0]) then Some(1)
    else None
  }

  /** `t` has the shape `\w+["']?\w*`: it starts with a word character and
      holds word characters and at most one quote. */
  predicate IsWordToken(t: string) {
    t != [] && IsWordChar(t[0])
    && (forall i :: 0 <= i < |t| ==> IsWordChar(t[i]) || IsQuote(t[i]))
    && (forall i, j :: 0 <= i < j < |t| && IsQuote(t[i]) ==> !IsQuote(t[j]))
  }

  /** The match at a word character is the longest prefix of the shape
      `\w+["']?\w*`; at any other punctuation character it is that one
      character. */
  lemma TokenAtMatch(s: string)
    ensures s != [] && IsWordChar(s[0]) ==>
              var n := TokenAt(s).value;
              IsWordToken(s[..n]) && forall m :: n < m <= |s| ==> !IsWordToken(s[..m])
    ensures s != [] && !IsWordChar(s[0]) && IsPunctuation(s[0]) ==> TokenAt(s) == Some(1)
  {
    if s != [] && IsWordChar(s[0]) {
      WordTokenLongest(s);
    }
  }

  lemma WordTokenLongest(s: string)
    requires s != [] && IsWordChar(s[0])
    ensures IsWordToken(s[..WordTokenLength(s)])
    ensures forall m :: WordTokenLength(s) < m <= |s| ==> !IsWordToken(s[..m])
  {
    var a := |TakeWhile(s, IsWordChar)|;
    var n := WordTokenLength(s);
    if a < |s| && IsQuote(s[a]) {
      var v := TakeWhile(s[a + 1..], IsWordChar);
      assert n == a + 1 + |v|;
      assert forall i :: a < i < n ==> s[i] == v[i - a - 1];
      assert forall i :: 0 <= i < n && i != a ==> IsWordChar(s[i]);
      assert n == |s| || !IsWordChar(s[n]) by {
        if n < |s| {
          assert s[a + 1..][|v|] == s[n];
        }
      }
      forall m | n < m <= |s|
        ensures !IsWordToken(s[..m])
      {
        var t := s[..m];
        assert t[a] == s[a] && t[n] == s[n];
      }
    } else {
      assert n == a;
      forall m | n < m <= |s|
        ensures !IsWordToken(s[..m])
      {
        assert s[..m][n] == s[n];
      }
    }
  }

  /** `tokenize_pattern.findall(s)`: scan from the left, take a match where
      there is one and skip a character where there is none. */
  function FindTokens(s: string): seq<string>
    decreases |s|
  {
    if s == [] then []
    else
      match TokenAt(s)
      case Some(n) => [s[..n]] + FindTokens(s[n..])
      case None => FindTokens(s[1..])
  }

  /** `findall` skips a character at which no match starts. */
  lemma FindTokensSkip(s: string)
    requires s != [] && !IsWordChar(s[0]) && !IsPunctuation(s[0])
    ensures FindTokens(s) == FindTokens(s[1..])
  {
  }

  /** A punctuation character that is not a word character is a token by
      itself. */
  lemma FindTokensPunctuation(s: string)
    requires s != [] && !IsWordChar(s[0]) && IsPunctuation(s[0])
    ensures FindTokens(s) == [[s[0]]] + FindTokens(s[1..])
  {
    assert s[..1] == [s[0]];
  }

  /** A character at which some alternative of `tokenize_pattern` can
      start a match. */
  predicate IsTokenStart(c: char) { IsWordChar(c) || IsPunctuation(c) }

  /** `findall` skips only characters at which no match starts: the
      tokens, put together, hold every such character of the text, in
      order. */
  lemma {:induction false} FindTokensKeepText(s: string)
    decreases |s|
    ensures Filter(IsTokenStart, Concat(FindTokens(s))) == Filter(IsTokenStart, s)
  {
    if s != [] {
      match TokenAt(s)
      case Some(n) =>
        FindTokensKeepText(s[n..]);
        ConsKeepsText(IsTokenStart, s, n, FindTokens(s[n..]));
      case None =>
        FindTokensKeepText(s[1..]);
        assert Filter(IsTokenStart, s) == Filter(IsTokenStart, s[1..]);
    }
  }

  /** A prefix of the text, followed by pieces that keep the rest of it,
      keeps the text. */
  lemma ConsKeepsText(keep: char -> bool, s: string, n: nat, rest: seq<string>)
    requires n <= |s|
    requires Filter(keep, Concat(rest)) == Filter(keep, s[n..])
    ensures Filter(keep, Concat([s[..n]] + rest)) == Filter(keep, s)
  {
    var t := s[..n];
    assert ([t] + rest)[1..] == rest;
    assert Concat([t] + rest) == t + Concat(rest);
    FilterAppend(keep, t, Concat(rest));
    assert s == t + s[n..];
    FilterAppend(keep, t, s[n..]);
  }

  predicate HasDigit(s: string) { exists i :: 0 <= i < |s| && IsDigit(s[i]) }

  predicate HasAlpha(s: string) { exists i :: 0 <= i < |s| && IsAlpha(s[i]) }

  predicate NotDigit(c: char) { !IsDigit(c) }

  predicate NoDigits(s: string) { forall i :: 0 <= i < |s| ==> !IsDigit(s[i]) }

  /** A maximal run of `number_pattern`: digits only, or no digit at all. */
  predicate IsDigitRun(r: string) { r != [] && (AllDigits(r) || NoDigits(r)) }

  /** `number_pattern.findall(s)`, `\d+|\D+`: the maximal runs of digits
      and of non-digits. */
  function DigitRuns(s: string): seq<string>
    decreases |s|
  {
    if s == [] then []
    else
      var r := if IsDigit(s[0]) then TakeWhile(s, IsDigit) else TakeWhile(s, NotDigit);
      [r] + DigitRuns(s[|r|..])
  }

  /** The runs put back together give the text, and each is a digit run. */
  lemma {:induction false} DigitRunsSound(s: string)
    decreases |s|
    ensures Concat(DigitRuns(s)) == s
    ensures forall k :: 0 <= k < |DigitRuns(s)| ==> IsDigitRun(DigitRuns(s)[k])
  {
    if s != [] {
      var r := if IsDigit(s[0]) then TakeWhile(s, IsDigit) else TakeWhile(s, NotDigit);
      var rest := DigitRuns(s[|r|..]);
      DigitRunsSound(s[|r|..]);
      assert DigitRuns(s) == [r] + rest;
      assert ([r] + rest)[1..] == rest;
      assert s == r + s[|r|..];
      assert IsDigitRun(r);
      ConsDigitRuns(r, rest);
    }
  }

  /** The runs are maximal: a digit run is always followed by a non-digit
      run and the other way round. */
  lemma {:induction false} DigitRunsAlternate(s: string, k: nat)
    decreases |s|
    requires k + 1 < |DigitRuns(s)|
    ensures var rs := DigitRuns(s);
            rs[k] != [] && rs[k + 1] != [] && IsDigit(rs[k][|rs[k]| - 1]) != IsDigit(rs[k + 1][0])
  {
    var r := if IsDigit(s[0]) then TakeWhile(s, IsDigit) else TakeWhile(s, NotDigit);
    var t := s[|r|..];
    var rest := DigitRuns(t);
    assert DigitRuns(s) == [r] + rest;
    if k == 0 {
      assert r[0] == s[0];
      assert t != [];
      assert r[|r| - 1] == s[|r| - 1] && t[0] == s[|r|];
      var r1 := if IsDigit(t[0]) then TakeWhile(t, IsDigit) else TakeWhile(t, NotDigit);
      assert rest[0] == r1 && r1[0] == t[0];
    } else {
      DigitRunsAlternate(t, k - 1);
    }
  }

  lemma ConsDigitRuns(r: string, rest: seq<string>)
    requires IsDigitRun(r) && forall k :: 0 <= k < |rest| ==> IsDigitRun(rest[k])
    ensures forall k :: 0 <= k < |rest| + 1 ==> IsDigitRun(([r] + rest)[k])
  {
    assert forall k :: 1 <= k < |rest| + 1 ==> ([r] + rest)[k] == rest[k - 1];
  }

  /** `split_mixed_token`: a token with both a digit and a letter is cut
      into its digit runs and non-digit runs; any other token stays whole. */
  function SplitMixed(token: string): seq<string> {
    if HasDigit(token) && HasAlpha(token) then DigitRuns(token) else [token]
  }

  /** The pieces of `split_mixed_token` put back together give the token;
      a mixed token is cut into digit runs, any other token is kept whole. */
  lemma SplitMixedParts(token: string)
    ensures Concat(SplitMixed(token)) == token
    ensures HasDigit(token) && HasAlpha(token) ==>
              forall k :: 0 <= k < |SplitMixed(token)| ==> IsDigitRun(SplitMixed(token)[k])
    ensures !(HasDigit(token) && HasAlpha(token)) ==> SplitMixed(token) == [token]
  {
    if HasDigit(token) && HasAlpha(token) {
      DigitRunsSound(token);
    } else {
      ConcatSingle(token);
    }
  }

  predicate EndsWithQuote(token: string) { |token| > 0 && token[|token| - 1] == '"' }

  /** The post-processing of one token: a token longer than one character
      that ends with `"` becomes the token without it followed by `"`;
      any other token goes through `split_mixed_token`. */
  function PostProcess(token: string): seq<string> {
    if EndsWithQuote(token) && |token| > 1 then [token[..|token| - 1], "\""]
    else SplitMixed(token)
  }

  /** The pieces `f` makes of each token, one token after another. */
  function FlatMap(f: string -> seq<string>, tokens: seq<string>): seq<string> {
    if tokens == [] then []
    else FlatMap(f, tokens[..|tokens| - 1]) + f(tokens[|tokens| - 1])
  }

  /** The post-processing of a list of tokens, one after another. */
  function PostProcessAll(tokens: seq<string>): seq<string> {
    FlatMap(PostProcess, tokens)
  }

  /** `tokenize_sentence`. */
  function Tokenize(sentence: string): seq<string> {
    PostProcessAll(FindTokens(sentence))
  }

  /** `tokenize_sentence` as the source writes it: a loop that appends the
      post-processed pieces of each token. */
  method TokenizeSentence(sentence: string) returns (processed: seq<string>)
    ensures processed == Tokenize(sentence)
  {
    var tokens := FindTokens(sentence);
    processed := [];
    for i := 0 to |tokens|
      invariant processed == PostProcessAll(tokens[..i])
    {
      var token := tokens[i];
      assert tokens[..i + 1][..i] == tokens[..i];
      if EndsWithQuote(token) && |token| > 1 {
        processed := processed + [token[..|token| - 1]];
        processed := processed + ["\""];
      } else {
        processed := processed + SplitMixed(token);
      }
    }
    assert tokens[..|tokens|] == tokens;
  }

  // ---------------------------------------------------------------------
  // Properties of the tokens
  // ---------------------------------------------------------------------

  /** A token made of characters with property `p`. */
  predicate IsToken(t: string, p: char -> bool) { t != [] && Every(t, p) }

  predicate AllTokens(ts: seq<string>, p: char -> bool) {
    forall k :: 0 <= k < |ts| ==> IsToken(ts[k], p)
  }

  lemma AllTokensAppend(a: seq<string>, b: seq<string>, p: char -> bool)
    requires AllTokens(a, p) && AllTokens(b, p)
    ensures AllTokens(a + b, p)
  {
    assert forall k :: |a| <= k < |a| + |b| ==> (a + b)[k] == b[k - |a|];
  }

  /** Every token `findall` returns is non-empty and made of characters of
      the sentence that the pattern can consume: whatever holds of those
      holds of every token character. */
  lemma {:induction false} FindTokensFrom(s: string, p: char -> bool)
    requires forall i :: 0 <= i < |s| && IsTokenChar(s[i]) ==> p(s[i])
    ensures AllTokens(FindTokens(s), p)
    decreases |s|
  {
    if s != [] {
      match TokenAt(s)
      case Some(n) =>
        var t, rest := s[..n], s[n..];
        assert forall i :: 0 <= i < |rest| ==> rest[i] == s[n + i];
        FindTokensFrom(rest, p);
        assert forall i :: 0 <= i < |t| ==> t[i] == s[i];
        assert FindTokens(s) == [t] + FindTokens(rest);
        AllTokensAppend([t], FindTokens(rest), p);
      case None =>
        assert forall i :: 0 <= i < |s| - 1 ==> s[1..][i] == s[i + 1];
        FindTokensFrom(s[1..], p);
    }
  }

  /** The digit runs of a token keep the property its characters have. */
  lemma {:induction false} DigitRunsFrom(s: string, p: char -> bool)
    requires Every(s, p)
    ensures AllTokens(DigitRuns(s), p)
    decreases |s|
  {
    if s != [] {
      var r := if IsDigit(s[0]) then TakeWhile(s, IsDigit) else TakeWhile(s, NotDigit);
      var rest := s[|r|..];
      assert forall i :: 0 <= i < |rest| ==> rest[i] == s[|r| + i];
      DigitRunsFrom(rest, p);
      assert forall i :: 0 <= i < |r| ==> r[i] == s[i];
      assert DigitRuns(s) == [r] + DigitRuns(rest);
      AllTokensAppend([r], DigitRuns(rest), p);
    }
  }

  /** Post-processing a token yields non-empty pieces of it. */
  lemma PostProcessFrom(t: string, p: char -> bool)
    requires IsToken(t, p)
    ensures AllTokens(PostProcess(t), p)
  {
    if EndsWithQuote(t) && |t| > 1 {
      var head := t[..|t| - 1];
      assert forall i :: 0 <= i < |head| ==> head[i] == t[i];
      assert p(t[|t| - 1]);
      assert IsToken("\"", p);
    } else if HasDigit(t) && HasAlpha(t) {
      DigitRunsFrom(t, p);
    }
  }

  lemma PostProcessAllFrom(ts: seq<string>, p: char -> bool)
    requires AllTokens(ts, p)
    ensures AllTokens(PostProcessAll(ts), p)
  {
    forall t | IsToken(t, p)
      ensures AllTokens(PostProcess(t), p)
    {
      PostProcessFrom(t, p);
    }
    FlatMapFrom(PostProcess, ts, p);
  }

  /** When `f` cuts tokens into tokens, so does `FlatMap`. */
  lemma {:induction false} FlatMapFrom(f: string -> seq<string>, ts: seq<string>, p: char -> bool)
    requires forall t :: IsToken(t, p) ==> AllTokens(f(t), p)
    requires AllTokens(ts, p)
    ensures AllTokens(FlatMap(f, ts), p)
  {
    if ts != [] {
      var init, last := ts[..|ts| - 1], ts[|ts| - 1];
      assert forall k :: 0 <= k < |init| ==> init[k] == ts[k];
      FlatMapFrom(f, init, p);
      assert IsToken(last, p);
      AllTokensAppend(FlatMap(f, init), f(last), p);
    }
  }

  /** Every token of a sentence is non-empty and made of characters of the
      sentence that the pattern consumes, and the tokens together keep
      every character at which a match starts, in order. */
  lemma TokensFrom(s: string, p: char -> bool)
    requires forall i :: 0 <= i < |s| && IsTokenChar(s[i]) ==> p(s[i])
    ensures AllTokens(Tokenize(s), p)
    ensures Filter(IsTokenStart, Concat(Tokenize(s))) == Filter(IsTokenStart, s)
  {
    FindTokensFrom(s, p);
    PostProcessAllFrom(FindTokens(s), p);
    FindTokensKeepText(s);
    PostProcessAllKeepsText(FindTokens(s));
  }

  lemma TokenCharNotSpace(c: char)
    requires IsTokenChar(c)
    ensures NotSpace(c)
  {
  }

  /** Tokens hold no whitespace, so joining them with single spaces and
      splitting again gives them back. */
  lemma TokensArePlain(s: string)
    ensures AllPlain(Tokenize(s))
    ensures Words(Join(Tokenize(s), " ")) == Tokenize(s)
  {
    forall i | 0 <= i < |s| && IsTokenChar(s[i])
      ensures NotSpace(s[i])
    {
      TokenCharNotSpace(s[i]);
    }
    TokensFrom(s, NotSpace);
    var ts := Tokenize(s);
    forall k | 0 <= k < |ts|
      ensures Plain(ts[k])
    {
      assert IsToken(ts[k], NotSpace);
    }
    WordsOfJoin(ts);
  }

  /** Post-processing only cuts a token: the pieces give it back; a token
      longer than one character that ends with `"` is cut before the `"`. */
  lemma PostProcessKeepsToken(t: string)
    ensures Concat(PostProcess(t)) == t
    ensures EndsWithQuote(t) && |t| > 1 ==> PostProcess(t) == [t[..|t| - 1], "\""]
  {
    if EndsWithQuote(t) && |t| > 1 {
      var head := t[..|t| - 1];
      assert [head, "\""][1..] == ["\""];
      ConcatSingle("\"");
      assert head + "\"" == t;
    } else {
      SplitMixedParts(t);
    }
  }

  /** Post-processing a list of tokens keeps their text. */
  lemma PostProcessAllKeepsText(ts: seq<string>)
    ensures Concat(PostProcessAll(ts)) == Concat(ts)
  {
    forall t
      ensures Concat(PostProcess(t)) == t
    {
      PostProcessKeepsToken(t);
    }
    FlatMapKeepsText(PostProcess, ts);
  }

  /** When the pieces of every token give it back, so do the pieces of a
      list of tokens. */
  lemma {:induction false} FlatMapKeepsText(f: string -> seq<string>, ts: seq<string>)
    requires forall t :: Concat(f(t)) == t
    ensures Concat(FlatMap(f, ts)) == Concat(ts)
  {
    if ts != [] {
      var init, last := ts[..|ts| - 1], ts[|ts| - 1];
      var front, back := FlatMap(f, init), f(last);
      assert FlatMap(f, ts) == front + back;
      FlatMapKeepsText(f, init);
      ConcatAppend(front, back);
      assert Concat(front + back) == Concat(init) + last;
      assert ts == init + [last];
      ConcatSnoc(init, last);
    }
  }

  /** Post-processing keeps a list of single punctuation characters as it is. */
  lemma PostProcessAllPunctuation(ts: seq<string>)
    requires forall k :: 0 <= k < |ts| ==> |ts[k]| == 1 && IsPunctuation(ts[k][0])
    ensures PostProcessAll(ts) == ts
  {
    forall k | 0 <= k < |ts|
      ensures PostProcess(ts[k]) == [ts[k]]
    {
      PostProcessPunctuation(ts[k]);
    }
    FlatMapKeeps(PostProcess, ts);
  }

  /** `FlatMap` keeps a list whose every token `f` keeps whole. */
  lemma {:induction false} FlatMapKeeps(f: string -> seq<string>, ts: seq<string>)
    requires forall k :: 0 <= k < |ts| ==> f(ts[k]) == [ts[k]]
    ensures FlatMap(f, ts) == ts
  {
    if ts != [] {
      var init, last := ts[..|ts| - 1], ts[|ts| - 1];
      assert forall k :: 0 <= k < |init| ==> init[k] == ts[k];
      FlatMapKeeps(f, init);
      assert ts == init + [last];
    }
  }

  /** A single punctuation character is a token that post-processing keeps. */
  lemma PostProcessPunctuation(t: string)
    requires |t| == 1 && IsPunctuation(t[0])
    ensures PostProcess(t) == [t]
  {
    assert !IsAlpha(t[0]);
    assert !HasAlpha(t);
  }

  lemma ConcatSnoc(ss: seq<string>, s: string)
    ensures Concat(ss + [s]) == Concat(ss) + s
  {
    ConcatAppend(ss, [s]);
    ConcatSingle(s);
  }
}
