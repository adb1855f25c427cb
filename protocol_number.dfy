/** Finding the protocol (session) number in the opening paragraphs of a
    transcript: either written in digits after "פרוטוקול מס'" or spelled
    out in number words in "הישיבה ... של". */
module ProtocolNumber {
  import opened Wrappers
  import opened TextUtil
  import opened HebrewNumerals
  import opened Docx

  /** "protocol" */
  const ProtocolWord := "פרוטוקול"
  /** "the session" */
  const SessionWord := "הישיבה"
  /** "of" */
  const OfWord := "של"

  /** The value returned when no paragraph yields a number. */
  const NotFound := -1

  // ---------------------------------------------------------------------
  // The two patterns, matched at the start of the stripped paragraph
  // ---------------------------------------------------------------------

  /** `(?:מס\'?|מספר)` followed by the rest of the pattern: the marker
      alternatives in the order the regular expression tries them. "מס"
      followed by `'` or by "פר" can only match as "מס'" or "מספר", since
      after a bare "מס" a quote or a letter cannot start `\s*\d+`. */
  function AfterMarker(c: string): Option<string> {
    if |c| < 2 || c[0] != 'מ' || c[1] != 'ס' then None
    else if |c| >= 3 && c[2] == '\'' then Some(c[3..])
    else if |c| >= 4 && c[2] == 'פ' && c[3] == 'ר' then Some(c[4..])
    else Some(c[2..])
  }

  /** Pattern (a), `<?פרוטוקול\s+(?:מס\'?|מספר)\s*(\d+)>?`: the digits of
      the group when the text starts with the pattern. */
  function LiteralCapture(t: string): (g: Option<string>)
    ensures g.Some? ==> g.value != [] && AllDigits(g.value)
  {
    HeadingRest(if t != [] && t[0] == '<' then t[1..] else t)
  }

  /** `פרוטוקול\s+...` */
  function HeadingRest(a: string): (g: Option<string>)
    ensures g.Some? ==> g.value != [] && AllDigits(g.value)
  {
    if !(ProtocolWord <= a) then None else MarkerGroup(a[|ProtocolWord|..])
  }

  /** `\s+(?:מס\'?|מספר)...` */
  function MarkerGroup(b: string): (g: Option<string>)
    ensures g.Some? ==> g.value != [] && AllDigits(g.value)
  {
    var c := TrimLeft(b, IsSpace);
    if |c| == |b| then None
    else
      match AfterMarker(c)
      case None => None
      case Some(e) => DigitsGroup(e)
  }

  /** `\s*(\d+)`: the greedy digit run after optional whitespace. */
  function DigitsGroup(e: string): (g: Option<string>)
    ensures g.Some? ==> g.value != [] && AllDigits(g.value)
  {
    var digits := TakeWhile(TrimLeft(e, IsSpace), IsDigit);
    if digits == [] then None else Some(digits)
  }

  predicate IsHebrewLetterOrDash(c: char) { IsHebrewLetter(c) || c == '-' }

  /** Pattern (b), `הישיבה\s+([א-ת-]+)\s+של`: the run of letters and dashes
      between "the session" and "of". Every quantifier is followed by a
      class it cannot overlap, so the greedy runs are the only match. */
  function SessionCapture(t: string): (g: Option<string>)
    ensures g.Some? ==> g.value != [] && forall i :: 0 <= i < |g.value| ==> IsHebrewLetterOrDash(g.value[i])
  {
    if !(SessionWord <= t) then None else SessionGroup(t[|SessionWord|..])
  }

  /** `\s+([א-ת-]+)\s+של` */
  function SessionGroup(b: string): (g: Option<string>)
    ensures g.Some? ==> g.value != [] && forall i :: 0 <= i < |g.value| ==> IsHebrewLetterOrDash(g.value[i])
  {
    var c := TrimLeft(b, IsSpace);
    if |c| == |b| then None else GroupThenOf(c)
  }

  /** `([א-ת-]+)\s+של` */
  function GroupThenOf(c: string): (g: Option<string>)
    ensures g.Some? ==> g.value != [] && forall i :: 0 <= i < |g.value| ==> IsHebrewLetterOrDash(g.value[i])
  {
    var g := TakeWhile(c, IsHebrewLetterOrDash);
    var d := c[|g|..];
    var e := TrimLeft(d, IsSpace);
    if g == [] || |e| == |d| || !(OfWord <= e) then None else Some(g)
  }

  // ---------------------------------------------------------------------
  // From the captured group to a number
  // ---------------------------------------------------------------------

  /** The characters `re.sub(r'[^\d֐-׿\s\-]', '', ...)` keeps. */
  predicate IsNumberChar(c: char) {
    IsDigit(c) || IsHebrewBlock(c) || IsSpace(c) || c == '-'
  }

  /** `re.match(r'^\d+$', s)` followed by `int(s)`: `$` also matches before
      a final newline, which `int` then ignores. */
  function AsDecimal(s: string): (r: Option<nat>)
    ensures r.Some? ==> exists d :: d != [] && AllDigits(d) && (s == d || s == d + "\n")
                                    && r.value == DigitsValue(d)
  {
    var d := if s != [] && s[|s| - 1] == '\n' then s[..|s| - 1] else s;
    if d != [] && AllDigits(d) then
      assert s == d || s == d + "\n";
      Some(DigitsValue(d))
    else None
  }

  predicate IsVavOrHe(c: char) { c == 'ו' || c == 'ה' }

  function DashToSpace(c: char): char { if c == '-' then ' ' else c }

  /** `re.split(r'\s+|-', s)` with the empty pieces dropped: the maximal
      runs that hold neither whitespace nor a dash. */
  function NumberPieces(s: string): seq<string> {
    Words(Map(DashToSpace, s))
  }

  /** The word loop of the source: empty pieces are skipped, the leading
      "and"/"the" letters are dropped, and the list stops at the first piece
      that is not a number word. */
  function NumberWords(pieces: seq<string>): (ws: seq<string>)
    ensures AllKnown(ws) && |ws| <= |pieces|
  {
    if pieces == [] then []
    else if pieces[0] == [] then NumberWords(pieces[1..])
    else
      var base := TrimLeft(pieces[0], IsVavOrHe);
      if IsNumberWord(base) then [base] + NumberWords(pieces[1..]) else []
  }

  /** What one matching pattern yields: the group stripped; nothing when it
      is empty; otherwise, after dropping unwanted characters, the decimal
      value when only digits remain, else the value of the number words. */
  function NumberFromCapture(g: string): Option<nat> {
    var part := Strip(g);
    if part == [] then None
    else
      var cleaned := Filter(IsNumberChar, part);
      match AsDecimal(cleaned)
      case Some(n) => Some(n)
      case None => WordsToInt(NumberWords(NumberPieces(cleaned)))
  }

  /** The number a paragraph yields: pattern (a) first, then pattern (b)
      when (a) does not match or yields nothing. */
  function ParagraphNumber(text: string): Option<nat> {
    var t := Strip(text);
    var a := if LiteralCapture(t).Some? then NumberFromCapture(LiteralCapture(t).value) else None;
    if a.Some? then a
    else if SessionCapture(t).Some? then NumberFromCapture(SessionCapture(t).value)
    else None
  }

  /** The first number among the paragraphs' yields, or -1. */
  function FirstNumber(ys: seq<Option<nat>>): (n: int)
    ensures n >= NotFound
    ensures n == NotFound <==> forall k :: 0 <= k < |ys| ==> ys[k].None?
  {
    if ys == [] then NotFound
    else
      match ys[0]
      case Some(n) => n
      case None =>
        assert forall k :: 1 <= k < |ys| ==> ys[k] == ys[1..][k - 1];
        FirstNumber(ys[1..])
  }

  /** What each paragraph yields, in document order. */
  function Yields(doc: seq<Paragraph>): (ys: seq<Option<nat>>)
    ensures |ys| == |doc|
    ensures forall k :: 0 <= k < |doc| ==> ys[k] == ParagraphNumber(doc[k].text)
  {
    seq(|doc|, k requires 0 <= k < |doc| => ParagraphNumber(doc[k].text))
  }

  /** `extract_protocol_number`: the number of the first paragraph that
      yields one, or -1 when none does. */
  function ProtocolNumberOf(doc: seq<Paragraph>): (n: int)
    ensures n >= NotFound
    ensures n == NotFound <==> forall k :: 0 <= k < |doc| ==> ParagraphNumber(doc[k].text).None?
  {
    var ys := Yields(doc);
    assert forall k :: 0 <= k < |doc| ==> ys[k] == ParagraphNumber(doc[k].text);
    FirstNumber(ys)
  }

  // ---------------------------------------------------------------------
  // The loops of the source
  // ---------------------------------------------------------------------

  /** The loop that collects number words from the split pieces. */
  method CollectNumberWords(pieces: seq<string>) returns (numberWords: seq<string>)
    ensures numberWords == NumberWords(pieces)
  {
    numberWords := [];
    var i := 0;
    while i < |pieces|
      invariant 0 <= i <= |pieces|
      invariant NumberWords(pieces) == numberWords + NumberWords(pieces[i..])
    {
      var word := pieces[i];
      assert pieces[i..][1..] == pieces[i + 1..];
      if word == [] {
        i := i + 1;
        continue;
      }
      var base := TrimLeft(word, IsVavOrHe);
      if IsNumberWord(base) {
        numberWords := numberWords + [base];
      } else {
        break;
      }
      i := i + 1;
    }
  }

  /** The body of the pattern loop for one match. */
  method NumberFromMatch(g: string) returns (r: Option<nat>)
    ensures r == NumberFromCapture(g)
  {
    var part := Strip(g);
    if part == [] {
      return None;
    }
    var cleaned := Filter(IsNumberChar, part);
    var d := AsDecimal(cleaned);
    if d.Some? {
      return d;
    }
    var numberWords := CollectNumberWords(NumberPieces(cleaned));
    r := HebrewWordsToInt(numberWords);
  }

  /** `extract_protocol_number`: scan the paragraphs, trying pattern (a)
      and then pattern (b) on each, and return the first number found. */
  method ExtractProtocolNumber(doc: seq<Paragraph>) returns (n: int)
    ensures n == ProtocolNumberOf(doc)
    ensures n == NotFound || n >= 0
  {
    n := NotFound;
    var i := 0;
    while i < |doc|
      invariant 0 <= i <= |doc|
      invariant ProtocolNumberOf(doc) == FirstNumber(Yields(doc)[i..])
    {
      assert Yields(doc)[i..][1..] == Yields(doc)[i + 1..];
      assert Yields(doc)[i..][0] == ParagraphNumber(doc[i].text);
      var t := Strip(doc[i].text);
      var lit := LiteralCapture(t);
      if lit.Some? {
        var r := NumberFromMatch(lit.value);
        if r.Some? {
          n := r.value;
          return;
        }
      }
      var session := SessionCapture(t);
      if session.Some? {
        var r := NumberFromMatch(session.value);
        if r.Some? {
          n := r.value;
          return;
        }
      }
      i := i + 1;
    }
  }

  // ---------------------------------------------------------------------
  // Properties
  // ---------------------------------------------------------------------

  /** The first paragraph that yields a number decides; paragraphs that
      match a pattern but yield nothing do not stop the search. */
  lemma FirstYieldDecides(doc: seq<Paragraph>, i: nat, n: nat)
    requires i < |doc| && ParagraphNumber(doc[i].text) == Some(n)
    requires forall k :: 0 <= k < i ==> ParagraphNumber(doc[k].text).None?
    ensures ProtocolNumberOf(doc) == n
  {
    FirstAt(Yields(doc), i, n);
  }

  lemma {:induction false} FirstAt(ys: seq<Option<nat>>, i: nat, n: nat)
    requires i < |ys| && ys[i] == Some(n)
    requires forall k :: 0 <= k < i ==> ys[k].None?
    ensures FirstNumber(ys) == n
  {
    if i > 0 {
      assert forall k :: 0 <= k < i - 1 ==> ys[1..][k] == ys[k + 1];
      FirstAt(ys[1..], i - 1, n);
    }
  }

  /** Adding paragraphs after one that yields a number changes nothing. */
  lemma LaterParagraphsIgnored(doc: seq<Paragraph>, more: seq<Paragraph>)
    requires ProtocolNumberOf(doc) != NotFound
    ensures ProtocolNumberOf(doc + more) == ProtocolNumberOf(doc)
  {
    YieldsAppend(doc, more);
    FirstOfAppend(Yields(doc), Yields(more));
  }

  lemma YieldsAppend(doc: seq<Paragraph>, more: seq<Paragraph>)
    ensures Yields(doc + more) == Yields(doc) + Yields(more)
  {
    var ys, zs := Yields(doc), Yields(more);
    forall k | 0 <= k < |doc| + |more|
      ensures Yields(doc + more)[k] == (ys + zs)[k]
    {
      if k < |doc| {
        assert (doc + more)[k] == doc[k];
      } else {
        assert (doc + more)[k] == more[k - |doc|];
      }
    }
  }

  lemma {:induction false} FirstOfAppend(ys: seq<Option<nat>>, zs: seq<Option<nat>>)
    requires FirstNumber(ys) != NotFound
    ensures FirstNumber(ys + zs) == FirstNumber(ys)
  {
    assert (ys + zs)[0] == ys[0];
    if ys[0].None? {
      assert (ys + zs)[1..] == ys[1..] + zs;
      FirstOfAppend(ys[1..], zs);
    }
  }

  /** A number spelled in words is never zero: only the digits pattern can
      yield 0. */
  lemma SessionNumberPositive(t: string)
    requires SessionCapture(t).Some?
    ensures NumberFromCapture(SessionCapture(t).value).Some? ==>
              NumberFromCapture(SessionCapture(t).value).value > 0
  {
    WordsGroupNumber(SessionCapture(t).value);
  }

  /** A group of letters and dashes goes through the number-word path. */
  lemma WordsGroupNumber(g: string)
    requires g != [] && forall i :: 0 <= i < |g| ==> IsHebrewLetterOrDash(g[i])
    ensures NumberFromCapture(g) == WordsToInt(NumberWords(NumberPieces(g)))
  {
    StrippedAlready(g);
    KeepAll(g);
    assert AsDecimal(g).None? by {
      assert !IsDigit(g[0]);
      assert g[|g| - 1] != '\n';
    }
  }

  /** Text that neither starts nor ends with whitespace is its own strip. */
  lemma StrippedAlready(s: string)
    requires s != [] && !IsSpace(s[0]) && !IsSpace(s[|s| - 1])
    ensures Strip(s) == s
  {
    assert TrimLeft(s, IsSpace) == s;
    assert TrimRight(s, IsSpace) == s;
  }

  /** A group made of letters and dashes survives the clean-up intact. */
  lemma {:induction false} KeepAll(g: string)
    requires forall i :: 0 <= i < |g| ==> IsHebrewLetterOrDash(g[i])
    ensures Filter(IsNumberChar, g) == g
  {
    if g != [] {
      KeepAll(g[1..]);
    }
  }

  /** A group of digits yields its decimal value. */
  lemma DigitsGroupNumber(d: string)
    requires d != [] && AllDigits(d)
    ensures NumberFromCapture(d) == Some(DigitsValue(d))
  {
    StrippedAlready(d);
    DigitsKept(d);
    assert AsDecimal(d) == Some(DigitsValue(d));
  }

  lemma {:induction false} DigitsKept(d: string)
    requires AllDigits(d)
    ensures Filter(IsNumberChar, d) == d
  {
    if d != [] {
      DigitsKept(d[1..]);
    }
  }

  /** When pattern (a) matches and its group yields a number, that number
      is the paragraph's. */
  lemma LiteralDecides(text: string, g: string)
    requires LiteralCapture(Strip(text)) == Some(g) && NumberFromCapture(g).Some?
    ensures ParagraphNumber(text) == NumberFromCapture(g)
  {
  }

  /** The heading "פרוטוקול מס' D" followed by text that does not extend the
      digits matches pattern (a) with group D. */
  lemma HeadingCapture(d: string, rest: string)
    requires d != [] && AllDigits(d)
    requires rest == [] || !IsDigit(rest[0])
    ensures LiteralCapture("פרוטוקול מס' " + d + rest) == Some(d)
  {
    var t := "פרוטוקול מס' " + d + rest;
    assert t[0] != '<';
    assert ProtocolWord <= t;
    assert t[|ProtocolWord|..] == " מס' " + d + rest;
    MarkerThenDigits(d, rest);
  }

  lemma MarkerThenDigits(d: string, rest: string)
    requires d != [] && AllDigits(d)
    requires rest == [] || !IsDigit(rest[0])
    ensures MarkerGroup(" מס' " + d + rest) == Some(d)
  {
    var e := " " + d + rest;
    var b := " מס'" + e;
    assert b == " מס' " + d + rest;
    assert b[0] == ' ' && b[1] == 'מ' && b[2] == 'ס' && b[3] == '\'';
    MarkerWithQuote(b);
    assert b[4..] == e;
    DigitsAfterSpace(d, rest);
  }

  /** Whitespace and then "מס'": the digits are looked for after the quote. */
  lemma MarkerWithQuote(b: string)
    requires |b| >= 4 && b[0] == ' ' && b[1] == 'מ' && b[2] == 'ס' && b[3] == '\''
    ensures MarkerGroup(b) == DigitsGroup(b[4..])
  {
    TrimLeftStops(b[1..], IsSpace);
    assert TrimLeft(b, IsSpace) == b[1..];
    assert b[1..][3..] == b[4..];
  }

  lemma DigitsAfterSpace(d: string, rest: string)
    requires d != [] && AllDigits(d)
    requires rest == [] || !IsDigit(rest[0])
    ensures DigitsGroup(" " + d + rest) == Some(d)
  {
    var e := " " + d + rest;
    assert e[1..] == d + rest;
    TrimLeftStops(d + rest, IsSpace);
    assert TrimLeft(e, IsSpace) == d + rest;
    TakeWhileStops(d + rest, d, IsDigit);
  }

  /** The canonical heading "פרוטוקול מס' N" yields N, whatever follows
      the digits as long as it does not extend them. */
  lemma LiteralRoundTrip(n: nat, rest: string)
    requires rest == [] || (!IsDigit(rest[0]) && !IsSpace(rest[|rest| - 1]))
    ensures ParagraphNumber("פרוטוקול מס' " + DecimalString(n) + rest) == Some(n)
  {
    var d := DecimalString(n);
    var t := "פרוטוקול מס' " + d + rest;
    assert t[0] == 'פ';
    assert t[|t| - 1] == if rest == [] then d[|d| - 1] else rest[|rest| - 1];
    StrippedAlready(t);
    HeadingCapture(d, rest);
    DigitsGroupNumber(d);
    DecimalRoundTrip(n);
    LiteralDecides(t, d);
  }

  /** A paragraph that opens with neither heading yields no number. */
  lemma NoHeadingNoNumber(text: string)
    requires var t := Strip(text);
             !(ProtocolWord <= t) && !("<" + ProtocolWord <= t) && !(SessionWord <= t)
    ensures ParagraphNumber(text).None?
  {
    var t := Strip(text);
    NoLiteralHeading(t);
  }

  lemma NoLiteralHeading(t: string)
    requires !(ProtocolWord <= t) && !("<" + ProtocolWord <= t)
    ensures LiteralCapture(t).None?
  {
    if t != [] && t[0] == '<' {
      assert t == "<" + t[1..];
    }
  }

  /** The heading "הישיבה G של ..." with G made of letters and dashes
      yields the value of the number words in G: the prefix letters are
      dropped and the dashes split the words. */
  lemma SessionHeadingNumber(g: string, rest: string)
    requires g != [] && forall i :: 0 <= i < |g| ==> IsHebrewLetterOrDash(g[i])
    requires rest == [] || !IsSpace(rest[|rest| - 1])
    ensures ParagraphNumber("הישיבה " + g + " של" + rest)
            == WordsToInt(NumberWords(NumberPieces(g)))
  {
    var t := "הישיבה " + g + " של" + rest;
    assert t[0] == 'ה';
    assert t[|t| - 1] == if rest == [] then 'ל' else rest[|rest| - 1];
    StrippedAlready(t);
    assert LiteralCapture(t).None? by {
      assert t[0] != '<' && t[0] != ProtocolWord[0];
    }
    SessionCaptureOf(g, rest);
    WordsGroupNumber(g);
  }

  lemma SessionCaptureOf(g: string, rest: string)
    requires g != [] && forall i :: 0 <= i < |g| ==> IsHebrewLetterOrDash(g[i])
    ensures SessionCapture("הישיבה " + g + " של" + rest) == Some(g)
  {
    var t := "הישיבה " + g + " של" + rest;
    var c := g + " של" + rest;
    assert SessionWord <= t && t[|SessionWord|..] == " " + c;
    assert c[0] == g[0];
    SpaceThenGroup(c);
    GroupOf(g, rest);
  }

  lemma SpaceThenGroup(c: string)
    requires c != [] && !IsSpace(c[0])
    ensures SessionGroup(" " + c) == GroupThenOf(c)
  {
    assert (" " + c)[1..] == c;
    TrimLeftStops(c, IsSpace);
    assert TrimLeft(" " + c, IsSpace) == c;
  }

  lemma GroupOf(g: string, rest: string)
    requires g != [] && forall i :: 0 <= i < |g| ==> IsHebrewLetterOrDash(g[i])
    ensures GroupThenOf(g + " של" + rest) == Some(g)
  {
    var c := g + " של" + rest;
    TakeWhileStops(c, g, IsHebrewLetterOrDash);
    var d := c[|g|..];
    assert d == " של" + rest;
    assert d[0] == ' ' && d[1] == 'ש' && d[2] == 'ל';
    AfterGroup(d);
  }

  /** Whitespace and then "של" after the group: the pattern's tail. */
  lemma AfterGroup(d: string)
    requires |d| >= 3 && d[0] == ' ' && d[1] == 'ש' && d[2] == 'ל'
    ensures var e := TrimLeft(d, IsSpace);
            |e| != |d| && OfWord <= e
  {
    TrimLeftStops(d[1..], IsSpace);
    assert TrimLeft(d, IsSpace) == d[1..];
    assert d[1..][..2] == OfWord;
  }

  /** A number word keeps counting when written with leading "and"/"the"
      letters: they are dropped and the collection goes on. */
  lemma PrefixedNumberWord(prefix: string, word: string, rest: seq<string>)
    requires forall i :: 0 <= i < |prefix| ==> IsVavOrHe(prefix[i])
    requires IsNumberWord(word) && word != [] && !IsVavOrHe(word[0])
    ensures NumberWords([prefix + word] + rest) == [word] + NumberWords(rest)
  {
    DropPrefixLetters(prefix, word);
    assert ([prefix + word] + rest)[1..] == rest;
  }

  lemma {:induction false} DropPrefixLetters(prefix: string, word: string)
    requires forall i :: 0 <= i < |prefix| ==> IsVavOrHe(prefix[i])
    requires word != [] && !IsVavOrHe(word[0])
    ensures TrimLeft(prefix + word, IsVavOrHe) == word
  {
    if prefix == [] {
      assert prefix + word == word;
      TrimLeftStops(word, IsVavOrHe);
    } else {
      assert (prefix + word)[1..] == prefix[1..] + word;
      DropPrefixLetters(prefix[1..], word);
    }
  }
}
