/** Character classes and the Python string primitives (`strip`, `split`,
    `join`, `in`, `int`) that the transcript parser is built from.

    Character classes follow Python's definitions where they are finite
    (whitespace, the explicit ranges of the parser's regular expressions);
    `str.isdigit`, `str.isalpha` and `\w` are narrowed to ASCII and the
    Hebrew block; README.md lists this narrowing under what the model
    leaves out. */
module TextUtil {

  // ---------------------------------------------------------------------
  // Character classes
  // ---------------------------------------------------------------------

  /** Python's `str.isspace()`, which is also what `\s` and `str.split()`
      treat as whitespace. */
  predicate IsSpace(c: char) {
    c == ' ' || ('\t' <= c <= '\r') || ('\U{1C}' <= c <= '\U{1F}')
    || c == '\U{85}' || c == '\U{A0}' || c == '\U{1680}'
    || ('\U{2000}' <= c <= '\U{200A}') || c == '\U{2028}' || c == '\U{2029}'
    || c == '\U{202F}' || c == '\U{205F}' || c == '\U{3000}'
  }

  predicate NotSpace(c: char) { !IsSpace(c) }

  /** `\d` and `str.isdigit()`, narrowed to ASCII digits. */
  predicate IsDigit(c: char) { '0' <= c <= '9' }

  /** The class `[A-Za-z]`. */
  predicate IsAsciiLetter(c: char) { ('A' <= c <= 'Z') || ('a' <= c <= 'z') }

  /** The class `[א-ת]`: the 27 Hebrew letters, final forms included. */
  predicate IsHebrewLetter(c: char) { 'א' <= c <= 'ת' }

  /** The class `[֐-׿]`: the whole Hebrew block, points and
      punctuation included. */
  predicate IsHebrewBlock(c: char) { '\U{0590}' <= c <= '\U{05FF}' }

  /** `str.isalpha()`, narrowed to ASCII letters and the Hebrew letters
      (the Yiddish ligatures U+05EF-U+05F2 are letters too). */
  predicate IsAlpha(c: char) {
    IsAsciiLetter(c) || IsHebrewLetter(c) || ('\U{05EF}' <= c <= '\U{05F2}')
  }

  /** `\w`: alphanumerics and the underscore. */
  predicate IsWordChar(c: char) { IsAlpha(c) || IsDigit(c) || c == '_' }

  predicate NoSpace(s: string) { forall i :: 0 <= i < |s| ==> !IsSpace(s[i]) }

  predicate AllDigits(s: string) { forall i :: 0 <= i < |s| ==> IsDigit(s[i]) }

  predicate AllSpace(s: string) { forall i :: 0 <= i < |s| ==> IsSpace(s[i]) }

  /** Every character of `s` satisfies `p`. */
  predicate Every(s: string, p: char -> bool) { forall i :: 0 <= i < |s| ==> p(s[i]) }

  // ---------------------------------------------------------------------
  // Trimming and scanning
  // ---------------------------------------------------------------------

  /** `s.lstrip(chars)`: drop the longest prefix whose characters satisfy `drop`. */
  function TrimLeft(s: string, drop: char -> bool): (r: string)
    ensures |r| <= |s|
    ensures r == [] || !drop(r[0])
  {
    if |s| > 0 && drop(s[0]) then TrimLeft(s[1..], drop) else s
  }

  /** What `TrimLeft` leaves is a suffix of its input. */
  lemma {:induction false} TrimLeftSuffix(s: string, drop: char -> bool)
    ensures TrimLeft(s, drop) == s[|s| - |TrimLeft(s, drop)|..]
  {
    if |s| > 0 && drop(s[0]) {
      TrimLeftSuffix(s[1..], drop);
      assert s[1..][|s| - 1 - |TrimLeft(s, drop)|..] == s[|s| - |TrimLeft(s, drop)|..];
    }
  }

  /** Every character `TrimLeft` removes is one it drops. */
  lemma {:induction false} TrimLeftDrops(s: string, drop: char -> bool)
    ensures forall i :: 0 <= i < |s| - |TrimLeft(s, drop)| ==> drop(s[i])
  {
    if |s| > 0 && drop(s[0]) {
      TrimLeftDrops(s[1..], drop);
      assert forall i :: 1 <= i < |s| ==> s[i] == s[1..][i - 1];
    }
  }

  /** `s.rstrip(chars)`: drop the longest suffix whose characters satisfy `drop`. */
  function TrimRight(s: string, drop: char -> bool): (r: string)
    ensures |r| <= |s| && r == s[..|r|]
    ensures r == [] || !drop(r[|r| - 1])
  {
    if |s| > 0 && drop(s[|s| - 1]) then TrimRight(s[..|s| - 1], drop) else s
  }

  /** A character that is not dropped survives `TrimLeft`. */
  lemma {:induction false} TrimLeftKeeps(s: string, drop: char -> bool, i: nat)
    requires i < |s| && !drop(s[i])
    ensures TrimLeft(s, drop) != []
  {
    if drop(s[0]) {
      TrimLeftKeeps(s[1..], drop, i - 1);
    }
  }

  /** A string whose first character is not dropped survives `TrimRight`. */
  lemma {:induction false} TrimRightKeeps(s: string, drop: char -> bool)
    requires s != [] && !drop(s[0])
    ensures TrimRight(s, drop) != []
  {
    if |s| > 1 && drop(s[|s| - 1]) {
      TrimRightKeeps(s[..|s| - 1], drop);
    }
  }

  /** Trimming stops at the first character that is not dropped. */
  lemma TrimLeftStops(s: string, drop: char -> bool)
    requires s != [] && !drop(s[0])
    ensures TrimLeft(s, drop) == s
  {
  }

  /** Trimming a text that continues with a kept character trims only the
      front part. */
  lemma {:induction false} TrimLeftAppend(a: string, b: string, drop: char -> bool)
    requires b != [] && !drop(b[0])
    ensures TrimLeft(a + b, drop) == TrimLeft(a, drop) + b
  {
    if a == [] {
      assert a + b == b;
    } else {
      assert (a + b)[0] == a[0];
      if drop(a[0]) {
        assert (a + b)[1..] == a[1..] + b;
        TrimLeftAppend(a[1..], b, drop);
      }
    }
  }

  /** Python's `str.strip()`. */
  function Strip(s: string): string {
    TrimRight(TrimLeft(s, IsSpace), IsSpace)
  }

  /** The longest prefix of `s` whose characters satisfy `keep`. */
  function TakeWhile(s: string, keep: char -> bool): (r: string)
    ensures |r| <= |s| && r == s[..|r|]
    ensures forall i :: 0 <= i < |r| ==> keep(r[i])
    ensures |r| == |s| || !keep(s[|r|])
  {
    if |s| > 0 && keep(s[0]) then [s[0]] + TakeWhile(s[1..], keep) else []
  }

  /** The characters of `s` that satisfy `keep`, in order (`re.sub` of the
      complementary class with ''). */
  function Filter(keep: char -> bool, s: string): (r: string)
    ensures |r| <= |s|
  {
    if s == [] then [] else (if keep(s[0]) then [s[0]] else []) + Filter(keep, s[1..])
  }

  /** Each character replaced by its image under `f`. */
  function Map(f: char -> char, s: string): (r: string)
    ensures |r| == |s| && forall i :: 0 <= i < |s| ==> r[i] == f(s[i])
  {
    if s == [] then [] else [f(s[0])] + Map(f, s[1..])
  }

  /** Python's `sub in s`. */
  predicate Contains(s: string, sub: string) {
    exists i | 0 <= i <= |s| :: sub <= s[i..]
  }

  // ---------------------------------------------------------------------
  // Splitting and joining
  // ---------------------------------------------------------------------

  /** Python's `str.split()` without arguments: the maximal runs of
      non-whitespace characters. */
  function Words(s: string): (ws: seq<string>)
    decreases |s|
  {
    if s == [] then []
    else if IsSpace(s[0]) then Words(s[1..])
    else
      var w := TakeWhile(s, NotSpace);
      [w] + Words(s[|w|..])
  }

  /** Python's `sep.join(ws)`. */
  function Join(ws: seq<string>, sep: string): string {
    if |ws| == 0 then []
    else if |ws| == 1 then ws[0]
    else ws[0] + sep + Join(ws[1..], sep)
  }

  /** Joining keeps a property that the pieces and the separator have. */
  lemma {:induction false} JoinEvery(ws: seq<string>, sep: string, p: char -> bool)
    requires forall k :: 0 <= k < |ws| ==> Every(ws[k], p)
    requires Every(sep, p)
    ensures Every(Join(ws, sep), p)
  {
    if |ws| > 1 {
      JoinEvery(ws[1..], sep, p);
      var rest := Join(ws[1..], sep);
      EveryAppend(ws[0], sep, p);
      EveryAppend(ws[0] + sep, rest, p);
    }
  }

  lemma EveryAppend(a: string, b: string, p: char -> bool)
    requires Every(a, p) && Every(b, p)
    ensures Every(a + b, p)
  {
  }

  /** Python's `s.split(sep)` for a one-character separator; joining the
      pieces back with the separator gives `s` again. */
  function SplitOn(s: string, sep: char): (parts: seq<string>)
    decreases |s|
    ensures |parts| >= 1
    ensures Join(parts, [sep]) == s
    ensures forall i :: 0 <= i < |parts| ==> sep !in parts[i]
  {
    var w := TakeWhile(s, c => c != sep);
    if |w| == |s| then [s]
    else
      var rest := SplitOn(s[|w| + 1..], sep);
      assert s == w + [sep] + s[|w| + 1..];
      [w] + rest
  }

  /** The strings of `ss` one after another. */
  function Concat(ss: seq<string>): string {
    if ss == [] then [] else ss[0] + Concat(ss[1..])
  }

  // ---------------------------------------------------------------------
  // Decimal numerals
  // ---------------------------------------------------------------------

  function DigitValue(c: char): nat
    requires IsDigit(c)
  {
    c as int - '0' as int
  }

  /** Python's `int(d)` on a string of ASCII digits. */
  function DigitsValue(d: string): nat
    requires AllDigits(d)
  {
    if d == [] then 0 else DigitsValue(d[..|d| - 1]) * 10 + DigitValue(d[|d| - 1])
  }

  /** `str(n)`: the canonical decimal spelling of `n`. */
  function DecimalString(n: nat): (d: string)
    ensures |d| >= 1 && AllDigits(d)
  {
    var last := ((n % 10) + '0' as int) as char;
    if n < 10 then [last] else DecimalString(n / 10) + [last]
  }

  // ---------------------------------------------------------------------
  // Lemmas
  // ---------------------------------------------------------------------

  /** Reading back the decimal spelling of a number gives the number. */
  lemma {:induction false} DecimalRoundTrip(n: nat)
    ensures DigitsValue(DecimalString(n)) == n
  {
    var d := DecimalString(n);
    if n >= 10 {
      DecimalRoundTrip(n / 10);
      assert d[..|d| - 1] == DecimalString(n / 10);
    }
  }

  lemma {:induction false} ConcatAppend(a: seq<string>, b: seq<string>)
    ensures Concat(a + b) == Concat(a) + Concat(b)
  {
    if a != [] {
      ConcatAppend(a[1..], b);
      calc {
        Concat(a + b);
        (a + b)[0] + Concat((a + b)[1..]);
        { assert (a + b)[1..] == a[1..] + b; }
        a[0] + (Concat(a[1..]) + Concat(b));
        (a[0] + Concat(a[1..])) + Concat(b);
      }
    } else {
      assert a + b == b;
    }
  }

  lemma {:induction false} FilterAppend(keep: char -> bool, a: string, b: string)
    ensures Filter(keep, a + b) == Filter(keep, a) + Filter(keep, b)
  {
    if a != [] {
      FilterAppend(keep, a[1..], b);
      var h := if keep(a[0]) then [a[0]] else [];
      calc {
        Filter(keep, a + b);
        h + Filter(keep, (a + b)[1..]);
        { assert (a + b)[1..] == a[1..] + b; }
        h + (Filter(keep, a[1..]) + Filter(keep, b));
        (h + Filter(keep, a[1..])) + Filter(keep, b);
      }
    } else {
      assert a + b == b;
    }
  }

  /** Characters that `keep` rejects contribute nothing to a filter. */
  lemma {:induction false} FilterNone(keep: char -> bool, s: string)
    requires forall i :: 0 <= i < |s| ==> !keep(s[i])
    ensures Filter(keep, s) == []
  {
    if s != [] {
      FilterNone(keep, s[1..]);
    }
  }

  /** Stripping whitespace loses no other character. */
  lemma StripKeepsText(s: string)
    ensures Filter(NotSpace, Strip(s)) == Filter(NotSpace, s)
  {
    TrimLeftKeepsText(s);
    TrimRightKeepsText(TrimLeft(s, IsSpace));
  }

  lemma {:induction false} TrimLeftKeepsText(s: string)
    ensures Filter(NotSpace, TrimLeft(s, IsSpace)) == Filter(NotSpace, s)
  {
    if |s| > 0 && IsSpace(s[0]) {
      TrimLeftKeepsText(s[1..]);
    }
  }

  lemma {:induction false} TrimRightKeepsText(s: string)
    ensures Filter(NotSpace, TrimRight(s, IsSpace)) == Filter(NotSpace, s)
  {
    if |s| > 0 && IsSpace(s[|s| - 1]) {
      var init := s[..|s| - 1];
      TrimRightKeepsText(init);
      assert s == init + [s[|s| - 1]];
      FilterAppend(NotSpace, init, [s[|s| - 1]]);
    }
  }

  /** A stripped string starts and ends with non-whitespace, so stripping
      again changes nothing. */
  lemma StripIdempotent(s: string)
    ensures var r := Strip(s); r == [] || (!IsSpace(r[0]) && !IsSpace(r[|r| - 1]))
    ensures Strip(Strip(s)) == Strip(s)
  {
    var l := TrimLeft(s, IsSpace);
    var r := Strip(s);
    if r != [] {
      assert r[0] == l[0];
    }
  }

  /** Splitting space-joined words on whitespace gives the words back, when
      every word is non-empty and holds no whitespace. */
  lemma {:induction false} WordsOfJoin(ws: seq<string>)
    requires AllPlain(ws)
    ensures Words(Join(ws, " ")) == ws
  {
    if |ws| == 0 {
      assert Join(ws, " ") == [];
    } else if |ws| == 1 {
      var w := ws[0];
      assert Join(ws, " ") == w;
      WordsCons(w, []);
      assert w + [] == w;
      assert ws == [w];
    } else {
      var rest := Join(ws[1..], " ");
      var tail := " " + rest;
      assert tail[1..] == rest;
      calc {
        Words(Join(ws, " "));
        { assert Join(ws, " ") == ws[0] + tail; }
        Words(ws[0] + tail);
        { WordsCons(ws[0], tail); }
        [ws[0]] + Words(tail);
        { WordsSkipSpace(tail); }
        [ws[0]] + Words(rest);
        { WordsOfJoin(ws[1..]); }
        [ws[0]] + ws[1..];
        ws;
      }
    }
  }

  /** A word as `str.split()` produces it: non-empty, without whitespace. */
  predicate Plain(w: string) { w != [] && NoSpace(w) }

  predicate AllPlain(ws: seq<string>) { forall i :: 0 <= i < |ws| ==> Plain(ws[i]) }

  /** Every word of a split is non-empty and free of whitespace. */
  lemma {:induction false} WordsArePlain(s: string)
    decreases |s|
    ensures AllPlain(Words(s))
  {
    if s != [] && IsSpace(s[0]) {
      WordsArePlain(s[1..]);
    } else if s != [] {
      var w := TakeWhile(s, NotSpace);
      var rest := s[|w|..];
      assert Words(s) == [w] + Words(rest);
      assert w != [] by {
        assert NotSpace(s[0]);
      }
      WordsArePlain(rest);
      PlainCons(w, Words(rest));
    }
  }

  lemma PlainCons(w: string, ws: seq<string>)
    requires Plain(w) && AllPlain(ws)
    ensures AllPlain([w] + ws)
  {
    assert forall i :: 1 <= i < |ws| + 1 ==> ([w] + ws)[i] == ws[i - 1];
  }

  lemma WordsSkipSpace(s: string)
    requires s != [] && IsSpace(s[0])
    ensures Words(s) == Words(s[1..])
  {
  }

  /** A word followed by whitespace (or nothing) is the first word. */
  lemma WordsCons(w: string, tail: string)
    requires w != [] && NoSpace(w)
    requires tail == [] || IsSpace(tail[0])
    ensures Words(w + tail) == [w] + Words(tail)
  {
    var s := w + tail;
    assert s[0] == w[0];
    TakeWhileStops(s, w, NotSpace);
    assert s[|w|..] == tail;
  }

  /** `TakeWhile` stops exactly at the end of a prefix that satisfies the
      predicate throughout and is followed by a character that does not. */
  lemma {:induction false} TakeWhileStops(s: string, w: string, keep: char -> bool)
    requires w <= s
    requires forall i :: 0 <= i < |w| ==> keep(w[i])
    requires |w| == |s| || !keep(s[|w|])
    ensures TakeWhile(s, keep) == w
  {
    if w != [] {
      TakeWhileStops(s[1..], w[1..], keep);
    }
  }
}
