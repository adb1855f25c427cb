/** Classifying a paragraph as a speaker announcement ("יו"ר דני כהן:"):
    the cleaned text must have the shape of `speaker_line_pattern` and the
    paragraph must be underlined. */
module SpeakerLine {
  import opened Wrappers
  import opened TextUtil
  import opened Docx
  import opened Formatting

  // ---------------------------------------------------------------------
  // Removing delimited spans: `re.sub(open + '.*?' + close, '', s)`
  // ---------------------------------------------------------------------

  /** Where the lazy `.*?` followed by `close` ends its match when it starts
      at `i`: the first `j >= i` where `close` begins, provided no newline
      lies in between (`.` does not match a newline). */
  function CloseAt(s: string, close: string, i: nat): (r: Option<nat>)
    requires i <= |s|
    decreases |s| - i
    ensures r.Some? ==> i <= r.value && r.value + |close| <= |s| && close <= s[r.value..]
    ensures r.Some? ==> forall k :: i <= k < r.value ==> s[k] != '\n'
  {
    if close <= s[i..] then Some(i)
    else if i == |s| || s[i] == '\n' then None
    else CloseAt(s, close, i + 1)
  }

  /** `re.sub(open + '.*?' + close, '', s)`: scan left to right; where a
      span opens and closes on the same line, drop it and go on after it,
      otherwise keep one character and go on. */
  function RemoveDelimited(s: string, open: string, close: string): (r: string)
    requires open != [] && close != []
    decreases |s|
    ensures |r| <= |s|
    ensures (forall i :: 0 <= i < |s| ==> !(open <= s[i..])) ==> r == s
  {
    if s == [] then []
    else if open <= s then
      assert s[0..] == s;
      match CloseAt(s, close, |open|)
      case Some(j) => RemoveDelimited(s[j + |close|..], open, close)
      case None =>
        var rest := RemoveDelimited(s[1..], open, close);
        assert forall i :: 0 <= i < |s| - 1 ==> s[1..][i..] == s[i + 1..];
        [s[0]] + rest
    else
      var rest := RemoveDelimited(s[1..], open, close);
      assert forall i :: 0 <= i < |s| - 1 ==> s[1..][i..] == s[i + 1..];
      [s[0]] + rest
  }

  /** The lazy scan from `i` ends at the first `close` when no newline
      comes before it. */
  lemma {:induction false} CloseAtFirst(s: string, close: string, i: nat, j: nat)
    requires i <= j && j + |close| <= |s| && close <= s[j..]
    requires forall k :: i <= k < j ==> s[k] != '\n' && !(close <= s[k..])
    ensures CloseAt(s, close, i) == Some(j)
    decreases j - i
  {
    if i < j {
      CloseAtFirst(s, close, i + 1, j);
    }
  }

  /** Text in which no span opens is kept as it is. */
  lemma {:induction false} PrefixKept(a: string, t: string, open: string, close: string)
    requires open != [] && close != []
    requires forall k :: 0 <= k < |a| ==> !(open <= (a + t)[k..])
    ensures RemoveDelimited(a + t, open, close) == a + RemoveDelimited(t, open, close)
    decreases |a|
  {
    if a != [] {
      var s := a + t;
      var tail := a[1..] + t;
      assert s[0..] == s;
      assert !(open <= s);
      assert s[1..] == tail;
      assert RemoveDelimited(s, open, close) == [s[0]] + RemoveDelimited(tail, open, close);
      forall k | 0 <= k < |a| - 1
        ensures !(open <= tail[k..])
      {
        assert tail[k..] == s[k + 1..];
      }
      PrefixKept(a[1..], t, open, close);
      assert a == [a[0]] + a[1..];
      AssocStrings([a[0]], a[1..], RemoveDelimited(t, open, close));
    }
  }

  lemma AssocStrings(x: string, y: string, z: string)
    ensures (x + y) + z == x + (y + z)
  {
  }

  /** A span that opens, holds no newline, and closes at the first `close`
      after the opener is removed whole, and the scan goes on after it. */
  lemma SpanRemoved(open: string, m: string, close: string, rest: string)
    requires open != [] && close != [] && '\n' !in m
    requires forall k :: |open| <= k < |open| + |m| ==> !(close <= (open + m + close + rest)[k..])
    ensures RemoveDelimited(open + m + close + rest, open, close) == RemoveDelimited(rest, open, close)
  {
    var s := open + m + close + rest;
    var j := |open| + |m|;
    assert s[..|open|] == open;
    assert s[j..][..|close|] == close;
    forall k | |open| <= k < j
      ensures s[k] != '\n' && !(close <= s[k..])
    {
      assert s[k] == m[k - |open|];
    }
    CloseAtFirst(s, close, |open|, j);
    assert s[j + |close|..] == rest;
  }

  /** A `<<...>>` tag on one line is removed from the paragraph text, and
      the text before it is kept. */
  lemma TagRemoved(before: string, tag: string, after: string)
    requires '<' !in before && '>' !in tag && '\n' !in tag
    ensures RemoveDelimited(before + "<<" + tag + ">>" + after, "<<", ">>")
            == before + RemoveDelimited(after, "<<", ">>")
  {
    var span := "<<" + tag + ">>" + after;
    var s := before + span;
    assert before + "<<" + tag + ">>" + after == s;
    forall k | 0 <= k < |before|
      ensures !("<<" <= s[k..])
    {
      assert s[k..][0] == before[k];
    }
    PrefixKept(before, span, "<<", ">>");
    forall k | 2 <= k < 2 + |tag|
      ensures !(">>" <= span[k..])
    {
      assert span[k..][0] == tag[k - 2];
    }
    SpanRemoved("<<", tag, ">>", after);
  }

  // ---------------------------------------------------------------------
  // Quote normalisation
  // ---------------------------------------------------------------------

  /** The curly and Hebrew double quotes that become `"`. */
  predicate IsFancyDoubleQuote(c: char) {
    c == '\U{201D}' || c == '\U{201C}' || c == '\U{05F4}'
  }

  /** The curly, grave, acute and Hebrew single quotes that become `'`. */
  predicate IsFancySingleQuote(c: char) {
    c == '\U{2019}' || c == '\U{2018}' || c == '`' || c == '\U{B4}'
    || c == '\U{2BC}' || c == '\U{201B}' || c == '\U{05F3}'
  }

  function StraightQuote(c: char): char {
    if IsFancyDoubleQuote(c) then '"' else if IsFancySingleQuote(c) then '\'' else c
  }

  /** The chain of `replace` calls: each fancy quote becomes its straight
      form and every other character stays. */
  function NormalizeQuotes(s: string): (r: string)
    ensures |r| == |s|
    ensures forall i :: 0 <= i < |s| ==> r[i] == StraightQuote(s[i])
    ensures forall i :: 0 <= i < |r| ==> !IsFancyDoubleQuote(r[i]) && !IsFancySingleQuote(r[i])
  {
    if s == [] then [] else [StraightQuote(s[0])] + NormalizeQuotes(s[1..])
  }

  // ---------------------------------------------------------------------
  // speaker_line_pattern: ^(<+)?(.+?)(\s*\(.*?\))?:(>+)?$
  // ---------------------------------------------------------------------

  predicate IsGt(c: char) { c == '>' }

  /** What `$` allows at the end: the end itself or a final newline. */
  function BeforeEnd(r: string): string {
    if r != [] && r[|r| - 1] == '\n' then r[..|r| - 1] else r
  }

  /** `:(>+)?$`. */
  predicate ColonTail(r: string) {
    var t := TrimRight(BeforeEnd(r), IsGt);
    |t| == 1 && t[0] == ':'
  }

  /** `\s*\(.*?\):(>+)?$`. */
  predicate ParenTail(r: string) {
    var t := TrimRight(BeforeEnd(r), IsGt);
    |t| >= 3 && t[|t| - 2] == ')' && t[|t| - 1] == ':'
    && var u := TrimLeft(t[..|t| - 2], IsSpace);
       u != [] && u[0] == '(' && '\n' !in u[1..]
  }

  /** What may follow the name group for the whole pattern to match. */
  predicate TailMatches(r: string) {
    ColonTail(r) || ParenTail(r)
  }

  /** The lazy `(.+?)` whose first character is `s[q - 1]`: the first end
      `q` (trying `q`, `q + 1`, ...) after which the rest satisfies `tail`,
      as long as the name stays on one line. The scan is stated for any
      `tail`; the pattern uses `TailMatches`. */
  function FirstNameEnd(s: string, q: nat, tail: string -> bool): (r: Option<nat>)
    requires 0 < q
    decreases |s| + 1 - q
    ensures r.Some? ==> q <= r.value <= |s| && tail(s[r.value..])
    ensures r.Some? ==> forall k :: q - 1 <= k < r.value ==> s[k] != '\n'
  {
    if q > |s| || s[q - 1] == '\n' then None
    else if tail(s[q..]) then Some(q)
    else FirstNameEnd(s, q + 1, tail)
  }

  /** The number of leading `<`. */
  function LeadCount(s: string): (n: nat)
    ensures n <= |s| && forall k :: 0 <= k < n ==> s[k] == '<'
  {
    |TakeWhile(s, c => c == '<')|
  }

  /** The greedy `(<+)?` consuming `lead` characters, backtracking to fewer
      when the rest cannot match; the result is the span of the name group.
      Stated for any `tail`, like `FirstNameEnd`. */
  function MatchWithLead(s: string, lead: nat, tail: string -> bool): (r: Option<(nat, nat)>)
    requires lead <= LeadCount(s)
    decreases lead
    ensures r.Some? ==> r.value.0 <= lead && r.value.0 < r.value.1 <= |s|
    ensures r.Some? ==> tail(s[r.value.1..])
    ensures r.Some? ==> forall k :: r.value.0 <= k < r.value.1 ==> s[k] != '\n'
  {
    match FirstNameEnd(s, lead + 1, tail)
    case Some(q) => Some((lead, q))
    case None => if lead == 0 then None else MatchWithLead(s, lead - 1, tail)
  }

  /** `speaker_line_pattern.match(s)`: the name group when the pattern
      matches. */
  function SpeakerPattern(s: string): (r: Option<string>)
    ensures r.Some? ==> r.value != []
  {
    match MatchWithLead(s, LeadCount(s), TailMatches)
    case None => None
    case Some((l, q)) => Some(s[l..q])
  }

  /** The name group is a non-empty piece of one line, preceded only by
      `<` characters and followed by what the rest of the pattern accepts. */
  lemma SpeakerPatternSound(s: string)
    requires SpeakerPattern(s).Some?
    ensures '\n' !in SpeakerPattern(s).value
    ensures exists l :: 0 <= l <= LeadCount(s) && SpeakerPattern(s).value <= s[l..]
                        && TailMatches(s[l + |SpeakerPattern(s).value|..])
  {
    var span := MatchWithLead(s, LeadCount(s), TailMatches).value;
    var l, q := span.0, span.1;
    assert SpeakerPattern(s).value == s[l..q];
    SpanSound(s, l, q);
  }

  /** The pattern can take the name group as `s[l..q]`: after `l` leading
      `<`, a non-empty piece of one line, followed by a rest that `tail`
      accepts (`TailMatches` for the speaker pattern). */
  predicate SpanWorks(s: string, l: nat, q: nat, tail: string -> bool) {
    l <= LeadCount(s) && l < q <= |s|
    && (forall k :: l <= k < q ==> s[k] != '\n')
    && tail(s[q..])
  }

  /** `speaker_line_pattern.match` succeeds exactly when some split works,
      and then it picks the split the regex engine reaches first: the
      most leading `<` consumed by `(<+)?`, then the shortest name group. */
  lemma SpeakerPatternChoice(s: string)
    ensures SpeakerPattern(s).None? <==> forall l: nat, q: nat :: !SpanWorks(s, l, q, TailMatches)
    ensures SpeakerPattern(s).Some? ==>
              exists l: nat, q: nat :: SpanWorks(s, l, q, TailMatches) && SpeakerPattern(s).value == s[l..q]
                && forall l2: nat, q2: nat :: SpanWorks(s, l2, q2, TailMatches) ==> l2 < l || (l2 == l && q <= q2)
  {
    var m := MatchWithLead(s, LeadCount(s), TailMatches);
    MatchWithLeadChoice(s, LeadCount(s), TailMatches);
    if m.Some? {
      var (l, q) := m.value;
      assert SpanWorks(s, l, q, TailMatches) && SpeakerPattern(s).value == s[l..q];
    }
  }

  /** The backtracking over the leading `<` finds the working split with
      the most `<` (up to `lead`), and for it the shortest name group. */
  lemma {:induction false} MatchWithLeadChoice(s: string, lead: nat, tail: string -> bool)
    requires lead <= LeadCount(s)
    decreases lead
    ensures MatchWithLead(s, lead, tail).None? ==>
              forall l: nat, q: nat :: l <= lead ==> !SpanWorks(s, l, q, tail)
    ensures MatchWithLead(s, lead, tail).Some? ==>
              var (l, q) := MatchWithLead(s, lead, tail).value;
              SpanWorks(s, l, q, tail)
              && forall l2: nat, q2: nat :: l2 <= lead && SpanWorks(s, l2, q2, tail) ==> l2 < l || (l2 == l && q <= q2)
  {
    var first := FirstNameEnd(s, lead + 1, tail);
    forall q2: nat | SpanWorks(s, lead, q2, tail)
      ensures first.Some? && first.value <= q2
    {
      FirstNameEndLeast(s, lead + 1, tail, q2);
    }
    if first.None? && lead > 0 {
      MatchWithLeadChoice(s, lead - 1, tail);
    }
  }

  /** The lazy scan stops no later than any end that works. */
  lemma {:induction false} FirstNameEndLeast(s: string, q: nat, tail: string -> bool, e: nat)
    requires 0 < q <= e <= |s|
    requires forall k :: q - 1 <= k < e ==> s[k] != '\n'
    requires tail(s[e..])
    ensures FirstNameEnd(s, q, tail).Some? && FirstNameEnd(s, q, tail).value <= e
    decreases e - q
  {
    if !tail(s[q..]) {
      FirstNameEndLeast(s, q + 1, tail, e);
    }
  }

  lemma SpanSound(s: string, l: nat, q: nat)
    requires l < q <= |s| && TailMatches(s[q..])
    requires forall k :: l <= k < q ==> s[k] != '\n'
    ensures '\n' !in s[l..q] && s[l..q] <= s[l..] && TailMatches(s[l + |s[l..q]|..])
  {
    var name := s[l..q];
    forall k | 0 <= k < |name|
      ensures name[k] != '\n'
    {
      assert name[k] == s[l + k];
    }
    assert s[l..][..|name|] == name;
  }

  /** A plain announcement `NAME:` whose name holds no `:`, `(`, newline
      or leading `<` matches with exactly that name. */
  lemma PlainAnnouncement(name: string)
    requires name != [] && name[0] != '<'
    requires ':' !in name && '(' !in name && '\n' !in name
    ensures SpeakerPattern(name + ":") == Some(name)
  {
    var s := name + ":";
    assert LeadCount(s) == 0 by {
      assert s[0] == name[0];
    }
    assert s[..|name|] == name;
    forall q | 1 <= q < |name|
      ensures !TailMatches(s[q..])
    {
      assert s[q..] == name[q..] + ":";
      NoTailBeforeColon(name[q..]);
    }
    NameEndScan(s, 1, |name|, TailMatches);
    assert s[|name|..] == ":";
  }

  /** A colon after more text, with no `(` and no newline in that text,
      is not a tail: the name group cannot end before it. */
  lemma NoTailBeforeColon(w: string)
    requires w != [] && ':' !in w && '(' !in w && '\n' !in w
    ensures !TailMatches(w + ":")
  {
    var r := w + ":";
    assert BeforeEnd(r) == r;
    assert TrimRight(r, IsGt) == r;
    assert r[0] == w[0];
    assert r[..|r| - 2] == w[..|w| - 1];
    var u := TrimLeft(r[..|r| - 2], IsSpace);
    assert u == [] || u[0] in w[..|w| - 1] by {
      if u != [] {
        TrimLeftSuffix(r[..|r| - 2], IsSpace);
        assert u[0] == w[..|w| - 1][|w| - 1 - |u|];
      }
    }
  }

  /** When no earlier end works, the lazy scan reaches `last`. */
  lemma {:induction false} NameEndScan(s: string, q: nat, last: nat, tail: string -> bool)
    requires 0 < q <= last <= |s|
    requires forall k :: q - 1 <= k < last ==> s[k] != '\n'
    requires forall k :: q <= k < last ==> !tail(s[k..])
    requires tail(s[last..])
    ensures FirstNameEnd(s, q, tail) == Some(last)
    decreases last - q
  {
    if q < last {
      NameEndScan(s, q + 1, last, tail);
    }
  }

  // ---------------------------------------------------------------------
  // is_speaker_line
  // ---------------------------------------------------------------------

  /** The text the parser works with: stripped, with `<<...>>` spans
      removed, stripped again, and with straight quotes. */
  function CleanedText(p: Paragraph): string {
    NormalizeQuotes(Strip(RemoveDelimited(Strip(p.text), "<<", ">>")))
  }

  /** `is_speaker_line`: the name group when the cleaned text has the
      announcement shape and the paragraph is underlined, and the cleaned
      text in every case. */
  function IsSpeakerLine(p: Paragraph): (r: (Option<string>, string))
    ensures r.1 == CleanedText(p)
    ensures r.0.Some? <==> SpeakerPattern(CleanedText(p)).Some? && ParagraphUnderlined(p)
    ensures r.0.Some? ==> r.0 == SpeakerPattern(CleanedText(p))
  {
    var text := CleanedText(p);
    var m := SpeakerPattern(text);
    if m.Some? && ParagraphUnderlined(p) then (m, text) else (None, text)
  }
}
