/** Normalising the name group of a speaker announcement to the speaker's
    name: parenthesised remarks are removed, and the name is taken as the
    last few words, walking backwards until a word that looks like part
    of a title or office ("minister of ...", "Dr.", "the chairman"). */
module SpeakerName {
  import opened Wrappers
  import opened TextUtil
  import opened SpeakerLine

  /** Words that belong to an office ("in the ministry", "for security",
      ...): the name cannot reach back past them. */
  const StopWords: set<string> := {
    "במשרד", "בממשלה", "ביטחון", "בראש",
    "לביטחון", "למשטרה", "לחקלאות", "פנים", "לתעשייה", "והמסחר", "לסביבה", "לאוצר", "לתחבורה",
    "לתקשורת", "מודיעין", "בדרכים",
    "לתשתיות", "ללאומיות", "לעלייה", "ולקליטה", "לענייני", "כלכלה", "וחברה", "למנכ\"לית", "למנכ\"ל"}

  /** Titles that come before a name (Dr., Prof., Adv., Rabbi, ranks,
      Mr., Mrs., the chairman). */
  const ExcludedPrefixes: set<string> := {
    "ד\"ר", "פרופ'", "עו\"ד", "רב", "ניצב", "היו\"ר", "נצ\"מ", "סא\"ל", "רס\"ן", "תא\"ל",
    "אלוף", "מר",
    "גב'", "גב\"'"}

  /** Given names that start with the letter ה, which otherwise marks a
      definite title word ("the minister"). */
  const HeNames: set<string> := {
    "האנה", "האני", "הארי", "הגר", "הדס", "הדסה", "הדר", "הדרה", "הוגו", "הוד", "הודיה", "הולי",
    "הורדוס", "היידי", "היילי", "הילאי", "הילדה", "הילה", "הילור", "הילי", "הילית", "הילל", "הילרי",
    "הינדל", "הלגה", "הלל", "הללי", "הלן", "הלנה", "הלני", "הני", "הניה", "הנרי", "הנריטה", "הנרייטה",
    "הענדל", "העני", "הקטור", "הראל", "הראלה", "הרברט", "הרולד", "הרמיוני", "הרן", "הרצל", "הרשל"}

  /** The most words a name may have. */
  const MaxNameWords: nat := 5

  /** `word.startswith('וה')` ("and the ..."). */
  predicate StartsWithVavHe(w: string) { |w| >= 2 && w[0] == 'ו' && w[1] == 'ה' }

  /** `word.startswith('ה')` ("the ..."). */
  predicate StartsWithHe(w: string) { |w| >= 1 && w[0] == 'ה' }

  /** The four conditions that end the backward walk at `w` once `taken`
      words belong to the name. */
  predicate EndsName(w: string, taken: nat) {
    w in StopWords || w in ExcludedPrefixes || StartsWithVavHe(w)
    || (taken >= 2 && StartsWithHe(w) && w !in HeNames)
  }

  /** The walk goes on past the `j`-th word from the end, with `j` words
      taken, when `ends` does not stop it there. */
  predicate Continues(ws: seq<string>, ends: (string, nat) -> bool, j: nat)
    requires j < |ws|
  {
    !ends(ws[|ws| - 1 - j], j)
  }

  /** The number of trailing words of `ws` the walk takes, once it has
      taken the last `k`: it stops at the start of the list, at a word
      where `ends` holds, or after the fifth word. */
  function TakenFrom(ws: seq<string>, ends: (string, nat) -> bool, k: nat): (n: nat)
    requires k <= |ws| && k <= MaxNameWords
    decreases |ws| - k
    ensures k <= n <= |ws| && n <= MaxNameWords
    ensures forall j :: k <= j < n ==> Continues(ws, ends, j)
    ensures n == |ws| || n == MaxNameWords || !Continues(ws, ends, n)
  {
    if k == |ws| || k == MaxNameWords || !Continues(ws, ends, k) then k
    else TakenFrom(ws, ends, k + 1)
  }

  /** The words the backward walk collects, for any stopping test `ends`. */
  function NameSuffix(ws: seq<string>, ends: (string, nat) -> bool): seq<string> {
    ws[|ws| - TakenFrom(ws, ends, 0)..]
  }

  /** The collected words are a suffix of at most five words, in their
      order; the walk stopped on none of them, and it stopped at the start
      of the list, after five words, or at the word before them. */
  lemma NameSuffixSound(ws: seq<string>, ends: (string, nat) -> bool)
    ensures var name := NameSuffix(ws, ends);
            |name| <= |ws| && |name| <= MaxNameWords && name == ws[|ws| - |name|..]
            && (forall i :: 0 <= i < |name| ==> !ends(name[i], |name| - 1 - i))
            && (|name| == |ws| || |name| == MaxNameWords || ends(ws[|ws| - 1 - |name|], |name|))
  {
    var name := NameSuffix(ws, ends);
    forall i | 0 <= i < |name|
      ensures !ends(name[i], |name| - 1 - i)
    {
      assert Continues(ws, ends, |name| - 1 - i);
      assert name[i] == ws[|ws| - 1 - (|name| - 1 - i)];
    }
  }

  /** The words of the name: the backward walk stopped by `EndsName`. */
  function NameWords(ws: seq<string>): seq<string> {
    NameSuffix(ws, EndsName)
  }

  /** No word of the name is a stop word, a title, or starts with "and
      the"; beyond the last two, a word starting with ה is a given name. */
  lemma NameWordsClean(ws: seq<string>, i: nat)
    requires i < |NameWords(ws)|
    ensures var w := NameWords(ws)[i];
            w !in StopWords && w !in ExcludedPrefixes && !StartsWithVavHe(w)
            && (i < |NameWords(ws)| - 2 && StartsWithHe(w) ==> w in HeNames)
  {
    NameSuffixSound(ws, EndsName);
    var name := NameWords(ws);
    assert !EndsName(name[i], |name| - 1 - i);
  }

  predicate IsColon(c: char) { c == ':' }

  predicate IsDash(c: char) { c == '-' }

  /** `clean_speaker_name`: the name words joined by single spaces, then
      `rstrip(':')` and `strip('-')`. */
  function CleanedName(text: string): string {
    var joined := Join(NameWords(Words(Strip(text))), " ");
    var noColon := TrimRight(joined, IsColon);
    TrimRight(TrimLeft(noColon, IsDash), IsDash)
  }

  /** `clean_speaker_name` as the source writes it: split, walk backwards
      collecting the name, reverse, join and trim. */
  method CleanSpeakerName(text: string) returns (name: string)
    ensures name == CleanedName(text)
  {
    var words := Words(Strip(text));
    var nameWords := CollectNameWords(words, EndsName);
    name := Join(Reversed(nameWords), " ");
    name := TrimRight(name, IsColon);
    name := TrimRight(TrimLeft(name, IsDash), IsDash);
  }

  /** The loop of `clean_speaker_name` over the reversed words, appending
      to the name until the stopping test `ends` breaks it or five words
      are taken; the words come out last word first. */
  method CollectNameWords(words: seq<string>, ends: (string, nat) -> bool) returns (nameWords: seq<string>)
    ensures Reversed(nameWords) == NameSuffix(words, ends)
  {
    var reversedWords := Reversed(words);
    nameWords := [];
    var i := 0;
    while i < |reversedWords|
      invariant i <= |words| && i < MaxNameWords
      invariant nameWords == reversedWords[..i]
      invariant forall j :: 0 <= j < i ==> Continues(words, ends, j)
    {
      var word := reversedWords[i];
      if ends(word, |nameWords|) {
        assert !Continues(words, ends, i);
        break;
      }
      nameWords := nameWords + [word];
      i := i + 1;
      if |nameWords| >= MaxNameWords {
        break;
      }
    }
    WalkStopsAt(words, ends, i);
    ReversedPrefix(words, i);
  }

  /** The walk takes exactly `n` words when it goes on past each of them
      and then stops. */
  lemma WalkStopsAt(ws: seq<string>, ends: (string, nat) -> bool, n: nat)
    requires n <= |ws| && n <= MaxNameWords
    requires forall j :: 0 <= j < n ==> Continues(ws, ends, j)
    requires n == |ws| || n == MaxNameWords || !Continues(ws, ends, n)
    ensures TakenFrom(ws, ends, 0) == n
  {
    var k := n;
    while k > 0
      invariant 0 <= k <= n
      invariant TakenFrom(ws, ends, k) == n
    {
      k := k - 1;
    }
  }

  /** Reversing the first `i` reversed words gives the last `i` words. */
  lemma ReversedPrefix(words: seq<string>, i: nat)
    requires i <= |words|
    ensures Reversed(Reversed(words)[..i]) == words[|words| - i..]
  {
    var r := Reversed(words)[..i];
    var t := words[|words| - i..];
    forall j | 0 <= j < i
      ensures Reversed(r)[j] == t[j]
    {
      assert Reversed(r)[j] == r[i - 1 - j];
      assert r[i - 1 - j] == words[|words| - 1 - (i - 1 - j)];
    }
  }

  /** `ws[::-1]`. */
  function Reversed(ws: seq<string>): (r: seq<string>)
    ensures |r| == |ws| && forall i :: 0 <= i < |ws| ==> r[i] == ws[|ws| - 1 - i]
  {
    seq(|ws|, i requires 0 <= i < |ws| => ws[|ws| - 1 - i])
  }

  /** The joined name splits back into exactly the name words: joining
      with single spaces loses nothing. */
  lemma JoinedNameSplits(ws: seq<string>)
    requires AllPlain(ws)
    ensures Words(Join(NameWords(ws), " ")) == NameWords(ws)
  {
    NameSuffixSound(ws, EndsName);
    var name := NameWords(ws);
    forall i | 0 <= i < |name|
      ensures Plain(name[i])
    {
      assert name[i] == ws[|ws| - |name| + i];
    }
    WordsOfJoin(name);
  }

  /** `extract_speaker_name`: the name group stripped, with `(...)` spans
      removed and stripped again, then cleaned. */
  function ExtractSpeakerName(group: string): string {
    CleanedName(Strip(RemoveDelimited(Strip(group), "(", ")")))
  }

  /** A parenthesised remark after the name, on the same line, is removed
      with its parentheses. */
  lemma RemarkRemoved(name: string, remark: string)
    requires '(' !in name && ')' !in remark && '\n' !in remark
    ensures RemoveDelimited(name + "(" + remark + ")", "(", ")") == name
  {
    var span := "(" + remark + ")" + [];
    assert name + "(" + remark + ")" == name + span;
    NoParenOpens(name, span);
    PrefixKept(name, span, "(", ")");
    NoParenCloses(remark, []);
    SpanRemoved("(", remark, ")", []);
    assert name + [] == name;
  }

  /** No `(` opens inside a text without one. */
  lemma NoParenOpens(a: string, t: string)
    requires '(' !in a
    ensures forall k :: 0 <= k < |a| ==> !("(" <= (a + t)[k..])
  {
    forall k | 0 <= k < |a|
      ensures !("(" <= (a + t)[k..])
    {
      assert (a + t)[k..][0] == a[k];
    }
  }

  /** No `)` closes inside a remark without one. */
  lemma NoParenCloses(remark: string, rest: string)
    requires ')' !in remark
    ensures forall k :: 1 <= k < 1 + |remark| ==> !(")" <= ("(" + remark + ")" + rest)[k..])
  {
    var s := "(" + remark + ")" + rest;
    forall k | 1 <= k < 1 + |remark|
      ensures !(")" <= s[k..])
    {
      assert s[k..][0] == remark[k - 1];
    }
  }

  /** `extract_speaker_name` of a name followed by a parenthesised remark
      on the same line: the remark goes, and what is cleaned is the name,
      stripped. */
  lemma RemarkedNameExtracted(name: string, remark: string)
    requires '(' !in name && ')' !in remark && '\n' !in remark
    ensures ExtractSpeakerName(name + "(" + remark + ")") == CleanedName(Strip(name))
  {
    var span := "(" + remark + ")";
    assert name + "(" + remark + ")" == name + span;
    var l := TrimLeft(name, IsSpace);
    StripBeforeSpan(name, span);
    TrimLeftSuffix(name, IsSpace);
    assert '(' !in l;
    assert l + span == l + "(" + remark + ")";
    RemarkRemoved(l, remark);
    StripAfterTrimLeft(name);
  }

  /** Stripping a text that ends with a span opened and closed by
      non-whitespace strips only the front part on the left. */
  lemma StripBeforeSpan(a: string, span: string)
    requires span != [] && !IsSpace(span[0]) && !IsSpace(span[|span| - 1])
    ensures Strip(a + span) == TrimLeft(a, IsSpace) + span
  {
    var l := TrimLeft(a, IsSpace);
    TrimLeftAppend(a, span, IsSpace);
    var t := l + span;
    assert t[|t| - 1] == span[|span| - 1];
  }

  /** Stripping the left first changes nothing. */
  lemma StripAfterTrimLeft(a: string)
    ensures Strip(TrimLeft(a, IsSpace)) == Strip(a)
  {
    var l := TrimLeft(a, IsSpace);
    if l != [] {
      TrimLeftStops(l, IsSpace);
    }
  }
}
