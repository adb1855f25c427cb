/** Conversion of Hebrew number words ("שלוש מאות ארבעים") to an integer,
    as the parser does when a protocol announces its session number in
    words. */
module HebrewNumerals {
  import opened Wrappers

  /** The table `hebrew_numbers`: cardinal and ordinal number words,
      masculine and feminine, with their values. */
  const Table: map<string, nat> := map[
    "אחד" := 1, "אחת" := 1, "ראשון" := 1,
    "שניים" := 2, "שני" := 2, "שתיים" := 2, "שתי" := 2, "שניה" := 2,
    "שלושה" := 3, "שלוש" := 3, "שלישי" := 3,
    "ארבעה" := 4, "ארבע" := 4, "רביעי" := 4,
    "חמישה" := 5, "חמש" := 5, "חמישי" := 5,
    "שישה" := 6, "שש" := 6, "שישי" := 6,
    "שבעה" := 7, "שבע" := 7, "שביעי" := 7,
    "שמונה" := 8, "שמיני" := 8,
    "תשעה" := 9, "תשע" := 9, "תשיעי" := 9,
    "עשרה" := 10, "עשר" := 10, "עשירי" := 10,
    "עשרים" := 20, "שלושים" := 30, "ארבעים" := 40, "חמישים" := 50,
    "שישים" := 60, "שבעים" := 70, "שמונים" := 80, "תשעים" := 90,
    "מאות" := 100,
    "מאה" := 100, "מאתיים" := 200, "אלף" := 1000]

  /** `hebrew_numbers.get(word)`. */
  function NumberValue(word: string): Option<nat> {
    if word in Table then Some(Table[word]) else None
  }

  /** `word in hebrew_numbers`. */
  predicate IsNumberWord(word: string) { NumberValue(word).Some? }

  /** "hundreds": the one word that rescales the previous word instead of
      adding to the total. */
  const Hundreds := "מאות"

  /** "Hundreds" is in the table, worth 100. */
  lemma HundredsKnown()
    ensures NumberValue(Hundreds) == Some(100)
  {
    var h := "מאות";
    assert h in Table && Table[h] == 100;
    assert NumberValue(h) == Some(100);
    assert Hundreds == h;
  }

  /** The two variables of the conversion loop: the running total and the
      value of the last number word added. */
  datatype Accumulator = Accumulator(total: int, cur: int)

  predicate AllKnown(words: seq<string>) {
    forall i :: 0 <= i < |words| ==> IsNumberWord(words[i])
  }

  /** One iteration of the conversion loop on a word of the table. */
  function Step(a: Accumulator, word: string): Accumulator
    requires IsNumberWord(word)
  {
    if word == Hundreds then Accumulator(a.total - a.cur + a.cur * 100, a.cur)
    else Accumulator(a.total + NumberValue(word).value, NumberValue(word).value)
  }

  /** The state of the loop after consuming `words`, all of them in the table. */
  function Accumulate(words: seq<string>): Accumulator
    requires AllKnown(words)
  {
    if words == [] then Accumulator(0, 0)
    else Step(Accumulate(words[..|words| - 1]), words[|words| - 1])
  }

  /** How many leading words the loop consumes before it meets a word that
      is not in the table. */
  function KnownPrefix(words: seq<string>): (k: nat)
    ensures k <= |words| && AllKnown(words[..k])
    ensures k == |words| || !IsNumberWord(words[k])
  {
    if words == [] || !IsNumberWord(words[0]) then 0
    else
      var k := 1 + KnownPrefix(words[1..]);
      KnownCons(words, k);
      k
  }

  lemma KnownCons(words: seq<string>, k: nat)
    requires 1 <= k <= |words| && IsNumberWord(words[0])
    requires AllKnown(words[1..][..k - 1])
    ensures AllKnown(words[..k])
  {
    forall i | 0 <= i < k
      ensures IsNumberWord(words[..k][i])
    {
      if i > 0 {
        assert words[..k][i] == words[1..][..k - 1][i - 1];
      }
    }
  }

  /** `hebrew_words_to_int`: the total over the leading number words, or
      None when it is not positive. The total is never negative, so None
      means exactly that the total is zero. */
  function WordsToInt(words: seq<string>): (r: Option<nat>)
    ensures r.None? <==> Accumulate(words[..KnownPrefix(words)]).total == 0
    ensures r.Some? ==> r.value > 0
  {
    var known := words[..KnownPrefix(words)];
    AccumulatorBounds(known);
    var a := Accumulate(known);
    if a.total > 0 then Some(a.total) else None
  }

  /** The conversion loop of the source, proved to compute `WordsToInt`. */
  method HebrewWordsToInt(words: seq<string>) returns (r: Option<nat>)
    ensures r == WordsToInt(words)
  {
    var total: int := 0;
    var cur: int := 0;
    var i := 0;
    while i < |words|
      invariant i <= KnownPrefix(words)
      invariant AllKnown(words[..i])
      invariant Accumulator(total, cur) == Accumulate(words[..i])
    {
      var word := words[i];
      var value := NumberValue(word);
      if value.Some? {
        if word == Hundreds {
          total := total - cur;
          total := total + cur * 100;
        } else {
          cur := value.value;
          total := total + cur;
        }
      } else {
        KnownPrefixAtLeast(words, words[..i]);
        break;
      }
      AccumulateNext(words, i);
      i := i + 1;
    }
    r := if total > 0 then Some(total as nat) else None;
  }

  // ---------------------------------------------------------------------
  // Properties
  // ---------------------------------------------------------------------

  /** Consuming one more number word is one more step of the loop. */
  lemma AccumulateNext(words: seq<string>, i: nat)
    requires i < |words| && AllKnown(words[..i]) && IsNumberWord(words[i])
    ensures AllKnown(words[..i + 1])
    ensures Accumulate(words[..i + 1]) == Step(Accumulate(words[..i]), words[i])
  {
    var next := words[..i + 1];
    assert next[..i] == words[..i] && next[i] == words[i];
    assert forall k :: 0 <= k < i ==> next[k] == words[..i][k];
  }

  /** Throughout the loop `0 <= cur <= total`. */
  lemma {:induction false} AccumulatorBounds(words: seq<string>)
    requires AllKnown(words)
    ensures 0 <= Accumulate(words).cur <= Accumulate(words).total
  {
    if words != [] {
      var init := words[..|words| - 1];
      assert AllKnown(init) by {
        assert forall i :: 0 <= i < |init| ==> init[i] == words[i];
      }
      AccumulatorBounds(init);
    }
  }

  /** The running total never decreases: every prefix of the words gives
      a total between zero and the final one. */
  lemma {:induction false} TotalNeverDecreases(words: seq<string>, i: nat)
    requires AllKnown(words) && i <= |words|
    ensures AllKnown(words[..i])
    ensures 0 <= Accumulate(words[..i]).total <= Accumulate(words).total
    decreases |words| - i
  {
    assert forall j :: 0 <= j < i ==> words[..i][j] == words[j];
    if i == |words| {
      assert words[..i] == words;
      AccumulatorBounds(words);
    } else {
      TotalNeverDecreases(words, i + 1);
      assert words[..i + 1][..i] == words[..i];
      AccumulatorBounds(words[..i]);
    }
  }

  /** Conversion stops at the first word that is not a number word:
      whatever follows it is ignored. */
  lemma StopsAtFirstUnknown(known: seq<string>, word: string, rest: seq<string>)
    requires AllKnown(known) && !IsNumberWord(word)
    ensures WordsToInt(known + [word] + rest) == WordsToInt(known)
  {
    var words := known + [word] + rest;
    KnownPrefixOfKnown(known);
    assert known[..|known|] == known;
    assert words[..|known|] == known;
    assert words[|known|] == word;
    KnownPrefixAtLeast(words, known);
  }

  /** A word list made of number words is consumed entirely. */
  lemma {:induction false} KnownPrefixOfKnown(words: seq<string>)
    requires AllKnown(words)
    ensures KnownPrefix(words) == |words|
  {
    if words != [] {
      KnownPrefixOfKnown(words[1..]);
    }
  }

  lemma {:induction false} KnownPrefixAtLeast(words: seq<string>, known: seq<string>)
    requires AllKnown(known) && known <= words
    requires |known| < |words| && !IsNumberWord(words[|known|])
    ensures KnownPrefix(words) == |known|
  {
    if known != [] {
      KnownPrefixAtLeast(words[1..], known[1..]);
    }
  }

  /** "Hundreds" multiplies the number word right before it by 100
      (three, hundreds = 300), whatever came earlier. */
  lemma HundredsScalesPreviousWord(words: seq<string>, unit: string)
    requires AllKnown(words) && IsNumberWord(unit) && unit != Hundreds
    ensures AllKnown(words + [unit, Hundreds])
    ensures Accumulate(words + [unit, Hundreds]).total
            == Accumulate(words).total + 100 * NumberValue(unit).value
  {
    var w1 := words + [unit];
    var w2 := w1 + [Hundreds];
    assert words + [unit, Hundreds] == w2;
    KnownSnoc(words, unit);
    HundredsKnown();
    KnownSnoc(w1, Hundreds);
    assert w2[..|w2| - 1] == w1 && w2[|w2| - 1] == Hundreds;
    assert w1[..|w1| - 1] == words && w1[|w1| - 1] == unit;
  }

  lemma KnownSnoc(words: seq<string>, word: string)
    requires AllKnown(words) && IsNumberWord(word)
    ensures AllKnown(words + [word])
  {
    assert forall k :: 0 <= k < |words| ==> (words + [word])[k] == words[k];
  }

  /** Three hundred and forty: שלוש מאות ארבעים gives 340. */
  lemma ThreeHundredForty()
    ensures WordsToInt(["שלוש", "מאות", "ארבעים"]) == Some(340)
  {
    var w := ["שלוש", "מאות", "ארבעים"];
    assert NumberValue("שלוש") == Some(3) && NumberValue("ארבעים") == Some(40);
    HundredsKnown();
    assert AllKnown(w);
    KnownPrefixOfKnown(w);
    assert w[..3] == w && w[..2] == ["שלוש", "מאות"] && w[..2][..1] == ["שלוש"];
    assert ["שלוש"][..0] == [];
    assert Accumulate(["שלוש"]) == Accumulator(3, 3);
    assert Accumulate(w[..2]) == Accumulator(300, 3);
    assert Accumulate(w) == Accumulator(340, 40);
  }

  /** "Hundreds" rescales only the word right before it: in "three twenty
      hundreds" the twenty becomes two thousand and the three stays,
      giving 2003. The conversion keeps this behaviour of the source. */
  lemma HundredsAfterTens()
    ensures WordsToInt(["שלוש", "עשרים", "מאות"]) == Some(2003)
  {
    var w := ["שלוש", "עשרים", "מאות"];
    assert NumberValue("שלוש") == Some(3) && NumberValue("עשרים") == Some(20);
    HundredsKnown();
    assert AllKnown(w);
    KnownPrefixOfKnown(w);
    assert w[..3] == w && w[..2] == ["שלוש", "עשרים"] && w[..2][..1] == ["שלוש"];
    assert ["שלוש"][..0] == [];
    assert Accumulate(["שלוש"]) == Accumulator(3, 3);
    assert Accumulate(w[..2]) == Accumulator(23, 20);
    assert Accumulate(w) == Accumulator(2003, 20);
  }

  /** No number words, no number. */
  lemma NoWordsNoNumber(rest: seq<string>)
    requires rest == [] || !IsNumberWord(rest[0])
    ensures WordsToInt(rest) == None
  {
    assert rest[..KnownPrefix(rest)] == [];
  }
}
