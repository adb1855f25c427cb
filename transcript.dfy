/** The stored form of a transcript: its sentences, each attributed to a
    speaker, and the step that turns a speech into sentences. */
module Transcript {
  import opened TextUtil
  import opened Speech
  import opened FileName

  /** A sentence and the speaker it is attributed to. */
  datatype Sentence = Sentence(speakerName: string, text: string)

  /** A parsed transcript. Only the list of sentences grows after
      construction. */
  class Protocol {
    const name: string
    const knessetNumber: int
    const protocolType: ProtocolType
    const protocolNumber: int
    var sentences: seq<Sentence>

    constructor(name: string, knessetNumber: int, protocolType: ProtocolType, protocolNumber: int)
      ensures this.name == name && this.knessetNumber == knessetNumber
      ensures this.protocolType == protocolType && this.protocolNumber == protocolNumber
      ensures sentences == []
    {
      this.name := name;
      this.knessetNumber := knessetNumber;
      this.protocolType := protocolType;
      this.protocolNumber := protocolNumber;
      sentences := [];
    }
  }

  // ---------------------------------------------------------------------
  // process_speech
  // ---------------------------------------------------------------------

  /** The minimum number of tokens a kept sentence has. */
  const MinTokens: nat := 4

  /** The speech text: the paragraphs joined by spaces, dashes made plain. */
  function SpeechText(paragraphs: seq<string>): string {
    NormalizeDashes(Join(paragraphs, " "))
  }

  /** What one segmented sentence contributes: itself, tokenised and
      re-joined by single spaces, when it is valid and has enough tokens. */
  function SentenceOf(speaker: string, s: string): seq<Sentence> {
    var tokens := Tokenize(s);
    if IsValidSentence(s) && |tokens| >= MinTokens then [Sentence(speaker, Join(tokens, " "))] else []
  }

  /** The contributions of the sentences, in order. */
  function SentencesOf(speaker: string, ss: seq<string>): seq<Sentence> {
    if ss == [] then []
    else SentencesOf(speaker, ss[..|ss| - 1]) + SentenceOf(speaker, ss[|ss| - 1])
  }

  /** The sentences `process_speech` appends for a speech. */
  function SpeechSentences(speaker: string, paragraphs: seq<string>): seq<Sentence> {
    SentencesOf(speaker, SegmentSentences(SpeechText(paragraphs)))
  }

  /** `process_speech`: append the kept sentences of the speech, in order,
      after the protocol's existing sentences. */
  method ProcessSpeech(protocol: Protocol, speaker: string, paragraphs: seq<string>)
    modifies protocol
    ensures protocol.sentences == old(protocol.sentences) + SpeechSentences(speaker, paragraphs)
  {
    var speechText := Join(paragraphs, " ");
    speechText := NormalizeDashes(speechText);
    var sentences := SegmentSentences(speechText);
    assert SentencesOf(speaker, sentences[..0]) == [];
    for i := 0 to |sentences|
      invariant protocol.sentences == old(protocol.sentences) + SentencesOf(speaker, sentences[..i])
    {
      var sentence := sentences[i];
      ghost var before := protocol.sentences;
      if IsValidSentence(sentence) {
        var tokens := TokenizeSentence(sentence);
        if |tokens| >= MinTokens {
          var sentenceText := Join(tokens, " ");
          protocol.sentences := protocol.sentences + [Sentence(speaker, sentenceText)];
        }
      }
      assert protocol.sentences == before + SentenceOf(speaker, sentence);
      SentencesOfSnoc(speaker, sentences, i);
      AppendAssoc(old(protocol.sentences), SentencesOf(speaker, sentences[..i]), SentenceOf(speaker, sentence));
    }
    assert sentences[..|sentences|] == sentences;
  }

  lemma AppendAssoc(a: seq<Sentence>, b: seq<Sentence>, c: seq<Sentence>)
    ensures (a + b) + c == a + (b + c)
  {
  }

  lemma SentencesOfSnoc(speaker: string, ss: seq<string>, i: nat)
    requires i < |ss|
    ensures SentencesOf(speaker, ss[..i + 1]) == SentencesOf(speaker, ss[..i]) + SentenceOf(speaker, ss[i])
  {
    assert ss[..i + 1][..i] == ss[..i];
  }

  /** What a stored sentence satisfies: it has the speaker's name, at least
      four space-separated words, and no Latin letter. */
  predicate WellFormed(s: Sentence, speaker: string) {
    s.speakerName == speaker && |Words(s.text)| >= MinTokens && Every(s.text, NotAsciiLetter)
  }

  predicate NotAsciiLetter(c: char) { !IsAsciiLetter(c) }

  predicate AllWellFormed(out: seq<Sentence>, speaker: string) {
    forall k :: 0 <= k < |out| ==> WellFormed(out[k], speaker)
  }

  /** A kept sentence is well formed: its words are its tokens, of which
      there are at least four, and a valid sentence has no Latin letter. */
  lemma SentenceOfWellFormed(speaker: string, s: string)
    ensures AllWellFormed(SentenceOf(speaker, s), speaker)
  {
    if IsValidSentence(s) && |Tokenize(s)| >= MinTokens {
      var tokens := Tokenize(s);
      TokensArePlain(s);
      assert |Words(Join(tokens, " "))| >= MinTokens;
      NoLatinText(s);
    }
  }

  /** The tokens of a valid sentence, joined, have no Latin letter. */
  lemma NoLatinText(s: string)
    requires IsValidSentence(s)
    ensures Every(Join(Tokenize(s), " "), NotAsciiLetter)
  {
    assert forall i :: 0 <= i < |s| ==> !IsAsciiLetter(s[i]);
    TokensFrom(s, NotAsciiLetter);
    var tokens := Tokenize(s);
    forall k | 0 <= k < |tokens|
      ensures Every(tokens[k], NotAsciiLetter)
    {
      assert IsToken(tokens[k], NotAsciiLetter);
    }
    JoinEvery(tokens, " ", NotAsciiLetter);
  }

  lemma AllWellFormedAppend(a: seq<Sentence>, b: seq<Sentence>, speaker: string)
    requires AllWellFormed(a, speaker) && AllWellFormed(b, speaker)
    ensures AllWellFormed(a + b, speaker)
  {
    assert forall k :: |a| <= k < |a| + |b| ==> (a + b)[k] == b[k - |a|];
  }

  /** Every sentence of a speech is well formed and carries the speaker. */
  lemma {:induction false} SentencesOfWellFormed(speaker: string, ss: seq<string>)
    ensures AllWellFormed(SentencesOf(speaker, ss), speaker)
  {
    if ss != [] {
      SentencesOfWellFormed(speaker, ss[..|ss| - 1]);
      SentenceOfWellFormed(speaker, ss[|ss| - 1]);
      AllWellFormedAppend(SentencesOf(speaker, ss[..|ss| - 1]), SentenceOf(speaker, ss[|ss| - 1]), speaker);
    }
  }

  lemma SpeechSentencesWellFormed(speaker: string, paragraphs: seq<string>)
    ensures AllWellFormed(SpeechSentences(speaker, paragraphs), speaker)
  {
    SentencesOfWellFormed(speaker, SegmentSentences(SpeechText(paragraphs)));
  }

  /** A speech with no valid sentence adds nothing. */
  lemma {:induction false} NoValidSentenceNoOutput(speaker: string, ss: seq<string>)
    requires forall k :: 0 <= k < |ss| ==> !IsValidSentence(ss[k])
    ensures SentencesOf(speaker, ss) == []
  {
    if ss != [] {
      var init := ss[..|ss| - 1];
      assert forall k :: 0 <= k < |init| ==> init[k] == ss[k];
      NoValidSentenceNoOutput(speaker, init);
    }
  }

  /** A stored sentence need not hold a Hebrew letter: the sof pasuq
      U+05C3 lies in the Hebrew block, so the sentence is valid, but it is
      neither a word character nor punctuation to the tokeniser, which
      skips it. Four punctuation tokens remain and are stored. */
  lemma SentenceWithoutHebrewLetter(s: string)
    requires s == "\U{05C3} - , ; :"
    ensures SentenceOf("x", s) == [Sentence("x", "- , ; :")]
  {
    var body := ['-'] + " " + ([','] + " " + ([';'] + " " + [':']));
    assert body == "- , ; :";
    assert s == ['\U{05C3}'] + " " + body;
    SofPasuqValid(s);
    SkippedSentence("x", '\U{05C3}', '-', ',', ';', ':');
  }

  /** A valid sentence made of a character the tokeniser skips and four
      spaced punctuation characters is stored as those four. */
  lemma SkippedSentence(speaker: string, h: char, a: char, b: char, c: char, d: char)
    requires !IsWordChar(h) && !IsPunctuation(h)
    requires !IsWordChar(a) && IsPunctuation(a) && !IsWordChar(b) && IsPunctuation(b)
    requires !IsWordChar(c) && IsPunctuation(c) && !IsWordChar(d) && IsPunctuation(d)
    requires IsValidSentence([h] + " " + ([a] + " " + ([b] + " " + ([c] + " " + [d]))))
    ensures var body := [a] + " " + ([b] + " " + ([c] + " " + [d]));
            SentenceOf(speaker, [h] + " " + body) == [Sentence(speaker, body)]
  {
    var body := [a] + " " + ([b] + " " + ([c] + " " + [d]));
    SkippedThenSpace(h, body);
    SpacedPunctuation(a, b, c, d);
    PostProcessAllPunctuation([[a], [b], [c], [d]]);
    SpacedJoin(a, b, c, d);
  }

  lemma SofPasuqValid(s: string)
    requires s == "\U{05C3} - , ; :"
    ensures IsValidSentence(s)
  {
    assert IsHebrewBlock(s[0]);
    forall i | 0 <= i < |s| && s[i] == '-'
      ensures !DashFollows(s[i + 1..])
    {
      assert i == 2;
      assert s[3..] == " , ; :";
      assert s[3..][1..] == ", ; :";
      assert TrimLeft(s[3..], IsSpace) == ", ; :";
    }
  }

  /** Four one-character tokens joined by spaces. */
  lemma SpacedJoin(a: char, b: char, c: char, d: char)
    ensures Join([[a], [b], [c], [d]], " ") == [a] + " " + ([b] + " " + ([c] + " " + [d]))
  {
    var ts := [[a], [b], [c], [d]];
    assert ts[1..] == [[b], [c], [d]];
    assert ts[1..][1..] == [[c], [d]];
    assert ts[1..][1..][1..] == [[d]];
    assert Join([[d]], " ") == [d];
    assert Join([[c], [d]], " ") == [c] + " " + [d];
    assert Join([[b], [c], [d]], " ") == [b] + " " + ([c] + " " + [d]);
  }

  /** Four punctuation characters separated by spaces are four tokens. */
  lemma SpacedPunctuation(a: char, b: char, c: char, d: char)
    requires !IsWordChar(a) && IsPunctuation(a) && !IsWordChar(b) && IsPunctuation(b)
    requires !IsWordChar(c) && IsPunctuation(c) && !IsWordChar(d) && IsPunctuation(d)
    ensures FindTokens([a] + " " + ([b] + " " + ([c] + " " + [d]))) == [[a], [b], [c], [d]]
  {
    var t4 := [d];
    FindTokensPunctuation(t4);
    assert t4[1..] == [];
    var t3 := [c] + " " + t4;
    PunctuationThenSpace(c, t4);
    var t2 := [b] + " " + t3;
    PunctuationThenSpace(b, t3);
    PunctuationThenSpace(a, t2);
  }

  /** A punctuation character followed by a space is one token. */
  lemma PunctuationThenSpace(c: char, v: string)
    requires !IsWordChar(c) && IsPunctuation(c)
    ensures FindTokens([c] + " " + v) == [[c]] + FindTokens(v)
  {
    var u := [c] + " " + v;
    FindTokensPunctuation(u);
    assert u[1..] == " " + v;
    FindTokensSkip(u[1..]);
    assert u[1..][1..] == v;
  }

  /** A character no match starts at, followed by a space, is skipped. */
  lemma SkippedThenSpace(h: char, v: string)
    requires !IsWordChar(h) && !IsPunctuation(h)
    ensures FindTokens([h] + " " + v) == FindTokens(v)
  {
    var u := [h] + " " + v;
    FindTokensSkip(u);
    assert u[1..] == " " + v;
    FindTokensSkip(u[1..]);
    assert u[1..][1..] == v;
  }
}
