/** `process_document`: walking the paragraphs of a transcript, attributing
    each speech to the speaker announced before it, and storing the
    sentences of every speech on the protocol. */
module Parser {
  import opened Wrappers
  import opened TextUtil
  import opened Docx
  import opened SpeakerLine
  import opened SpeakerName
  import opened ProtocolNumber
  import opened FileName
  import opened Transcript

  /** "chairman", the title that opens the proceedings. */
  const ChairTitle := "יו\"ר"

  /** "a call" and "calls": interjections from the floor, not speakers. */
  predicate IsInterjection(name: string) {
    name == "קריאה" || name == "קריאות"
  }

  /** What the loop reads from a paragraph: the speaker a speaker line
      announces, if it is one, and the cleaned text. */
  datatype Line = Line(speaker: Option<string>, text: string)

  function LineOf(p: Paragraph): Line {
    var (m, text) := IsSpeakerLine(p);
    Line(if m.Some? then Some(ExtractSpeakerName(m.value)) else None, text)
  }

  /** The lines of a document, in order. */
  function LinesOf(doc: seq<Paragraph>): seq<Line> {
    Each(LineOf, doc)
  }

  /** `f` applied to each element, in order. */
  function Each<A, B>(f: A -> B, s: seq<A>): (r: seq<B>)
    ensures |r| == |s| && forall k :: 0 <= k < |s| ==> r[k] == f(s[k])
  {
    seq(|s|, k requires 0 <= k < |s| => f(s[k]))
  }

  lemma EachAppend<A, B>(f: A -> B, a: seq<A>, b: seq<A>)
    ensures Each(f, a + b) == Each(f, a) + Each(f, b)
  {
    var l := Each(f, a + b);
    var r := Each(f, a) + Each(f, b);
    forall k | 0 <= k < |l|
      ensures l[k] == r[k]
    {
      if k < |a| {
        assert (a + b)[k] == a[k];
      } else {
        assert (a + b)[k] == b[k - |a|];
      }
    }
  }

  /** A speech handed to `process_speech`: its speaker and paragraphs. */
  datatype Turn = Turn(speaker: string, paragraphs: seq<string>)

  /** The variables of the paragraph loop: the current speaker, whether
      their speech is ignored, and the paragraphs of their speech so far;
      `turns` lists the speeches already handed to `process_speech`. */
  datatype ParseState = ParseState(speaker: Option<string>, ignore: bool,
                                   speech: seq<string>, turns: seq<Turn>)

  const Initial := ParseState(None, true, [], [])

  /** A line starts a new speech when it is a speaker line and either a
      speaker was already announced or it mentions the chairman. */
  predicate StartsSpeech(speaker: Option<string>, l: Line) {
    l.speaker.Some? && (speaker.Some? || Contains(l.text, ChairTitle))
  }

  /** The pending speech, when it is handed on: its speaker's name is not
      empty and it has a paragraph. */
  function Pending(st: ParseState): seq<Turn> {
    if st.speaker.Some? && st.speaker.value != [] && st.speech != [] then
      [Turn(st.speaker.value, st.speech)]
    else []
  }

  /** One iteration of the paragraph loop. */
  function Step(st: ParseState, l: Line): ParseState {
    if StartsSpeech(st.speaker, l) then
      var name := l.speaker.value;
      ParseState(Some(name), IsInterjection(name), [], st.turns + Pending(st))
    else if l.text != [] && !st.ignore then
      st.(speech := st.speech + [l.text])
    else st
  }

  /** The loop state after the lines `ls`, starting from `st`. */
  function RunFrom(st: ParseState, ls: seq<Line>): ParseState {
    if ls == [] then st else Step(RunFrom(st, ls[..|ls| - 1]), ls[|ls| - 1])
  }

  /** The speeches of a document, in order: those handed on in the loop,
      then the last one. */
  function Turns(doc: seq<Paragraph>): seq<Turn> {
    var st := RunFrom(Initial, LinesOf(doc));
    st.turns + Pending(st)
  }

  /** The sentences `process_speech` stores for a list of speeches. */
  function TurnSentences(turns: seq<Turn>): seq<Sentence> {
    if turns == [] then []
    else
      var last := turns[|turns| - 1];
      TurnSentences(turns[..|turns| - 1]) + SpeechSentences(last.speaker, last.paragraphs)
  }

  /** The sentences `process_document` stores. */
  function DocumentSentences(doc: seq<Paragraph>): seq<Sentence> {
    TurnSentences(Turns(doc))
  }

  /** `process_document` on an already loaded document: find the protocol
      number, then walk the paragraphs. */
  method ProcessDocument(doc: seq<Paragraph>, protocolName: string, knessetNumber: int,
                         protocolType: ProtocolType) returns (protocol: Protocol)
    ensures fresh(protocol)
    ensures protocol.name == protocolName && protocol.knessetNumber == knessetNumber
    ensures protocol.protocolType == protocolType
    ensures protocol.protocolNumber == ProtocolNumberOf(doc)
    ensures protocol.sentences == DocumentSentences(doc)
  {
    var protocolNumber := ExtractProtocolNumber(doc);
    protocol := new Protocol(protocolName, knessetNumber, protocolType, protocolNumber);
    WalkParagraphs(protocol, doc);
  }

  /** The paragraph loop of `process_document` and the final hand-over of
      the last speech. */
  method WalkParagraphs(protocol: Protocol, doc: seq<Paragraph>)
    modifies protocol
    ensures protocol.sentences == old(protocol.sentences) + DocumentSentences(doc)
  {
    var currentSpeaker: Option<string> := None;
    var ignoreSpeaker := true;
    var currentSpeech: seq<string> := [];
    ghost var turns: seq<Turn> := [];
    for i := 0 to |doc|
      invariant RunFrom(Initial, LinesOf(doc[..i]))
                == ParseState(currentSpeaker, ignoreSpeaker, currentSpeech, turns)
      invariant protocol.sentences == old(protocol.sentences) + TurnSentences(turns)
    {
      ghost var st := ParseState(currentSpeaker, ignoreSpeaker, currentSpeech, turns);
      ghost var line := LineOf(doc[i]);
      var (m, parText) := IsSpeakerLine(doc[i]);
      if m.Some? && (currentSpeaker.Some? || Contains(parText, ChairTitle)) {
        ghost var before := protocol.sentences;
        if currentSpeaker.Some? && currentSpeaker.value != [] && currentSpeech != [] {
          ProcessSpeech(protocol, currentSpeaker.value, currentSpeech);
        }
        HandOver(st, turns, old(protocol.sentences), before, protocol.sentences);
        turns := turns + Pending(st);
        var speakerName := ExtractSpeakerName(m.value);
        ignoreSpeaker := IsInterjection(speakerName);
        currentSpeaker := Some(speakerName);
        currentSpeech := [];
      } else if parText != [] && !ignoreSpeaker {
        currentSpeech := currentSpeech + [parText];
      }
      assert ParseState(currentSpeaker, ignoreSpeaker, currentSpeech, turns) == Step(st, line);
      RunSnoc(doc, i);
    }
    assert doc[..|doc|] == doc;
    ghost var st := ParseState(currentSpeaker, ignoreSpeaker, currentSpeech, turns);
    ghost var before := protocol.sentences;
    if currentSpeaker.Some? && currentSpeaker.value != [] && currentSpeech != [] {
      ProcessSpeech(protocol, currentSpeaker.value, currentSpeech);
    }
    HandOver(st, turns, old(protocol.sentences), before, protocol.sentences);
  }

  /** Handing on the pending speech keeps the stored sentences equal to
      those of the speeches handed on. */
  lemma HandOver(st: ParseState, turns: seq<Turn>, start: seq<Sentence>,
                 before: seq<Sentence>, after: seq<Sentence>)
    requires before == start + TurnSentences(turns)
    requires Pending(st) == [] ==> after == before
    requires Pending(st) != [] ==> after == before + SpeechSentences(st.speaker.value, st.speech)
    ensures after == start + TurnSentences(turns + Pending(st))
  {
    TurnSentencesSnoc(turns, Pending(st));
    if Pending(st) != [] {
      AppendAssoc(start, TurnSentences(turns), SpeechSentences(st.speaker.value, st.speech));
    } else {
      assert turns + Pending(st) == turns;
    }
  }

  /** Handing on at most one more speech appends its sentences. */
  lemma TurnSentencesSnoc(turns: seq<Turn>, more: seq<Turn>)
    requires |more| <= 1
    ensures TurnSentences(turns + more)
            == TurnSentences(turns) + (if more == [] then [] else SpeechSentences(more[0].speaker, more[0].paragraphs))
  {
    if more == [] {
      assert turns + more == turns;
    } else {
      assert (turns + more)[..|turns|] == turns;
    }
  }

  /** One more paragraph is one more step. */
  lemma RunSnoc(doc: seq<Paragraph>, i: nat)
    requires i < |doc|
    ensures RunFrom(Initial, LinesOf(doc[..i + 1])) == Step(RunFrom(Initial, LinesOf(doc[..i])), LineOf(doc[i]))
  {
    var ls := LinesOf(doc[..i + 1]);
    assert ls[..i] == LinesOf(doc[..i]);
  }

  // ---------------------------------------------------------------------
  // Properties of the paragraph loop
  // ---------------------------------------------------------------------

  /** A speech handed on: its speaker has a name that is not an
      interjection, and it has at least one paragraph, none empty. */
  predicate GoodTurn(t: Turn) {
    t.speaker != [] && !IsInterjection(t.speaker) && t.paragraphs != []
    && forall k :: 0 <= k < |t.paragraphs| ==> t.paragraphs[k] != []
  }

  predicate AllGood(turns: seq<Turn>) {
    forall k :: 0 <= k < |turns| ==> GoodTurn(turns[k])
  }

  /** What the loop keeps true: an ignored speaker collects no speech;
      before the first speaker everything is ignored; afterwards a speaker
      is ignored exactly when it is an interjection; collected paragraphs
      are not empty; and every speech handed on is good. */
  predicate Inv(st: ParseState) {
    (st.ignore ==> st.speech == [])
    && (st.speaker.None? ==> st.ignore)
    && (st.speaker.Some? ==> (st.ignore <==> IsInterjection(st.speaker.value)))
    && (forall k :: 0 <= k < |st.speech| ==> st.speech[k] != [])
    && AllGood(st.turns)
  }

  /** The pending speech of a state that keeps the invariant is good. */
  lemma PendingGood(st: ParseState)
    requires Inv(st)
    ensures AllGood(Pending(st))
  {
  }

  lemma AllGoodAppend(a: seq<Turn>, b: seq<Turn>)
    requires AllGood(a) && AllGood(b)
    ensures AllGood(a + b)
  {
    assert forall k :: |a| <= k < |a| + |b| ==> (a + b)[k] == b[k - |a|];
  }

  /** Each iteration keeps the invariant. */
  lemma StepKeepsInv(st: ParseState, l: Line)
    requires Inv(st)
    ensures Inv(Step(st, l))
  {
    if StartsSpeech(st.speaker, l) {
      PendingGood(st);
      AllGoodAppend(st.turns, Pending(st));
    } else if l.text != [] && !st.ignore {
      var speech := st.speech + [l.text];
      assert forall k :: 0 <= k < |st.speech| ==> speech[k] == st.speech[k];
    }
  }

  lemma {:induction false} RunKeepsInv(st: ParseState, ls: seq<Line>)
    requires Inv(st)
    ensures Inv(RunFrom(st, ls))
  {
    if ls != [] {
      RunKeepsInv(st, ls[..|ls| - 1]);
      StepKeepsInv(RunFrom(st, ls[..|ls| - 1]), ls[|ls| - 1]);
    }
  }

  /** Every speech of a document is good: no speech is attributed to an
      interjection ("קריאה", "קריאות") or to an empty name, and none is
      empty. */
  lemma TurnsGood(doc: seq<Paragraph>)
    ensures AllGood(Turns(doc))
  {
    var st := RunFrom(Initial, LinesOf(doc));
    RunKeepsInv(Initial, LinesOf(doc));
    PendingGood(st);
    AllGoodAppend(st.turns, Pending(st));
  }

  /** A stored sentence: well formed for its own speaker, whose name is not
      empty and is not an interjection. */
  predicate Attributed(s: Sentence) {
    s.speakerName != [] && WellFormed(s, s.speakerName) && !IsInterjection(s.speakerName)
  }

  predicate AllAttributed(out: seq<Sentence>) {
    forall k :: 0 <= k < |out| ==> Attributed(out[k])
  }

  lemma AllAttributedAppend(a: seq<Sentence>, b: seq<Sentence>)
    requires AllAttributed(a) && AllAttributed(b)
    ensures AllAttributed(a + b)
  {
    assert forall k :: |a| <= k < |a| + |b| ==> (a + b)[k] == b[k - |a|];
  }

  /** The sentences of good speeches are attributed. */
  lemma {:induction false} TurnSentencesAttributed(turns: seq<Turn>)
    requires AllGood(turns)
    ensures AllAttributed(TurnSentences(turns))
  {
    if turns != [] {
      var init := turns[..|turns| - 1];
      var last := turns[|turns| - 1];
      assert forall k :: 0 <= k < |init| ==> init[k] == turns[k];
      TurnSentencesAttributed(init);
      assert GoodTurn(last);
      SpeechSentencesWellFormed(last.speaker, last.paragraphs);
      AllAttributedAppend(TurnSentences(init), SpeechSentences(last.speaker, last.paragraphs));
    }
  }

  /** Every stored sentence has a speaker with a non-empty name that is
      not an interjection, at least four words, and no Latin letter. */
  lemma DocumentSentencesAttributed(doc: seq<Paragraph>)
    ensures AllAttributed(DocumentSentences(doc))
  {
    TurnsGood(doc);
    TurnSentencesAttributed(Turns(doc));
  }

  /** A speaker line that mentions the chairman. */
  predicate IsChairLine(l: Line) {
    l.speaker.Some? && Contains(l.text, ChairTitle)
  }

  /** Until the first chairman's speaker line nothing happens: the loop is
      still in its initial state. */
  lemma {:induction false} BeforeChairNothing(ls: seq<Line>)
    requires forall k :: 0 <= k < |ls| ==> !IsChairLine(ls[k])
    ensures RunFrom(Initial, ls) == Initial
  {
    if ls != [] {
      var init := ls[..|ls| - 1];
      assert forall k :: 0 <= k < |init| ==> init[k] == ls[k];
      BeforeChairNothing(init);
      assert !IsChairLine(ls[|ls| - 1]);
    }
  }

  /** Running over two stretches of lines is running over the second from
      where the first left off. */
  lemma {:induction false} RunFromAppend(st: ParseState, a: seq<Line>, b: seq<Line>)
    ensures RunFrom(st, a + b) == RunFrom(RunFrom(st, a), b)
  {
    if b == [] {
      assert a + b == a;
    } else {
      var ab := a + b;
      assert ab[..|ab| - 1] == a + b[..|b| - 1];
      assert ab[|ab| - 1] == b[|b| - 1];
      RunFromAppend(st, a, b[..|b| - 1]);
    }
  }

  /** Paragraphs before the first chairman's speaker line do not change
      what is stored. */
  lemma PrefaceIgnored(preface: seq<Paragraph>, rest: seq<Paragraph>)
    requires forall k :: 0 <= k < |preface| ==> !IsChairLine(LineOf(preface[k]))
    ensures DocumentSentences(preface + rest) == DocumentSentences(rest)
  {
    var pl := LinesOf(preface);
    assert forall k :: 0 <= k < |pl| ==> pl[k] == LineOf(preface[k]);
    BeforeChairNothing(pl);
    EachAppend(LineOf, preface, rest);
    RunFromAppend(Initial, pl, LinesOf(rest));
  }

  /** A document without a chairman's speaker line stores nothing. */
  lemma NoChairNoSentences(doc: seq<Paragraph>)
    requires forall k :: 0 <= k < |doc| ==> !IsChairLine(LineOf(doc[k]))
    ensures DocumentSentences(doc) == []
  {
    var ls := LinesOf(doc);
    assert forall k :: 0 <= k < |ls| ==> ls[k] == LineOf(doc[k]);
    BeforeChairNothing(ls);
  }

  /** The loop only hands speeches on: the speeches handed on after some
      lines are a prefix of those handed on after more. */
  lemma {:induction false} RunOnlyAppends(st: ParseState, ls: seq<Line>)
    ensures st.turns <= RunFrom(st, ls).turns
  {
    if ls != [] {
      RunOnlyAppends(st, ls[..|ls| - 1]);
    }
  }

  /** The paragraphs of an interjection are dropped: after an interjection
      is announced, a line that is not a speaker line changes nothing. */
  lemma InterjectionIgnored(st: ParseState, l: Line)
    requires Inv(st) && st.speaker.Some? && IsInterjection(st.speaker.value)
    requires l.speaker.None?
    ensures Step(st, l) == st
  {
  }
}
