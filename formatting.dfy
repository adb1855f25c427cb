/** Deciding whether a paragraph is underlined: by direct run formatting,
    by a run's character style, or by the paragraph style or one of its
    base styles. */
module Formatting {
  import opened Wrappers
  import opened TextUtil
  import opened Docx

  /** `underline in [True, WD_UNDERLINE.SINGLE]`. */
  predicate UnderlineApplies(u: UnderlineValue) {
    u == On || u == Single
  }

  /** `is_run_underlined`: direct formatting first, then the character style. */
  predicate IsRunUnderlined(run: Run) {
    UnderlineApplies(run.font.underline)
    || (run.style.Some? && UnderlineApplies(run.style.value.font.underline))
  }

  /** A run whose text is whitespace only, so that `run.text.strip()` is
      empty (see `BlankIffStripsToNothing`). */
  predicate IsBlank(text: string) {
    AllSpace(text)
  }

  /** `run.text.strip()` is empty exactly when the text is whitespace only. */
  lemma BlankIffStripsToNothing(text: string)
    ensures IsBlank(text) <==> Strip(text) == []
  {
    if IsBlank(text) {
      AllSpaceTrimsAway(text);
    } else {
      var i :| 0 <= i < |text| && !IsSpace(text[i]);
      TrimLeftKeeps(text, IsSpace, i);
      TrimRightKeeps(TrimLeft(text, IsSpace), IsSpace);
    }
  }

  lemma {:induction false} AllSpaceTrimsAway(text: string)
    requires AllSpace(text)
    ensures TrimLeft(text, IsSpace) == []
  {
    if text != [] {
      AllSpaceTrimsAway(text[1..]);
    }
  }

  /** What `is_paragraph_underlined` decides: some run with visible text is
      underlined, or some style of the chain underlines. */
  predicate ParagraphUnderlined(p: Paragraph) {
    (exists i :: 0 <= i < |p.runs| && !IsBlank(p.runs[i].text) && IsRunUnderlined(p.runs[i]))
    || (exists j :: 0 <= j < |p.styleChain| && UnderlineApplies(p.styleChain[j].font.underline))
  }

  /** `is_paragraph_underlined`: a scan over the runs, then a walk up the
      style chain, each returning as soon as it finds underlining. */
  method IsParagraphUnderlined(p: Paragraph) returns (underlined: bool)
    ensures underlined <==> ParagraphUnderlined(p)
  {
    var i := 0;
    while i < |p.runs|
      invariant 0 <= i <= |p.runs|
      invariant forall k :: 0 <= k < i ==> IsBlank(p.runs[k].text) || !IsRunUnderlined(p.runs[k])
    {
      var run := p.runs[i];
      if !IsBlank(run.text) {
        if IsRunUnderlined(run) {
          return true;
        }
      }
      i := i + 1;
    }
    var j := 0;
    while j < |p.styleChain|
      invariant 0 <= j <= |p.styleChain|
      invariant forall k :: 0 <= k < j ==> !UnderlineApplies(p.styleChain[k].font.underline)
    {
      if UnderlineApplies(p.styleChain[j].font.underline) {
        return true;
      }
      j := j + 1;
    }
    return false;
  }
}
