/** clean_jd_text (src/text_preprocessor.py): the first stage of the modular
    pipeline, which trims the text and turns every whitespace run into one space. */
module TextPreprocessor {
  import opened Strings

  /** `"" if not raw_text else re.sub(r"\s+", " ", raw_text.strip())` */
  function CleanJdText(raw: string): (r: string)
    ensures raw == [] ==> r == []
  {
    if raw == [] then [] else CollapseWhitespace(Strip(raw))
  }

  /** The cleaned text is trimmed, holds no newline, tab or double space, and is
      empty exactly when the input is all whitespace. */
  lemma CleanShape(raw: string)
    ensures IsStripped(CleanJdText(raw))
    ensures SingleSpaced(CleanJdText(raw))
    ensures '\n' !in CleanJdText(raw) && '\t' !in CleanJdText(raw)
    ensures CleanJdText(raw) == [] <==> IsBlank(raw)
  {
    var t := Strip(raw);
    StripEmptyIffBlank(raw);
    CollapseShape(t);
    var r := CleanJdText(raw);
    assert forall i | 0 <= i < |r| :: r[i] != '\n' && r[i] != '\t' by {
      assert forall i | 0 <= i < |r| :: IsSpace(r[i]) ==> r[i] == ' ';
    }
  }

  /** Cleaning deletes and replaces whitespace only: the non-whitespace
      characters survive, in order. */
  lemma CleanKeepsNonSpace(raw: string)
    ensures NonSpace(CleanJdText(raw)) == NonSpace(raw)
  {
    if raw != [] {
      NonSpaceStrip(raw);
      CollapseKeepsNonSpace(Strip(raw));
    }
  }

  /** Two trimmed pieces of text separated by any whitespace run clean to
      their cleaned forms joined by exactly one space: the run is neither
      dropped nor kept as it was. */
  lemma CleanSeparates(a: string, w: string, b: string)
    requires a != [] && IsStripped(a)
    requires w != [] && IsBlank(w)
    requires b != [] && IsStripped(b)
    ensures CleanJdText(a + w + b) == CleanJdText(a) + " " + CleanJdText(b)
  {
    var s := a + w + b;
    assert s[0] == a[0] && s[|s| - 1] == b[|b| - 1];
    StripOfStripped(s);
    StripOfStripped(a);
    StripOfStripped(b);
    CollapseSeparates(a, w, b);
  }

  /** Cleaning cleaned text changes nothing. */
  lemma CleanIdempotent(raw: string)
    ensures CleanJdText(CleanJdText(raw)) == CleanJdText(raw)
  {
    var r := CleanJdText(raw);
    CleanShape(raw);
    if r != [] {
      StripOfStripped(r);
      CollapseKeepsSingleSpaced(r);
    }
  }
}
