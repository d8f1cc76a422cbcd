/** The responsibility stage of the monolithic analyser
    (src/text_analyzer.py, _extract_responsibilities): bullet and
    "Using/Exploring/Improving/Building ..." lines of the role and topics
    sections, whitespace-collapsed, without repeats. */
module AnalyzerResponsibilities {
  import opened Strings
  import opened Collections
  import opened Records
  import opened AnalyzerSections
  import AnalyzerSkills

  // ----- one line -----

  /** A heading line: a section header itself, or a line starting with
      "your role" or "topics include" (compared lower-cased). */
  predicate IsHeaderLine(ln: string)
  {
    var low := Lower(ln);
    low in SectionHeaders || OccursAt(low, "your role", 0) || OccursAt(low, "topics include", 0)
  }

  /** The characters of `lstrip("-•* ")`. */
  predicate IsBulletChar(c: char)
  {
    c == '-' || c == '\U{2022}' || c == '*' || c == ' '
  }

  /** `ln.startswith(("-", "•", "*"))` */
  predicate StartsWithBullet(ln: string)
  {
    ln != [] && (ln[0] == '-' || ln[0] == '\U{2022}' || ln[0] == '*')
  }

  /** `s.lstrip("-•* ")`: s without its leading marks and spaces. */
  function StripBulletMarks(s: string): (r: string)
    ensures |r| <= |s| && r == s[|s| - |r|..]
    ensures r == [] || !IsBulletChar(r[0])
    ensures forall i | 0 <= i < |s| - |r| :: IsBulletChar(s[i])
  {
    if s != [] && IsBulletChar(s[0]) then StripBulletMarks(s[1..]) else s
  }

  /** The words `^(Using|Exploring|Improving|Building)\b` accepts. */
  const LeadWords: seq<string> := ["Using", "Exploring", "Improving", "Building"]

  /** `re.match(r"^(Using|Exploring|Improving|Building)\b", ln)` (case-sensitive). */
  predicate StartsWithLeadWord(ln: string)
  {
    exists w | w in LeadWords :: OccursAt(ln, w, 0) && Boundary(ln, |w|)
  }

  /** What the first loop appends for one line, if anything. */
  function BulletOf(ln: string): Option<string>
  {
    if IsHeaderLine(ln) then None
    else if StartsWithBullet(ln) then Some(Strip(StripBulletMarks(ln)))
    else if StartsWithLeadWord(ln) then Some(Strip(ln))
    else None
  }

  /** `re.sub(r"\s+", " ", b).strip()`: a trimmed, single-spaced line. */
  function Clean(b: string): (r: string)
    ensures IsStripped(r) && SingleSpaced(r)
  {
    CollapseShape(b);
    StripSingleSpaced(CollapseWhitespace(b));
    Strip(CollapseWhitespace(b))
  }

  // ----- the whole stage -----

  /** What pick gives for one line, as a list of at most one value. */
  function Picked(ln: string, pick: string -> Option<string>): (r: seq<string>)
    ensures |r| <= 1
  {
    match pick(ln) case Some(b) => [b] case None => []
  }

  /** What pick gives for each line, in line order. */
  function Gathered(lines: seq<string>, pick: string -> Option<string>): (r: seq<string>)
    ensures |r| <= |lines|
  {
    if lines == [] then []
    else Gathered(lines[..|lines| - 1], pick) + Picked(lines[|lines| - 1], pick)
  }

  lemma {:induction false} GatheredSnoc(init: seq<string>, ln: string, pick: string -> Option<string>)
    ensures Gathered(init + [ln], pick) == Gathered(init, pick) + Picked(ln, pick)
  {
    var zs := init + [ln];
    assert zs[..|zs| - 1] == init;
  }

  /** The bullets of the first loop, in line order. */
  function Bullets(lines: seq<string>): (r: seq<string>)
    ensures |r| <= |lines|
  {
    Gathered(lines, BulletOf)
  }

  /** Every bullet cleaned, in order. */
  function CleanAll(bullets: seq<string>): (r: seq<string>)
    ensures |r| == |bullets| && forall i | 0 <= i < |bullets| :: r[i] == Clean(bullets[i])
  {
    seq(|bullets|, i requires 0 <= i < |bullets| => Clean(bullets[i]))
  }

  /** The text the stage reads: the role section, a newline and the topics
      section, stripped. */
  function Segment(sections: map<string, string>): string
  {
    Strip(AnalyzerSkills.Get(sections, RoleHeader, "") + "\n" + AnalyzerSkills.TopicsSegment(sections))
  }

  /** _extract_responsibilities as a value. */
  function Responsibilities(sections: map<string, string>): (r: seq<string>)
    ensures forall x | x in r :: x != [] && IsStripped(x) && SingleSpaced(x)
    ensures NoDuplicates(r)
  {
    var seg := Segment(sections);
    if seg == [] then []
    else
      var cleaned := CleanAll(Bullets(SplitLines(seg)));
      FirstSeenMembers(cleaned);
      FirstSeenNoDuplicates(cleaned);
      FirstSeen(cleaned)
  }

  /** The first loop: header lines are skipped, bullet lines lose their marks,
      lines opening with a lead word are kept. */
  method CollectBullets(lines: seq<string>) returns (bullets: seq<string>)
    ensures bullets == Bullets(lines)
  {
    bullets := [];
    for i := 0 to |lines|
      invariant bullets == Bullets(lines[..i])
    {
      var ln := lines[i];
      assert lines[..i + 1][..i] == lines[..i];
      var low := Lower(ln);
      if low in SectionHeaders || OccursAt(low, "your role", 0) || OccursAt(low, "topics include", 0) {
        continue;
      }
      if StartsWithBullet(ln) {
        bullets := bullets + [Strip(StripBulletMarks(ln))];
      } else if StartsWithLeadWord(ln) {
        bullets := bullets + [Strip(ln)];
      }
    }
    assert lines[..|lines|] == lines;
  }

  /** The second loop: clean each bullet, keep it when it is non-empty and
      not yet seen. */
  method Dedupe(bullets: seq<string>) returns (out: seq<string>)
    ensures out == FirstSeen(CleanAll(bullets))
  {
    var cleaned := CleanAll(bullets);
    out := KeepFirstSeen(cleaned);
  }

  /** _extract_responsibilities */
  method ExtractResponsibilities(sections: map<string, string>) returns (out: seq<string>)
    ensures out == Responsibilities(sections)
  {
    var seg := Strip(AnalyzerSkills.Get(sections, RoleHeader, "") + "\n" + AnalyzerSkills.TopicsSegment(sections));
    if seg == [] {
      return [];
    }
    var lines := SplitLines(seg);
    var bullets := CollectBullets(lines);
    out := Dedupe(bullets);
  }

  // ----- properties -----

  /** A value is gathered exactly when some line gives it. */
  lemma {:induction false} GatheredFrom(lines: seq<string>, pick: string -> Option<string>, b: string)
    ensures b in Gathered(lines, pick) <==> exists ln | ln in lines :: pick(ln) == Some(b)
  {
    if lines != [] {
      var init, ln := lines[..|lines| - 1], lines[|lines| - 1];
      GatheredFrom(init, pick, b);
      assert lines == init + [ln];
      if exists l | l in lines :: pick(l) == Some(b) {
        var l :| l in lines && pick(l) == Some(b);
        if l != ln {
          assert l in init;
        }
      }
    }
  }

  /** Consecutive blocks of lines are gathered block by block, in order. */
  lemma {:induction false} GatheredConcat(xs: seq<string>, ys: seq<string>, pick: string -> Option<string>)
    ensures Gathered(xs + ys, pick) == Gathered(xs, pick) + Gathered(ys, pick)
    decreases |ys|
  {
    if ys == [] {
      assert xs + ys == xs;
    } else {
      var init, y := ys[..|ys| - 1], ys[|ys| - 1];
      var gx, gi, py := Gathered(xs, pick), Gathered(init, pick), Picked(y, pick);
      calc {
        Gathered(xs + ys, pick);
        { assert xs + ys == (xs + init) + [y]; }
        Gathered((xs + init) + [y], pick);
        { GatheredSnoc(xs + init, y, pick); }
        Gathered(xs + init, pick) + py;
        { GatheredConcat(xs, init, pick); }
        (gx + gi) + py;
        gx + (gi + py);
        { assert ys == init + [y]; GatheredSnoc(init, y, pick); }
        gx + Gathered(ys, pick);
      }
    }
  }

  /** A line gives a bullet only when it is not a heading and opens with a
      mark or a lead word. */
  lemma BulletLineEligible(ln: string)
    ensures BulletOf(ln).Some? <==>
      !IsHeaderLine(ln) && (StartsWithBullet(ln) || StartsWithLeadWord(ln))
  {
  }

  /** A value is a bullet exactly when some line that is not a heading and
      that opens with a mark or a lead word gives it. */
  lemma BulletsFromLines(lines: seq<string>, b: string)
    ensures b in Bullets(lines) <==> exists ln | ln in lines ::
      (!IsHeaderLine(ln) && BulletOf(ln) == Some(b) && (StartsWithBullet(ln) || StartsWithLeadWord(ln)))
  {
    GatheredFrom(lines, BulletOf, b);
    forall ln | ln in lines && BulletOf(ln) == Some(b)
      ensures !IsHeaderLine(ln) && (StartsWithBullet(ln) || StartsWithLeadWord(ln))
    {
      BulletLineEligible(ln);
    }
  }

  /** The bullets of consecutive blocks of lines are the bullets of each
      block, in order; with BulletsOfOneLine this fixes Bullets. */
  lemma BulletsConcat(xs: seq<string>, ys: seq<string>)
    ensures Bullets(xs + ys) == Bullets(xs) + Bullets(ys)
  {
    GatheredConcat(xs, ys, BulletOf);
  }

  /** One line gives its own bullet, if any. */
  lemma BulletsOfOneLine(ln: string)
    ensures Bullets([ln]) == match BulletOf(ln) case Some(b) => [b] case None => []
  {
    assert [ln][..0] == [];
  }

  /** Without a role section and without a topics section there are no
      responsibilities. */
  lemma NoSectionsNoResponsibilities(sections: map<string, string>)
    requires AnalyzerSkills.Get(sections, RoleHeader, "") == []
    requires AnalyzerSkills.TopicsSegment(sections) == []
    ensures Responsibilities(sections) == []
  {
    assert [] + "\n" + [] == "\n";
    assert IsSpace('\n');
    StripEmptyIffBlank("\n");
  }

  /** The section heading line itself never becomes a responsibility. */
  lemma HeadingLineSkipped()
    ensures BulletOf("Your Role and Responsibilities") == None
  {
    assert Lower("Your Role and Responsibilities") == RoleHeader;
  }

  /** `ln.lstrip("-•* ").strip()` is a piece of ln. */
  lemma MarksStrippedPiece(ln: string)
    ensures Contains(ln, Strip(StripBulletMarks(ln)))
  {
    var m := StripBulletMarks(ln);
    var c := |ln| - |m|;
    assert m == ln[c..|ln|];
    SliceContained(ln, c, |ln|);
    assert Contains(ln, m);
    StripContained(m);
    ContainsTransitive(ln, m, Strip(m));
  }
}
