/** The profile stages of the monolithic analyser (src/text_analyzer.py):
    _extract_company, _extract_seniority, _infer_job_title, _extract_degrees
    and _extract_fields. */
module AnalyzerProfile {
  import opened Strings
  import opened Collections
  import opened Records

  // ----- _extract_company -----

  /** The alternatives of the brand pattern, in the order the regex tries them. */
  const Brands: seq<string> := ["IBM Research", "IBM", "Google", "Microsoft", "Amazon", "Meta", "Apple"]

  /** Candidates of the head rule that are headings rather than companies. */
  const NotCompanies: seq<string> := ["introduction", "your role and responsibilities"]

  const UnknownCompany := "Unknown"

  /** `" ".join(lines[:8])`: the first eight non-blank lines joined by spaces. */
  function Head(text: string): string
  {
    var lines := SplitLines(text);
    JoinWith(if |lines| <= 8 then lines else lines[..8], ' ')
  }

  /** Index of the first brand alternative, from the k-th on, that matches as
      a whole word at position i. */
  function BrandAt(s: string, i: nat, k: nat): (r: Option<nat>)
    decreases |Brands| - k
    ensures r.Some? ==> k <= r.value < |Brands| && WholeWordAt(s, Brands[r.value], i)
    ensures r.Some? ==> forall j | k <= j < r.value :: !WholeWordAt(s, Brands[j], i)
    ensures r.None? ==> forall j | k <= j < |Brands| :: !WholeWordAt(s, Brands[j], i)
  {
    if k >= |Brands| then None
    else if WholeWordAt(s, Brands[k], i) then Some(k)
    else BrandAt(s, i, k + 1)
  }

  /** The leftmost position at or after i where some brand matches. */
  function BrandSearch(s: string, i: nat): (r: Option<nat>)
    decreases |s| - i
    ensures r.Some? ==> i <= r.value < |s| && BrandAt(s, r.value, 0).Some?
    ensures r.Some? ==> forall m | i <= m < r.value :: BrandAt(s, m, 0).None?
    ensures r.None? ==> forall m | i <= m < |s| :: BrandAt(s, m, 0).None?
  {
    if i >= |s| then None
    else
      var here := BrandAt(s, i, 0);
      if here.Some? then Some(i) else BrandSearch(s, i + 1)
  }

  /** The head rule's candidate is kept unless it is a known heading. */
  predicate Accepted(cand: Option<string>)
  {
    cand.Some? && Lower(Strip(cand.value)) !in NotCompanies
  }

  /** group(1) of the brand pattern, or "Unknown" when it does not match. */
  function BrandCompany(text: string): (r: string)
    ensures r == UnknownCompany || r in Brands
  {
    match BrandSearch(text, 0)
    case Some(i) => Brands[BrandAt(text, i, 0).value]
    case None => UnknownCompany
  }

  /** _extract_company. The rule that looks for "<Name> takes|is|means|has|are"
      in the head of the text is a parameter: headRule(head) is its group(1),
      or None when it does not match. */
  function ExtractCompany(text: string, headRule: string -> Option<string>): (r: string)
    ensures IsStripped(r)
    ensures Lower(r) !in NotCompanies
  {
    var cand := headRule(Head(text));
    if Accepted(cand) then Strip(cand.value)
    else
      var b := BrandCompany(text);
      BrandsAreNotHeadings();
      assert b in Brands + [UnknownCompany];
      b
  }

  /** Every brand, and "Unknown", is trimmed and none is a heading. */
  lemma BrandsAreNotHeadings()
    ensures forall b | b in Brands + [UnknownCompany] :: IsStripped(b) && Lower(b) !in NotCompanies
  {
    forall b | b in Brands + [UnknownCompany] ensures IsStripped(b) && Lower(b) !in NotCompanies {
      assert |Lower(b)| == |b| <= 12 < |NotCompanies[1]|;
      if |b| == 12 {
        assert b == "IBM Research";
        assert Lower(b)[1] == 'b' != NotCompanies[0][1];
      }
    }
  }

  /** group(1) of the head rule `\b([A-Z][A-Za-z&.\- ]{2,60})\s+(takes|is|means|has|are)\b`:
      a capital letter followed by 2 to 60 letters, "&", ".", "-" or spaces. */
  predicate HeadGroup(g: string)
  {
    3 <= |g| <= 61 && IsUpper(g[0]) &&
    forall k | 1 <= k < |g| :: IsUpper(g[k]) || IsLowerLetter(g[k]) || g[k] in "&.- "
  }

  /** When the head rule returns such a group and it is accepted, the company
      starts with a capital letter, has at most 61 characters and holds only
      characters of the group's class. */
  lemma CompanyFromHead(text: string, headRule: string -> Option<string>)
    requires headRule(Head(text)).Some? ==> HeadGroup(headRule(Head(text)).value)
    ensures Accepted(headRule(Head(text))) ==>
      var r := ExtractCompany(text, headRule);
      && r != [] && IsUpper(r[0]) && |r| <= 61
      && forall k | 1 <= k < |r| :: IsUpper(r[k]) || IsLowerLetter(r[k]) || r[k] in "&.- "
  {
    var cand := headRule(Head(text));
    if Accepted(cand) {
      var g := cand.value;
      assert !IsSpace(g[0]);
      assert StripStart(g) == 0;
      var r := Strip(g);
      assert r == g[..|r|];
      assert r != [] by {
        StripEmptyIffBlank(g);
      }
    }
  }

  /** Nothing is found before a brand found at i. */
  lemma NoBrandBefore(text: string, i: nat)
    requires BrandSearch(text, 0) == Some(i)
    ensures forall m, b | 0 <= m < i && b in Brands :: !WholeWordAt(text, b, m)
  {
    forall m, b | 0 <= m < i && b in Brands ensures !WholeWordAt(text, b, m) {
      assert BrandAt(text, m, 0).None?;
      var j :| 0 <= j < |Brands| && Brands[j] == b;
    }
  }

  /** Without any match, no brand occurs as a whole word. */
  lemma NoBrandAnywhere(text: string)
    requires BrandSearch(text, 0).None?
    ensures forall b | b in Brands :: !ContainsWord(text, b)
  {
    forall b | b in Brands ensures !ContainsWord(text, b) {
      var j :| 0 <= j < |Brands| && Brands[j] == b;
      forall m | 0 <= m <= |text| - |b| ensures !WholeWordAt(text, b, m) {
        assert BrandAt(text, m, 0).None?;
      }
    }
  }

  /** The brand rule gives the brand that occurs first in the text, as a whole
      word and case-sensitively, and "Unknown" exactly when no brand occurs. */
  lemma BrandCompanyMeaning(text: string)
    ensures var r := BrandCompany(text);
      && (r == UnknownCompany <==> forall b | b in Brands :: !ContainsWord(text, b))
      && (r != UnknownCompany ==> r in Brands && ContainsWord(text, r))
      && (r != UnknownCompany ==>
            exists i | 0 <= i < |text| :: (WholeWordAt(text, r, i) &&
              forall m, b | 0 <= m < i && b in Brands :: !WholeWordAt(text, b, m)))
  {
    var found := BrandSearch(text, 0);
    assert UnknownCompany !in Brands;
    if found.Some? {
      var i := found.value;
      var k := BrandAt(text, i, 0).value;
      assert WholeWordAt(text, Brands[k], i);
      assert Brands[k] in Brands && ContainsWord(text, Brands[k]);
      NoBrandBefore(text, i);
    } else {
      NoBrandAnywhere(text);
    }
  }

  /** An accepted head candidate wins over any brand; otherwise the brand rule
      decides. */
  lemma CompanyRules(text: string, headRule: string -> Option<string>)
    ensures Accepted(headRule(Head(text))) ==>
      ExtractCompany(text, headRule) == Strip(headRule(Head(text)).value) &&
      Lower(ExtractCompany(text, headRule)) !in NotCompanies
    ensures !Accepted(headRule(Head(text))) ==> ExtractCompany(text, headRule) == BrandCompany(text)
  {
  }

  /** At one position the longer "IBM Research" is tried before "IBM". */
  lemma IbmResearchBeforeIbm()
    ensures BrandCompany("IBM Research") == "IBM Research"
  {
    var s := "IBM Research";
    assert OccursAt(s, Brands[0], 0);
    assert BrandAt(s, 0, 0) == Some(0);
  }

  // ----- _extract_seniority -----

  /** The four answers, from the highest-priority tier down. */
  const Seniorities: seq<string> := ["Intern", "New Grad", "Senior", "Unknown"]

  function ExtractSeniority(text: string): (r: string)
    ensures r in Seniorities
  {
    var low := Lower(text);
    if Contains(low, "intern") || Contains(low, "internship") then "Intern"
    else if Contains(low, "new grad") || Contains(low, "graduate") then "New Grad"
    else if Contains(low, "senior") then "Senior"
    else "Unknown"
  }

  /** "internship" adds nothing to the Intern test: it contains "intern". */
  lemma InternshipIsIntern(low: string)
    requires Contains(low, "internship")
    ensures Contains(low, "intern")
  {
    assert OccursAt("internship", "intern", 0);
    ContainsTransitive(low, "internship", "intern");
  }

  /** A tier is chosen exactly when its phrase occurs and no higher tier's does. */
  lemma SeniorityPriority(text: string)
    ensures var low, r := Lower(text), ExtractSeniority(text);
      && (r == "Intern" <==> Contains(low, "intern"))
      && (r == "New Grad" <==> !Contains(low, "intern") && (Contains(low, "new grad") || Contains(low, "graduate")))
      && (r == "Senior" <==> (!Contains(low, "intern") && !Contains(low, "new grad") &&
            !Contains(low, "graduate") && Contains(low, "senior")))
      && (r == "Unknown" <==> (!Contains(low, "intern") && !Contains(low, "new grad") &&
            !Contains(low, "graduate") && !Contains(low, "senior")))
  {
    var low := Lower(text);
    if Contains(low, "internship") {
      InternshipIsIntern(low);
    }
  }

  /** The test is by substring, so "undergraduate" counts as "graduate". */
  lemma UndergraduateIsNewGrad()
    ensures ExtractSeniority("undergraduate") == "New Grad"
  {
    var low := Lower("undergraduate");
    assert low == "undergraduate";
    assert OccursAt(low, "graduate", 5);
    AbsentByFirstChar(low, "intern");
    SeniorityPriority("undergraduate");
  }

  /** The answer ignores letter case. */
  lemma SeniorityIgnoresCase(text: string)
    ensures ExtractSeniority(Lower(text)) == ExtractSeniority(text)
  {
    LowerIdempotent(text);
  }

  // ----- _infer_job_title -----

  /** The four bases, in the order they are tested. */
  const TitleBases: seq<string> := ["Autonomous Data Management Systems", "Data Management", "Data Systems", "Research"]

  /** The separator of the intern titles: a space, an en dash and a space. */
  const Dash: string := " \U{2013} "

  function TitleBase(text: string): (b: string)
    ensures b in TitleBases
  {
    var low := Lower(text);
    if Contains(low, "autonomous data management") then TitleBases[0]
    else if Contains(low, "data management") then TitleBases[1]
    else if Contains(low, "data systems") then TitleBases[2]
    else TitleBases[3]
  }

  function InferJobTitle(text: string, company: string, seniority: string): (r: string)
    ensures |TitleBase(text)| <= |r| && r[|r| - |TitleBase(text)|..] == TitleBase(text)
  {
    var base := TitleBase(text);
    if seniority == "Intern" then
      if company != UnknownCompany then "Research Intern" + Dash + base
      else "Intern" + Dash + base
    else base
  }

  /** "autonomous data management" contains "data management", so the longer
      phrase is tested first; a text naming none of the phrases gets "Research". */
  lemma TitleBaseCases(text: string)
    ensures var low, b := Lower(text), TitleBase(text);
      && (b == "Autonomous Data Management Systems" <==> Contains(low, "autonomous data management"))
      && (b == "Data Management" <==> Contains(low, "data management") && !Contains(low, "autonomous data management"))
      && (b == "Data Systems" <==> !Contains(low, "data management") && Contains(low, "data systems"))
      && (b == "Research" <==> !Contains(low, "data management") && !Contains(low, "data systems"))
  {
    var low := Lower(text);
    if Contains(low, "autonomous data management") {
      assert OccursAt("autonomous data management", "data management", 11);
      ContainsTransitive(low, "autonomous data management", "data management");
    }
  }

  /** The title is never empty; only an intern gets a prefix, "Research Intern"
      when the company is known and "Intern" otherwise. */
  lemma JobTitleShape(text: string, company: string, seniority: string)
    ensures var r, b := InferJobTitle(text, company, seniority), TitleBase(text);
      && r != []
      && (r == b <==> seniority != "Intern")
      && (r == "Research Intern" + Dash + b <==> seniority == "Intern" && company != UnknownCompany)
      && (r == "Intern" + Dash + b <==> seniority == "Intern" && company == UnknownCompany)
  {
    var b := TitleBase(text);
    assert forall t | t in TitleBases :: t != [];
    assert |"Research Intern" + Dash + b| > |"Intern" + Dash + b| > |b|;
  }

  // ----- _extract_degrees -----

  /** DEGREE_WORDS: each level key with its alternatives. */
  const DegreeWords: seq<(string, seq<string>)> := [
    ("phd", ["phd", "ph.d", "doctor", "doctoral"]),
    ("master", ["master", "m.s", "ms", "graduate"]),
    ("bachelor", ["bachelor", "b.s", "bs", "undergraduate"])
  ]

  /** The display names, in sorted order. */
  const DegreeNames: seq<string> := ["Bachelor", "Master", "PhD"]

  /** `{"phd": "PhD", "master": "Master", "bachelor": "Bachelor"}.get(k, k)` */
  function PrettyDegree(k: string): (r: string)
    ensures k in {"phd", "master", "bachelor"} ==> r in DegreeNames
  {
    if k == "phd" then "PhD" else if k == "master" then "Master" else if k == "bachelor" then "Bachelor" else k
  }

  /** The text t names the level DegreeWords[j]: one of its alternatives
      occurs as a whole word. */
  predicate LevelIn(t: string, j: int)
  {
    0 <= j < |DegreeWords| && ContainsAnyWord(t, DegreeWords[j].1)
  }

  /** The level keys named in t. */
  function LevelKeys(t: string): (keys: set<string>)
    ensures forall k | k in keys :: k in {"phd", "master", "bachelor"}
  {
    set j | 0 <= j < |DegreeWords| && LevelIn(t, j) :: DegreeWords[j].0
  }

  /** The display names of the levels named in t. */
  function LevelNames(t: string): set<string>
  {
    set k | k in LevelKeys(t) :: PrettyDegree(k)
  }

  /** Each display name stands for exactly one level. */
  lemma LevelNamesMembers(t: string)
    ensures forall j | 0 <= j < |DegreeWords| :: PrettyDegree(DegreeWords[j].0) in LevelNames(t) <==> LevelIn(t, j)
    ensures forall d | d in LevelNames(t) :: d in DegreeNames
  {
    forall j | 0 <= j < |DegreeWords| && PrettyDegree(DegreeWords[j].0) in LevelNames(t) ensures LevelIn(t, j) {
      var k :| k in LevelKeys(t) && PrettyDegree(k) == PrettyDegree(DegreeWords[j].0);
      var i :| 0 <= i < |DegreeWords| && LevelIn(t, i) && DegreeWords[i].0 == k;
      assert i == j;
    }
  }

  /** The nested loops over DEGREE_WORDS and their variants that add a level
      key to a set for every alternative that occurs as a whole word in t. */
  method CollectLevels(t: string) returns (keys: set<string>)
    ensures keys == LevelKeys(t)
  {
    keys := {};
    for j := 0 to |DegreeWords|
      invariant keys == set i | 0 <= i < j && LevelIn(t, i) :: DegreeWords[i].0
    {
      var key, variants := DegreeWords[j].0, DegreeWords[j].1;
      ghost var before := keys;
      for v := 0 to |variants|
        invariant keys == before + (if exists m | 0 <= m < v :: ContainsWord(t, variants[m]) then {key} else {})
      {
        if ContainsWord(t, variants[v]) {
          keys := keys + {key};
        }
      }
      assert (exists m | 0 <= m < |variants| :: ContainsWord(t, variants[m])) == LevelIn(t, j);
      assert keys == set i | 0 <= i < j + 1 && LevelIn(t, i) :: DegreeWords[i].0;
    }
  }

  /** `sorted({_pretty(x) for x in keys}) if keys else []` */
  method PrettySorted(keys: set<string>) returns (names: seq<string>)
    requires forall k | k in keys :: k in {"phd", "master", "bachelor"}
    ensures names == Filter(DegreeNames, set k | k in keys :: PrettyDegree(k))
  {
    var pretty := set k | k in keys :: PrettyDegree(k);
    if keys == {} {
      names := [];
      assert pretty == {};
      FilterOfEmpty(DegreeNames);
    } else {
      names := SortStrings(pretty);
      DegreeNamesSorted();
      StrLtIsStrictTotalOrder();
      SortedSubsetIsFilter(names, DegreeNames, pretty, StrLt);
    }
  }

  lemma DegreeNamesSorted()
    ensures SortedBy(DegreeNames, StrLt)
  {
    assert StrLt("Bachelor", "Master") && StrLt("Master", "PhD") && StrLt("Bachelor", "PhD");
  }

  const PreferredEducation := "preferred education"

  /** The group `(required technical|preferred technical|$)` matches at e; `$`
      matches at the end and before a final newline. */
  predicate SegmentEndAt(low: string, e: nat)
  {
    OccursAt(low, "required technical", e) || OccursAt(low, "preferred technical", e) ||
    e == |low| || (e + 1 == |low| && low[e] == '\n')
  }

  /** The first place at or after e where the segment can end. */
  function SegmentEnd(low: string, e: nat): (r: nat)
    requires e <= |low|
    decreases |low| - e
    ensures e <= r <= |low| && SegmentEndAt(low, r)
    ensures forall m | e <= m < r :: !SegmentEndAt(low, m)
  {
    if SegmentEndAt(low, e) then e else SegmentEnd(low, e + 1)
  }

  /** group(1) of `preferred education(.+?)(required technical|preferred
      technical|$)` with DOTALL: the shortest non-empty text after the first
      "preferred education" that reaches an end marker. A header that closes
      the text leaves nothing for `.+?`, and no later header could do better. */
  function PreferredSegment(low: string): (seg: Option<string>)
    ensures seg.Some? ==> Contains(low, PreferredEducation)
    ensures seg.Some? ==> seg.value != [] && Contains(low, seg.value)
  {
    var p := IndexOf(low, PreferredEducation);
    if p == -1 || p + |PreferredEducation| >= |low| then None
    else
      var s := p + |PreferredEducation|;
      var e := SegmentEnd(low, s + 1);
      SliceContained(low, s, e);
      Some(low[s..e])
  }

  /** A segment exists exactly when some text follows the first "preferred
      education". It is the non-empty text from there up to the first place,
      after its first character, where the end group matches. */
  lemma PreferredSegmentShape(low: string)
    ensures PreferredSegment(low).Some? ==> Contains(low, PreferredEducation)
    ensures var p := IndexOf(low, PreferredEducation);
      PreferredSegment(low).Some? <==> p != -1 && p + |PreferredEducation| < |low|
    ensures PreferredSegment(low).Some? ==>
      var s, seg := IndexOf(low, PreferredEducation) + |PreferredEducation|, PreferredSegment(low).value;
      && seg != [] && s + |seg| <= |low| && seg == low[s..s + |seg|]
      && SegmentEndAt(low, s + |seg|)
      && (forall m | s + 1 <= m < s + |seg| :: !SegmentEndAt(low, m))
      && forall m | s + 1 <= m < s + |seg| ::
           !OccursAt(low, "required technical", m) && !OccursAt(low, "preferred technical", m)
    ensures !Contains(low, PreferredEducation) ==> PreferredSegment(low).None?
  {
    if PreferredSegment(low).Some? {
      var s := IndexOf(low, PreferredEducation) + |PreferredEducation|;
      var seg := PreferredSegment(low).value;
      assert seg == low[s..SegmentEnd(low, s + 1)];
      forall m | s + 1 <= m < s + |seg|
        ensures !OccursAt(low, "required technical", m) && !OccursAt(low, "preferred technical", m)
      {
        assert !SegmentEndAt(low, m);
      }
    }
  }

  /** _extract_degrees: every level named anywhere in the lower-cased text is
      required; the levels named in the preferred-education segment are
      preferred. */
  method ExtractDegrees(text: string) returns (degrees: map<string, seq<string>>)
    ensures degrees.Keys == {"required", "preferred"}
    ensures degrees["required"] == Filter(DegreeNames, LevelNames(Lower(text)))
    ensures degrees["preferred"] == match PreferredSegment(Lower(text))
      case None => []
      case Some(seg) => Filter(DegreeNames, LevelNames(seg))
  {
    var low := Lower(text);
    var required := CollectLevels(low);
    var preferred: set<string> := {};
    var m := PreferredSegment(low);
    if m.Some? {
      preferred := CollectLevels(m.value);
    }
    var req := PrettySorted(required);
    var pref := PrettySorted(preferred);
    if m.None? {
      assert (set k | k in preferred :: PrettyDegree(k)) == {};
      FilterOfEmpty(DegreeNames);
    }
    degrees := map["required" := req, "preferred" := pref];
  }

  /** Both lists are in the order Bachelor, Master, PhD and hold a level
      exactly when one of its alternatives occurs as a whole word. */
  lemma DegreeListsMeaning(t: string)
    ensures var r := Filter(DegreeNames, LevelNames(t));
      && SortedBy(r, StrLt)
      && (forall j | 0 <= j < |DegreeWords| :: PrettyDegree(DegreeWords[j].0) in r <==> LevelIn(t, j))
      && (forall d | d in r :: d in DegreeNames)
  {
    DegreeNamesSorted();
    FilterSorted(DegreeNames, LevelNames(t), StrLt);
    LevelNamesMembers(t);
  }

  /** "graduate" inside "undergraduate" is not a whole word, so that text does
      not name the master level. */
  lemma UndergraduateIsNotMaster()
    ensures !LevelIn("undergraduate", 1)
  {
    forall w | w in DegreeWords[1].1 ensures !ContainsWord("undergraduate", w) {
      if w == "graduate" {
        GraduateInsideUndergraduate();
      } else {
        assert w[0] == 'm';
        NoMInUndergraduate(w);
      }
    }
  }

  lemma GraduateInsideUndergraduate()
    ensures !ContainsWord("undergraduate", "graduate")
  {
    var t, w := "undergraduate", "graduate";
    forall m | 0 <= m <= |t| - |w| ensures !WholeWordAt(t, w, m) {
      if m < 5 {
        assert t[m..m + |w|][0] == t[m] != 'g';
      } else {
        assert !Boundary(t, m);
      }
    }
  }

  lemma NoMInUndergraduate(w: string)
    requires w != [] && w[0] == 'm'
    ensures !ContainsWord("undergraduate", w)
  {
    AbsentByFirstChar("undergraduate", w);
  }

  /** "undergraduate" names the bachelor level. */
  lemma UndergraduateIsBachelor()
    ensures LevelIn("undergraduate", 2)
  {
    var t := "undergraduate";
    assert WholeWordAt(t, "undergraduate", 0);
    assert "undergraduate" in DegreeWords[2].1 && ContainsWord(t, "undergraduate");
  }

  // ----- _extract_fields -----

  const ComputerScience := "Computer Science"
  const SoftwareEngineering := "Software Engineering"
  const DataEngineering := "Data Engineering"
  const DataSystems := "Data Systems"
  const RelatedField := "Related Field"

  /** The names _extract_fields can report. */
  const FieldNames: set<string> := {ComputerScience, SoftwareEngineering, DataEngineering, DataSystems, RelatedField}

  /** The five names differ from one another. */
  lemma FieldNamesDistinct()
    ensures ComputerScience != SoftwareEngineering && ComputerScience != DataEngineering
    ensures ComputerScience != DataSystems && ComputerScience != RelatedField
    ensures SoftwareEngineering != DataEngineering && SoftwareEngineering != DataSystems
    ensures SoftwareEngineering != RelatedField && DataEngineering != DataSystems
    ensures DataEngineering != RelatedField && DataSystems != RelatedField
  {
    assert |ComputerScience| == 16 && |SoftwareEngineering| == 20 && |DataEngineering| == 16;
    assert |DataSystems| == 12 && |RelatedField| == 13;
    assert ComputerScience[0] == 'C' && DataEngineering[0] == 'D';
  }

  /** fields lists a name of FieldNames exactly when one of its phrases
      occurs in low. "Data Systems" has two phrases. */
  predicate FieldsFound(low: string, fields: seq<string>)
  {
    && (forall f | f in fields :: f in FieldNames)
    && (ComputerScience in fields <==> Contains(low, "computer science"))
    && (SoftwareEngineering in fields <==> Contains(low, "software engineering"))
    && (DataEngineering in fields <==> Contains(low, "data engineering"))
    && (DataSystems in fields <==> Contains(low, "data systems") || Contains(low, "data management"))
    && (RelatedField in fields <==> Contains(low, "related field"))
  }

  /** _extract_fields: five substring tests on the lower-cased text, the
      names found listed in sorted order. */
  method ExtractFields(text: string) returns (fields: seq<string>)
    ensures SortedBy(fields, StrLt)
    ensures FieldsFound(Lower(text), fields)
  {
    var low := Lower(text);
    var found: set<string> := {};
    var cs := Contains(low, "computer science");
    var se := Contains(low, "software engineering");
    var de := Contains(low, "data engineering");
    var ds := Contains(low, "data systems") || Contains(low, "data management");
    var rf := Contains(low, "related field");
    if cs {
      found := found + {ComputerScience};
    }
    if se {
      found := found + {SoftwareEngineering};
    }
    if de {
      found := found + {DataEngineering};
    }
    if ds {
      found := found + {DataSystems};
    }
    if rf {
      found := found + {RelatedField};
    }
    FieldNamesDistinct();
    assert ComputerScience in found <==> cs;
    assert SoftwareEngineering in found <==> se;
    assert DataEngineering in found <==> de;
    assert DataSystems in found <==> ds;
    assert RelatedField in found <==> rf;
    assert found <= FieldNames;
    FieldNamesDistinct();
    fields := SortStrings(found);
  }

  /** The empty text names no field. */
  lemma NoFieldInEmptyText()
    ensures forall w | w in ["computer science", "software engineering", "data engineering",
                             "data systems", "data management", "related field"] :: !Contains(Lower(""), w)
  {
    assert Lower("") == "";
  }
}
