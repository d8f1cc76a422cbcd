/** extract_job_title_and_company (src/title_company_extractor.py): among the
    first fifteen non-empty lines, the first that names a job and is not page
    boilerplate gives the title (cut at " at ", "," or ".") and the company
    (the capitalised words after "at"). */
module TitleCompanyExtractor {
  import opened Strings
  import opened Records

  const JobWords: seq<string> := ["intern", "engineer", "scientist", "analyst", "developer", "manager"]
  const BoilerplateWords: seq<string> :=
    ["about", "who we are", "the team", "who are you", "what you'll do", "what you will do"]

  /** Only this many lines are examined. */
  const ScanLimit: nat := 15

  /** A line that can carry the title: no boilerplate phrase, some job word. */
  predicate IsTitleLine(line: string)
  {
    !ContainsAny(Lower(line), BoilerplateWords) && ContainsAny(Lower(line), JobWords)
  }

  /** The index of the first title line at or after i among the first
      ScanLimit lines. */
  function TitleLineIndex(lines: seq<string>, i: nat): (r: Option<nat>)
    decreases |lines| - i
    ensures r.Some? ==> i <= r.value < |lines| && r.value < ScanLimit && IsTitleLine(lines[r.value])
    ensures r.Some? ==> forall m | i <= m < r.value :: !IsTitleLine(lines[m])
    ensures r.None? ==> forall m | i <= m < |lines| && m < ScanLimit :: !IsTitleLine(lines[m])
  {
    if i >= |lines| || i >= ScanLimit then None
    else if IsTitleLine(lines[i]) then Some(i)
    else TitleLineIndex(lines, i + 1)
  }

  /** The end of the whitespace run that starts at k. */
  function SpaceRunEnd(s: string, k: nat): (r: nat)
    requires k <= |s|
    decreases |s| - k
    ensures k <= r <= |s|
    ensures forall m | k <= m < r :: IsSpace(s[m])
    ensures r == |s| || !IsSpace(s[r])
  {
    if k == |s| || !IsSpace(s[k]) then k else SpaceRunEnd(s, k + 1)
  }

  /** `\s+at\s+` matches at e, "at" in either case. The greedy `\s+` can
      only be followed by "a" after the whole whitespace run. */
  predicate SpacedAtAt(s: string, e: nat)
  {
    e < |s| && IsSpace(s[e]) &&
    var j := SpaceRunEnd(s, e);
    j + 2 < |s| && LowerChar(s[j]) == 'a' && LowerChar(s[j + 1]) == 't' && IsSpace(s[j + 2])
  }

  /** `(?:\s+at\s+|,|\.)` matches at e. */
  predicate TerminatorAt(s: string, e: nat)
  {
    e < |s| && (s[e] == ',' || s[e] == '.' || SpacedAtAt(s, e))
  }

  /** Where the lazy group `^(.*?)` of the title pattern ends: the first
      terminator at or after e. */
  function TitleCut(s: string, e: nat): (r: Option<nat>)
    decreases |s| - e
    ensures r.Some? ==> e <= r.value < |s| && TerminatorAt(s, r.value)
    ensures r.Some? ==> forall m | e <= m < r.value :: !TerminatorAt(s, m)
    ensures r.None? ==> forall m | e <= m < |s| :: !TerminatorAt(s, m)
  {
    if e >= |s| then None
    else if TerminatorAt(s, e) then Some(e)
    else TitleCut(s, e + 1)
  }

  /** The job title taken from the title line. */
  function JobTitleOf(line: string): string
  {
    match TitleCut(line, 0)
    case Some(e) => Strip(line[..e])
    case None => Strip(line)
  }

  /** A comma or a full stop always ends the title, so neither is in it; the
      title is a trimmed prefix of the line. */
  lemma TitleShape(line: string)
    ensures ',' !in JobTitleOf(line) && '.' !in JobTitleOf(line)
    ensures IsStripped(JobTitleOf(line))
    ensures exists e | 0 <= e <= |line| :: JobTitleOf(line) == Strip(line[..e])
  {
    var cut := TitleCut(line, 0);
    var e := if cut.Some? then cut.value else |line|;
    assert line[..|line|] == line;
    var p := line[..e];
    forall m | 0 <= m < |p| ensures p[m] != ',' && p[m] != '.' {
      assert !TerminatorAt(line, m);
    }
    StripKeepsOut(p, ',');
    StripKeepsOut(p, '.');
  }

  /** A line without a comma, a full stop or a spaced "at" is its own title. */
  lemma TitleOfUncutLine(line: string)
    requires IsStripped(line)
    requires forall e | 0 <= e < |line| :: !TerminatorAt(line, e)
    ensures JobTitleOf(line) == line
  {
    var cut := TitleCut(line, 0);
    assert cut.None?;
    StripOfStripped(line);
  }

  /** `[A-Za-z0-9&\-\s]` */
  predicate IsCompanyChar(c: char)
  {
    IsUpper(c) || IsLowerLetter(c) || ('0' <= c <= '9') || c == '&' || c == '-' || IsSpace(c)
  }

  /** `\bat\s+[A-Z][A-Za-z0-9&\-\s]` matches at i (case-sensitive). The greedy
      `\s+` must stop at the capital letter, so it runs to the end of the
      whitespace. */
  predicate CompanyAt(s: string, i: nat)
  {
    i + 2 < |s| && s[i] == 'a' && s[i + 1] == 't' && Boundary(s, i) && IsSpace(s[i + 2]) &&
    var j := SpaceRunEnd(s, i + 2);
    j + 1 < |s| && IsUpper(s[j]) && IsCompanyChar(s[j + 1])
  }

  /** The end of the run of company characters that starts at k. */
  function CompanyRunEnd(s: string, k: nat): (r: nat)
    requires k <= |s|
    decreases |s| - k
    ensures k <= r <= |s|
    ensures forall m | k <= m < r :: IsCompanyChar(s[m])
    ensures r == |s| || !IsCompanyChar(s[r])
  {
    if k == |s| || !IsCompanyChar(s[k]) then k else CompanyRunEnd(s, k + 1)
  }

  /** group(1) of the company pattern matched at i: the capital letter and the
      greedy run of company characters after it. */
  function CompanyGroup(s: string, i: nat): (g: string)
    requires CompanyAt(s, i)
    ensures g != [] && IsUpper(g[0])
    ensures forall k | 0 <= k < |g| :: IsCompanyChar(g[k])
  {
    var j := SpaceRunEnd(s, i + 2);
    s[j..CompanyRunEnd(s, j + 1)]
  }

  /** The leftmost match of the company pattern at or after i. */
  function CompanySearch(s: string, i: nat): (r: Option<nat>)
    decreases |s| - i
    ensures r.Some? ==> i <= r.value < |s| && CompanyAt(s, r.value)
    ensures r.Some? ==> forall m | i <= m < r.value :: !CompanyAt(s, m)
    ensures r.None? ==> forall m | i <= m :: !CompanyAt(s, m)
  {
    if i >= |s| then None
    else if CompanyAt(s, i) then Some(i)
    else CompanySearch(s, i + 1)
  }

  /** group(1) of the company pattern, stripped; "" when it does not match. */
  function CompanyOf(line: string): string
  {
    match CompanySearch(line, 0)
    case None => ""
    case Some(i) => Strip(CompanyGroup(line, i))
  }

  /** A company begins with a capital letter, consists of letters, digits,
      "&", "-" and spaces, and is found only after a word "at" and whitespace. */
  lemma CompanyShape(line: string)
    ensures var c := CompanyOf(line);
      && (c != [] ==> IsUpper(c[0]))
      && (forall k | 0 <= k < |c| :: IsCompanyChar(c[k]))
      && (c != [] <==> exists i | 0 <= i < |line| :: CompanyAt(line, i))
  {
    var found := CompanySearch(line, 0);
    if found.Some? {
      var g := CompanyGroup(line, found.value);
      assert !IsSpace(g[0]);
      assert StripStart(g) == 0;
      var c := Strip(g);
      assert c == g[..|c|];
    }
  }

  /** The pair the function returns for a given text: both parts come from
      one title line among the first ScanLimit lines, and the parts have the
      shapes TitleShape and CompanyShape give them. */
  function TitleAndCompany(jd: string): (r: (string, string))
    ensures jd == [] ==> r == ("", "")
    ensures r != ("", "") ==> exists k | 0 <= k < |SplitLines(jd)| && k < ScanLimit ::
      IsTitleLine(SplitLines(jd)[k]) && r == (JobTitleOf(SplitLines(jd)[k]), CompanyOf(SplitLines(jd)[k]))
    ensures IsStripped(r.0) && ',' !in r.0 && '.' !in r.0
    ensures r.1 != [] ==> IsUpper(r.1[0])
    ensures forall k | 0 <= k < |r.1| :: IsCompanyChar(r.1[k])
  {
    if jd == [] then ("", "")
    else
      var lines := SplitLines(jd);
      match TitleLineIndex(lines, 0)
      case None => ("", "")
      case Some(k) =>
        var line := lines[k];
        TitleShape(line);
        CompanyShape(line);
        assert k < ScanLimit && IsTitleLine(line);
        (JobTitleOf(line), CompanyOf(line))
  }

  /** The loop over `lines[:15]`: boilerplate lines are skipped, the first
      line with a job word is the title line. */
  method FindTitleLine(lines: seq<string>) returns (titleLine: Option<string>)
    ensures match TitleLineIndex(lines, 0)
      case None => titleLine.None?
      case Some(k) => titleLine == Some(lines[k])
  {
    titleLine := None;
    var limit := if |lines| < ScanLimit then |lines| else ScanLimit;
    for i := 0 to limit
      invariant forall m | 0 <= m < i :: !IsTitleLine(lines[m])
    {
      var lowerLine := Lower(lines[i]);
      if ContainsAny(lowerLine, BoilerplateWords) {
        assert !IsTitleLine(lines[i]);
        continue;
      }
      if ContainsAny(lowerLine, JobWords) {
        titleLine := Some(lines[i]);
        assert TitleLineIndex(lines, 0) == Some(i);
        return;
      }
      assert !IsTitleLine(lines[i]);
    }
  }

  method ExtractJobTitleAndCompany(jd: string) returns (title: string, company: string)
    ensures title == TitleAndCompany(jd).0 && company == TitleAndCompany(jd).1
  {
    title, company := "", "";
    if jd == [] {
      return;
    }
    var lines := SplitLines(jd);
    var titleLine := FindTitleLine(lines);
    if titleLine.Some? {
      var line := titleLine.value;
      match TitleCut(line, 0) {
        case Some(e) => title := Strip(line[..e]);
        case None => title := Strip(line);
      }
      match CompanySearch(line, 0) {
        case Some(i) => company := Strip(CompanyGroup(line, i));
        case None =>
      }
    }
  }
}
