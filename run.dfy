/** analyze_jd (src/run.py): the modular pipeline. The raw text is cleaned once
    and every extractor reads the cleaned text. */
module Run {
  import opened Strings
  import opened Collections
  import opened Records
  import opened TextPreprocessor
  import SeniorityExtractor
  import DegreeExtractor
  import FieldExtractor
  import SkillExtractor
  import TitleCompanyExtractor

  /** The keys of the returned dictionary. */
  const ResultKeys: set<string> := {
    "job_title", "company", "seniority", "degree_requirement", "fields",
    "required_skills", "preferred_skills", "raw_text"
  }

  method AnalyzeJd(raw: string) returns (result: map<string, Value>)
    ensures result.Keys == ResultKeys
    ensures result["raw_text"] == Str(raw)
    ensures var t := CleanJdText(raw);
      && result["job_title"] == Str(TitleCompanyExtractor.TitleAndCompany(t).0)
      && result["company"] == Str(TitleCompanyExtractor.TitleAndCompany(t).1)
      && result["seniority"] == Str(SeniorityExtractor.ExtractSeniority(t))
    ensures var t := Lower(CleanJdText(raw));
      && result["degree_requirement"].List?
      && (forall d | d in result["degree_requirement"].items :: d in DegreeExtractor.Order)
      && (forall i, j | 0 <= i < j < |result["degree_requirement"].items| ::
            DegreeExtractor.RankOf(result["degree_requirement"].items[i]) <
            DegreeExtractor.RankOf(result["degree_requirement"].items[j]))
      && (forall k | 0 <= k < |DegreeExtractor.Order| ::
            DegreeExtractor.Order[k] in result["degree_requirement"].items <==>
            ContainsAnyWord(t, DegreeExtractor.LevelWords(k)))
      && result["fields"].List?
      && NoDuplicates(result["fields"].items)
      && (forall f :: f in result["fields"].items <==> FieldExtractor.FieldFound(t, f))
    ensures var ss := SkillExtractor.SplitSentences(Lower(CleanJdText(raw)));
      && result["required_skills"].List? && result["preferred_skills"].List?
      && SortedBy(result["required_skills"].items, StrLt)
      && SortedBy(result["preferred_skills"].items, StrLt)
      && (forall n :: n in result["required_skills"].items <==> SkillExtractor.SkillIn(ss, n, false))
      && (forall n :: n in result["preferred_skills"].items <==>
            SkillExtractor.SkillIn(ss, n, true) && !SkillExtractor.SkillIn(ss, n, false))
    ensures forall n | n in result["required_skills"].items :: n !in result["preferred_skills"].items
  {
    var cleaned := CleanJdText(raw);
    var jobTitle, company := TitleCompanyExtractor.ExtractJobTitleAndCompany(cleaned);
    var seniority := SeniorityExtractor.ExtractSeniority(cleaned);
    var degree := DegreeExtractor.ExtractDegreeRequirement(cleaned);
    var fields := FieldExtractor.ExtractFields(cleaned);
    var required, preferred := SkillExtractor.ExtractSkills(cleaned);
    result := Record(jobTitle, company, seniority, degree, fields, required, preferred, raw);
  }

  /** The dictionary literal of analyze_jd. */
  function Record(jobTitle: string, company: string, seniority: string, degree: seq<string>,
                  fields: seq<string>, required: seq<string>, preferred: seq<string>, raw: string): (m: map<string, Value>)
    ensures m.Keys == ResultKeys
    ensures m["job_title"] == Str(jobTitle) && m["company"] == Str(company)
    ensures m["seniority"] == Str(seniority) && m["degree_requirement"] == List(degree)
    ensures m["fields"] == List(fields) && m["raw_text"] == Str(raw)
    ensures m["required_skills"] == List(required) && m["preferred_skills"] == List(preferred)
  {
    map[
      "job_title" := Str(jobTitle),
      "company" := Str(company),
      "seniority" := Str(seniority),
      "degree_requirement" := List(degree),
      "fields" := List(fields),
      "required_skills" := List(required),
      "preferred_skills" := List(preferred),
      "raw_text" := Str(raw)
    ]
  }

  /** Cleaning turns every newline into a space, so the title scanner of this
      pipeline sees at most one line, and a title line, when there is one, is
      the whole cleaned text. */
  lemma CleanedTextIsOneLine(raw: string)
    ensures |SplitLines(CleanJdText(raw))| <= 1
    ensures CleanJdText(raw) != [] ==> SplitLines(CleanJdText(raw)) == [CleanJdText(raw)]
  {
    var t := CleanJdText(raw);
    CleanShape(raw);
    SplitLinesOfOneLine(t);
    SplitWithoutSeparator(t, '\n');
    if t != [] {
      StripOfStripped(t);
      assert StripNonBlank([t]) == [t] + StripNonBlank([]);
    }
  }
}
