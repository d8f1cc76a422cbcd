/** analyze_jd_text (src/text_analyzer.py): the monolithic pipeline. The text
    is normalised once, cut into sections, and every stage reads the
    normalised text or its sections; the result always has all eleven keys. */
module TextAnalyzer {
  import opened Strings
  import opened Collections
  import opened Records
  import opened AnalyzerSections
  import AnalyzerProfile
  import AnalyzerSkills
  import AnalyzerResponsibilities

  /** The keys of the returned dictionary. */
  const ResultKeys: set<string> := {
    "company", "job_title", "seniority", "education", "fields", "responsibilities",
    "required_skills", "preferred_skills", "skill_buckets", "keywords", "summary"
  }

  /** The first responsibility, or the empty string when there is none. */
  function Summary(responsibilities: seq<string>): (r: string)
    ensures responsibilities == [] ==> r == []
    ensures responsibilities != [] ==> r == responsibilities[0]
  {
    if responsibilities == [] then "" else responsibilities[0]
  }

  /** The dictionary literal of analyze_jd_text. */
  function Record(company: string, jobTitle: string, seniority: string, education: map<string, seq<string>>,
                  fields: seq<string>, responsibilities: seq<string>, required: seq<string>,
                  preferred: seq<string>, buckets: map<string, seq<string>>, keywords: seq<string>,
                  summary: string): (m: map<string, Value>)
    ensures m.Keys == ResultKeys
    ensures m["company"] == Str(company) && m["job_title"] == Str(jobTitle)
    ensures m["seniority"] == Str(seniority) && m["education"] == Dict(education)
    ensures m["fields"] == List(fields) && m["responsibilities"] == List(responsibilities)
    ensures m["required_skills"] == List(required) && m["preferred_skills"] == List(preferred)
    ensures m["skill_buckets"] == Dict(buckets) && m["keywords"] == List(keywords)
    ensures m["summary"] == Str(summary)
  {
    map[
      "company" := Str(company),
      "job_title" := Str(jobTitle),
      "seniority" := Str(seniority),
      "education" := Dict(education),
      "fields" := List(fields),
      "responsibilities" := List(responsibilities),
      "required_skills" := List(required),
      "preferred_skills" := List(preferred),
      "skill_buckets" := Dict(buckets),
      "keywords" := List(keywords),
      "summary" := Str(summary)
    ]
  }

  /** analyze_jd_text. The company rule that reads the head of the text is a
      parameter, as in AnalyzerProfile.ExtractCompany. */
  method AnalyzeJdText(jd: string, headRule: string -> Option<string>) returns (result: map<string, Value>)
    ensures result.Keys == ResultKeys
    ensures var t := Normalize(jd);
      var company := AnalyzerProfile.ExtractCompany(t, headRule);
      var seniority := AnalyzerProfile.ExtractSeniority(t);
      && result["company"] == Str(company)
      && result["seniority"] == Str(seniority)
      && result["job_title"] == Str(AnalyzerProfile.InferJobTitle(t, company, seniority))
    ensures var t := Normalize(jd);
      var resp := AnalyzerResponsibilities.Responsibilities(Sections(t));
      && result["responsibilities"] == List(resp)
      && result["summary"] == Str(Summary(resp))
    ensures var t := Normalize(jd);
      && result["education"].Dict?
      && result["education"].entries.Keys == {"required", "preferred"}
      && result["education"].entries["required"] ==
           Filter(AnalyzerProfile.DegreeNames, AnalyzerProfile.LevelNames(Lower(t)))
      && result["education"].entries["preferred"] ==
           (match AnalyzerProfile.PreferredSegment(Lower(t))
            case None => []
            case Some(seg) => Filter(AnalyzerProfile.DegreeNames, AnalyzerProfile.LevelNames(seg)))
      && result["fields"].List?
      && SortedBy(result["fields"].items, StrLt)
      && AnalyzerProfile.FieldsFound(Lower(t), result["fields"].items)
    ensures var t := Normalize(jd);
      var full := AnalyzerSkills.Full(t, Sections(t));
      && result["skill_buckets"].Dict?
      && result["skill_buckets"].entries.Keys == AnalyzerSkills.BucketKeys
      && AnalyzerSkills.IsBucket(result["skill_buckets"].entries[AnalyzerSkills.AiKey], full, AnalyzerSkills.Ai)
      && AnalyzerSkills.IsBucket(result["skill_buckets"].entries[AnalyzerSkills.DataKey], full, AnalyzerSkills.Data)
    ensures var t := Normalize(jd);
      var sections := Sections(t);
      && result["required_skills"].List? && result["preferred_skills"].List?
      && SortedBy(result["required_skills"].items, StrLt)
      && SortedBy(result["preferred_skills"].items, StrLt)
      && (forall x :: x in result["required_skills"].items <==>
            x in AnalyzerSkills.AllNames(Lower(AnalyzerSkills.RequiredSegment(t, sections)),
                                         AnalyzerSkills.AllVocabs, |AnalyzerSkills.AllVocabs|) ||
            (AnalyzerSkills.TopicsSegment(sections) != [] &&
             x in AnalyzerSkills.AllNames(Lower(AnalyzerSkills.TopicsSegment(sections)),
                                          AnalyzerSkills.TopicVocabs, |AnalyzerSkills.TopicVocabs|)))
      && (forall x :: x in result["preferred_skills"].items <==>
            x in AnalyzerSkills.AllNames(Lower(AnalyzerSkills.Get(sections, AnalyzerSkills.PreferredHeader, "")),
                                         AnalyzerSkills.AllVocabs, |AnalyzerSkills.AllVocabs|))
    ensures result["keywords"].List? && result["skill_buckets"].Dict?
    ensures SortedBy(result["keywords"].items, StrLt)
    ensures var b := result["skill_buckets"].entries;
      AnalyzerSkills.AiKey in b && AnalyzerSkills.DataKey in b &&
      forall x :: x in result["keywords"].items <==> x in b[AnalyzerSkills.AiKey] || x in b[AnalyzerSkills.DataKey]
  {
    var text := Normalize(jd);
    var sections := Sections(text);
    var company := AnalyzerProfile.ExtractCompany(text, headRule);
    var seniority := AnalyzerProfile.ExtractSeniority(text);
    var jobTitle := AnalyzerProfile.InferJobTitle(text, company, seniority);
    var degrees := AnalyzerProfile.ExtractDegrees(text);
    var fields := AnalyzerProfile.ExtractFields(text);
    var required, preferred, buckets := AnalyzerSkills.ExtractSkills(text, sections);
    var responsibilities := AnalyzerResponsibilities.ExtractResponsibilities(sections);
    var pool := buckets[AnalyzerSkills.AiKey] + buckets[AnalyzerSkills.DataKey];
    var keywords := SortStrings(set x | x in pool);
    var summary := "";
    if responsibilities != [] {
      summary := responsibilities[0];
    }
    result := Record(company, jobTitle, seniority, degrees, fields, responsibilities,
                     required, preferred, buckets, keywords, summary);
  }

  /** The summary, when there is one, is a trimmed, single-spaced line that is
      also the first responsibility. */
  lemma SummaryShape(sections: map<string, string>)
    ensures var resp := AnalyzerResponsibilities.Responsibilities(sections);
      var s := Summary(resp);
      && (s == [] <==> resp == [])
      && (s != [] ==> IsStripped(s) && SingleSpaced(s) && s in resp)
  {
    var resp := AnalyzerResponsibilities.Responsibilities(sections);
    if resp != [] {
      assert resp[0] in resp;
    }
  }
}
