/** The vocabulary-driven skill stage of the monolithic analyser
    (src/text_analyzer.py): _pretty_skill, _find_terms and _extract_skills. */
module AnalyzerSkills {
  import opened Strings
  import opened Collections

  // ----- vocabularies -----

  const Languages: seq<string> :=
    ["python", "java", "c++", "c#", "javascript", "typescript", "sql", "nosql", "r", "go", "scala"]
  const Cloud: seq<string> := ["aws", "azure", "gcp", "google cloud", "amazon web services"]
  const Data: seq<string> := [
    "dataops", "devops", "data engineering", "analytics", "data systems", "database", "databases",
    "knowledge graph", "knowledge graphs", "multimodal", "multi-modal", "data discovery", "question answering"]
  const Ai: seq<string> := [
    "llm", "llms", "large language model", "large language models", "foundation model", "foundation models",
    "ai agents", "agentic", "rag", "retrieval augmented generation", "prompt", "prompting",
    "prompt optimization", "reinforcement learning", "rl", "planning", "ai planning", "model inference",
    "generative ai", "genai", "code generation"]
  const Frameworks: seq<string> :=
    ["langchain", "llamaindex", "hugging face", "pytorch", "tensorflow", "sklearn", "scikit-learn"]

  // ----- _pretty_skill -----

  /** The display names of _pretty_skill, keyed by lower-cased term. */
  const Display: map<string, string> := map[
    "llm" := "LLM",
    "llms" := "LLMs",
    "nosql" := "NoSQL",
    "sql" := "SQL",
    "rag" := "RAG",
    "genai" := "Generative AI",
    "google cloud" := "GCP",
    "amazon web services" := "AWS",
    "knowledge graph" := "Knowledge Graphs",
    "knowledge graphs" := "Knowledge Graphs",
    "multi-modal" := "Multimodal",
    "multimodal" := "Multimodal",
    "ai agents" := "AI Agents"
  ]

  /** _pretty_skill: the stripped term's display name when the table has one,
      otherwise the stripped term with its first character upper-cased. */
  function PrettySkill(s: string): (r: string)
    ensures Lower(Strip(s)) !in Display ==> |r| == |Strip(s)| && Lower(r) == Lower(Strip(s))
    ensures Lower(Strip(s)) !in Display && r != [] ==> !IsLowerLetter(r[0])
  {
    var t := Strip(s);
    var low := Lower(t);
    if low in Display then Display[low] else Capitalize(t)
  }

  /** `s[0].upper() + s[1:] if s else s`: only the first character may change,
      and only in case. */
  function Capitalize(t: string): (r: string)
    ensures |r| == |t| && Lower(r) == Lower(t)
    ensures r != [] ==> !IsLowerLetter(r[0]) && r[1..] == t[1..]
  {
    if t == [] then t
    else
      var r := [UpperChar(t[0])] + t[1..];
      assert forall i | 1 <= i < |t| :: r[i] == t[i];
      assert Lower(r) == Lower(t);
      r
  }

  /** The name is empty exactly when the term is blank. */
  lemma PrettySkillEmptyIffBlank(s: string)
    ensures PrettySkill(s) == [] <==> IsBlank(s)
  {
    StripEmptyIffBlank(s);
    var low := Lower(Strip(s));
    if low in Display {
      DisplayEntryNonEmpty(low);
    }
  }

  /** No key and no display name of the table is empty. */
  lemma DisplayEntryNonEmpty(k: string)
    requires k in Display
    ensures k != [] && Display[k] != []
  {
  }

  /** A trimmed table name whose lower-cased form is a key that maps back to
      the name is its own display name. */
  lemma TableNameFixed(v: string)
    requires IsStripped(v)
    requires Lower(v) in Display && Display[Lower(v)] == v
    ensures PrettySkill(v) == v
  {
    StripOfStripped(v);
  }

  /** "LLM" is such a name. */
  lemma LlmFixed()
    ensures PrettySkill("LLM") == "LLM"
  {
    assert Lower("LLM") == "llm";
    TableNameFixed("LLM");
  }

  /** So is "Knowledge Graphs", the name of both "knowledge graph" and
      "knowledge graphs". */
  lemma KnowledgeGraphsFixed()
    ensures PrettySkill("Knowledge Graphs") == "Knowledge Graphs"
  {
    assert Lower("Knowledge Graphs") == "knowledge graphs";
    TableNameFixed("Knowledge Graphs");
  }

  /** Outside the table, prettifying twice changes nothing. */
  lemma PrettySkillIdempotent(s: string)
    requires Lower(Strip(s)) !in Display
    ensures PrettySkill(PrettySkill(s)) == PrettySkill(s)
  {
    var r := Capitalize(Strip(s));
    CapitalizeStripped(Strip(s));
    StripOfStripped(r);
  }

  /** Capitalising a trimmed string keeps it trimmed, and capitalising again
      changes nothing. */
  lemma CapitalizeStripped(t: string)
    requires IsStripped(t)
    ensures IsStripped(Capitalize(t)) && Capitalize(Capitalize(t)) == Capitalize(t)
  {
    var r := Capitalize(t);
    if t != [] {
      assert r[0] == UpperChar(t[0]);
      assert r[|r| - 1] == t[|t| - 1] || |t| == 1;
      assert [UpperChar(r[0])] + r[1..] == r;
    }
  }

  // ----- _find_terms -----

  /** The display names of the terms of vocab that occur as whole words in
      low. */
  function NamesOf(low: string, vocab: seq<string>): set<string>
  {
    NamesBy(low, vocab, PrettySkill)
  }

  /** The images under f of the terms of vocab that occur as whole words in
      low, gathered term by term. */
  function NamesBy(low: string, vocab: seq<string>, f: string -> string): set<string>
  {
    if vocab == [] then {}
    else
      var t := vocab[|vocab| - 1];
      NamesBy(low, vocab[..|vocab| - 1], f) + (if ContainsWord(low, t) then {f(t)} else {})
  }

  /** x is gathered exactly when some term of vocab occurs as a whole word in
      low and f maps it to x. */
  lemma {:induction false} NamesByMeaning(low: string, vocab: seq<string>, f: string -> string, x: string)
    ensures x in NamesBy(low, vocab, f) <==> exists t | t in vocab :: ContainsWord(low, t) && f(t) == x
  {
    if vocab != [] {
      var init := vocab[..|vocab| - 1];
      var t := vocab[|vocab| - 1];
      NamesByMeaning(low, init, f, x);
      assert vocab == init + [t];
      if exists u | u in vocab :: ContainsWord(low, u) && f(u) == x {
        var u :| u in vocab && ContainsWord(low, u) && f(u) == x;
        if u != t {
          assert u in init;
        }
      }
    }
  }

  /** _find_terms: the display names of the vocabulary terms that occur as
      whole words in the lower-cased text, sorted. */
  method FindTerms(text: string, vocab: seq<string>) returns (names: seq<string>)
    ensures SortedBy(names, StrLt)
    ensures forall x :: x in names <==> x in NamesOf(Lower(text), vocab)
  {
    var low := Lower(text);
    var found: set<string> := {};
    for i := 0 to |vocab|
      invariant forall t :: t in found <==> t in vocab[..i] && ContainsWord(low, t)
    {
      if ContainsWord(low, vocab[i]) {
        found := found + {vocab[i]};
      }
      assert vocab[..i + 1] == vocab[..i] + [vocab[i]];
    }
    assert vocab[..|vocab|] == vocab;
    names := SortStrings(set t | t in found :: PrettySkill(t));
    forall x ensures x in names <==> x in NamesOf(low, vocab) {
      NamesByMeaning(low, vocab, PrettySkill, x);
    }
  }

  /** Nothing is named in the empty text: `\b` never matches there. */
  lemma NothingNamedInEmptyText(vocab: seq<string>)
    ensures NamesOf("", vocab) == {}
  {
    forall t | t in vocab ensures !ContainsWord("", t) {
      assert !Boundary("", 0);
    }
    forall x ensures x !in NamesOf("", vocab) {
      NamesByMeaning("", vocab, PrettySkill, x);
    }
  }

  /** `\b` after "c++" needs a word character next, so "c++" before a space
      is not found. */
  lemma CppBeforeSpaceIgnored()
    ensures !ContainsWord(Lower("C++ developer"), "c++")
  {
    var low := Lower("C++ developer");
    assert low == "c++ developer";
    assert !Boundary(low, 3);
    forall i | 1 <= i <= |low| - 3 ensures !OccursAt(low, "c++", i) {
      assert low[i..i + 3][0] == low[i] != 'c';
    }
  }

  // ----- _extract_skills -----

  const RequiredHeader := "required technical and professional expertise"
  const PreferredHeader := "preferred technical and professional experience"
  const TopicsLongHeader := "topics include but are not limited to"
  const TopicsHeader := "topics include"

  /** dict.get(key, default) */
  function Get(m: map<string, string>, key: string, default: string): (v: string)
    ensures key in m ==> v == m[key]
    ensures key !in m ==> v == default
  {
    if key in m then m[key] else default
  }

  /** The names the first n vocabularies give in low: the union the
      update calls of _extract_skills build. */
  function AllNames(low: string, vocabs: seq<seq<string>>, n: nat): set<string>
    requires n <= |vocabs|
  {
    if n == 0 then {} else AllNames(low, vocabs, n - 1) + NamesOf(low, vocabs[n - 1])
  }

  /** A name is in the union exactly when one of the vocabularies gives it. */
  lemma {:induction false} AllNamesMeaning(low: string, vocabs: seq<seq<string>>, n: nat, x: string)
    requires n <= |vocabs|
    ensures x in AllNames(low, vocabs, n) <==> exists j | 0 <= j < n :: x in NamesOf(low, vocabs[j])
  {
    if n > 0 {
      AllNamesMeaning(low, vocabs, n - 1, x);
      var last := NamesOf(low, vocabs[n - 1]);
      assert AllNames(low, vocabs, n) == AllNames(low, vocabs, n - 1) + last;
      if x in last {
        assert exists j | 0 <= j < n :: x in NamesOf(low, vocabs[j]);
      }
      if exists j | 0 <= j < n :: x in NamesOf(low, vocabs[j]) {
        var j :| 0 <= j < n && x in NamesOf(low, vocabs[j]);
        assert j < n - 1 || x in last;
      }
    }
  }

  /** The vocabularies of the required and preferred scans, in call order. */
  const AllVocabs: seq<seq<string>> := [Languages, Ai, Data, Cloud, Frameworks]
  /** The vocabularies of the topics scan. */
  const TopicVocabs: seq<seq<string>> := [Languages, Ai, Data]

  const LanguagesKey := "languages"
  const CloudKey := "cloud"
  const AiKey := "ai_ml"
  const DataKey := "data_systems"
  const FrameworksKey := "frameworks"

  /** The keys of the skill_buckets dictionary. */
  const BucketKeys: set<string> := {LanguagesKey, CloudKey, AiKey, DataKey, FrameworksKey}

  /** The text every bucket and the required fallback read. */
  function Full(text: string, sections: map<string, string>): string
  {
    Get(sections, "full", text)
  }

  /** The segment the required scan reads: the required section, or the
      full text when that section is missing or empty. */
  function RequiredSegment(text: string, sections: map<string, string>): (seg: string)
    ensures Get(sections, RequiredHeader, "") != [] ==> seg == sections[RequiredHeader]
    ensures Get(sections, RequiredHeader, "") == [] ==> seg == Full(text, sections)
  {
    var r := Get(sections, RequiredHeader, "");
    if r == [] then Full(text, sections) else r
  }

  /** `sections.get(long topics header, "") or sections.get(topics header, "")` */
  function TopicsSegment(sections: map<string, string>): string
  {
    var t := Get(sections, TopicsLongHeader, "");
    if t != [] then t else Get(sections, TopicsHeader, "")
  }

  /** The update calls of _extract_skills for one segment: the union of the
      terms found for each vocabulary. */
  method CollectTerms(seg: string, vocabs: seq<seq<string>>) returns (names: set<string>)
    ensures names == AllNames(Lower(seg), vocabs, |vocabs|)
  {
    var low := Lower(seg);
    names := {};
    for k := 0 to |vocabs|
      invariant names == AllNames(low, vocabs, k)
    {
      var terms := FindTerms(seg, vocabs[k]);
      assert (set x | x in terms) == NamesOf(low, vocabs[k]);
      names := names + set x | x in terms;
    }
  }

  /** The bucket keys differ from one another. */
  lemma BucketKeysDistinct()
    ensures LanguagesKey != CloudKey && LanguagesKey != AiKey && LanguagesKey != DataKey
    ensures LanguagesKey != FrameworksKey && CloudKey != AiKey && CloudKey != DataKey
    ensures CloudKey != FrameworksKey && AiKey != DataKey && AiKey != FrameworksKey
    ensures DataKey != FrameworksKey
  {
    assert |LanguagesKey| == 9 && |CloudKey| == 5 && |AiKey| == 5;
    assert |DataKey| == 12 && |FrameworksKey| == 10;
    assert CloudKey[0] == 'c' && AiKey[0] == 'a';
  }

  /** The bucket names, sorted, the names vocab gives in full. */
  ghost predicate IsBucket(names: seq<string>, full: string, vocab: seq<string>)
  {
    SortedBy(names, StrLt) && forall x :: x in names <==> x in NamesOf(Lower(full), vocab)
  }

  /** `sorted(set(_find_terms(full, vocab)))` */
  method Bucket(full: string, vocab: seq<string>) returns (names: seq<string>)
    ensures IsBucket(names, full, vocab)
  {
    var terms := FindTerms(full, vocab);
    names := SortStrings(set x | x in terms);
  }

  /** The skill_buckets dictionary: each key holds the sorted names its
      vocabulary gives in the full text. */
  method SkillBuckets(full: string) returns (buckets: map<string, seq<string>>)
    ensures buckets.Keys == BucketKeys
    ensures IsBucket(buckets[LanguagesKey], full, Languages) && IsBucket(buckets[CloudKey], full, Cloud)
    ensures IsBucket(buckets[AiKey], full, Ai) && IsBucket(buckets[DataKey], full, Data)
    ensures IsBucket(buckets[FrameworksKey], full, Frameworks)
  {
    var languages := Bucket(full, Languages);
    var cloud := Bucket(full, Cloud);
    var ai := Bucket(full, Ai);
    var data := Bucket(full, Data);
    var frameworks := Bucket(full, Frameworks);
    BucketKeysDistinct();
    buckets := map[LanguagesKey := languages, CloudKey := cloud, AiKey := ai, DataKey := data,
                   FrameworksKey := frameworks];
  }

  /** _extract_skills: the required list names every term of the five
      vocabularies in the required segment and every language, AI or data
      term of the topics section; the preferred list those of the preferred
      section; both sorted. */
  method ExtractSkills(text: string, sections: map<string, string>)
    returns (required: seq<string>, preferred: seq<string>, buckets: map<string, seq<string>>)
    ensures SortedBy(required, StrLt) && SortedBy(preferred, StrLt)
    ensures forall x :: x in required <==>
      x in AllNames(Lower(RequiredSegment(text, sections)), AllVocabs, |AllVocabs|) ||
      (TopicsSegment(sections) != [] && x in AllNames(Lower(TopicsSegment(sections)), TopicVocabs, |TopicVocabs|))
    ensures forall x :: x in preferred <==>
      x in AllNames(Lower(Get(sections, PreferredHeader, "")), AllVocabs, |AllVocabs|)
    ensures buckets.Keys == BucketKeys
    ensures IsBucket(buckets[LanguagesKey], Full(text, sections), Languages)
    ensures IsBucket(buckets[CloudKey], Full(text, sections), Cloud)
    ensures IsBucket(buckets[AiKey], Full(text, sections), Ai)
    ensures IsBucket(buckets[DataKey], Full(text, sections), Data)
    ensures IsBucket(buckets[FrameworksKey], Full(text, sections), Frameworks)
  {
    var full := Get(sections, "full", text);
    var reqSeg := Get(sections, RequiredHeader, "");
    var prefSeg := Get(sections, PreferredHeader, "");
    if reqSeg == [] {
      reqSeg := full;
    }
    var req := CollectTerms(reqSeg, AllVocabs);
    var pref := CollectTerms(prefSeg, AllVocabs);
    var topicsSeg := Get(sections, TopicsLongHeader, "");
    if topicsSeg == [] {
      topicsSeg := Get(sections, TopicsHeader, "");
    }
    if topicsSeg != [] {
      var topical := CollectTerms(topicsSeg, TopicVocabs);
      req := req + topical;
    }
    required := SortStrings(req);
    preferred := SortStrings(pref);
    buckets := SkillBuckets(full);
  }

  /** Without a preferred section (or with an empty one) there are no
      preferred skills. */
  lemma {:induction false} NoPreferredWithoutSection(n: nat)
    requires n <= |AllVocabs|
    ensures AllNames(Lower(""), AllVocabs, n) == {}
  {
    if n > 0 {
      NoPreferredWithoutSection(n - 1);
      NothingNamedInEmptyText(AllVocabs[n - 1]);
    }
  }
}
