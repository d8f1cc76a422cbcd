/** extract_seniority (src/seniority_extractor.py): a cascade of substring
    tests on the lower-cased text, the first tier that matches wins. */
module SeniorityExtractor {
  import opened Strings

  const InternWords: seq<string> := ["intern", "internship"]
  const SeniorWords: seq<string> := ["senior", "lead", "principal", "staff"]
  const MidWords: seq<string> := ["mid-level", "3+ years", "4+ years", "5+ years"]
  const EntryWords: seq<string> := ["entry-level", "junior", "new grad", "0-1 years", "1+ years"]

  /** The five answers, from the highest-priority tier down. */
  const Levels: seq<string> := ["Intern", "Senior", "Mid", "Entry", "Not Specified"]

  /** Index in Levels of the tier the lower-cased text t falls into. */
  function Tier(t: string): (k: nat)
    ensures k < |Levels|
    ensures k == 0 <==> ContainsAny(t, InternWords)
    ensures k == 1 <==> !ContainsAny(t, InternWords) && ContainsAny(t, SeniorWords)
    ensures k == 4 <==> !ContainsAny(t, InternWords + SeniorWords + MidWords + EntryWords)
  {
    if ContainsAny(t, InternWords) then 0
    else if ContainsAny(t, SeniorWords) then 1
    else if ContainsAny(t, MidWords) then 2
    else if ContainsAny(t, EntryWords) then 3
    else 4
  }

  function ExtractSeniority(jd: string): (r: string)
    ensures r in Levels
  {
    Levels[Tier(Lower(jd))]
  }

  /** A tier is chosen only when none of the tiers above it matched. */
  lemma SeniorityPriority(jd: string)
    ensures var t, r := Lower(jd), ExtractSeniority(jd);
      && (r == "Intern" <==> ContainsAny(t, InternWords))
      && (r == "Senior" <==> !ContainsAny(t, InternWords) && ContainsAny(t, SeniorWords))
      && (r == "Mid" <==> !ContainsAny(t, InternWords + SeniorWords) && ContainsAny(t, MidWords))
      && (r == "Entry" <==> !ContainsAny(t, InternWords + SeniorWords + MidWords) && ContainsAny(t, EntryWords))
      && (r == "Not Specified" <==> !ContainsAny(t, InternWords + SeniorWords + MidWords + EntryWords))
  {
    var t := Lower(jd);
    assert forall w :: w in InternWords + SeniorWords <==> w in InternWords || w in SeniorWords;
    assert forall w :: w in InternWords + SeniorWords + MidWords <==>
      w in InternWords || w in SeniorWords || w in MidWords;
  }

  /** "internship" adds nothing to the Intern tier: every occurrence of it
      contains "intern". */
  lemma InternTierIsIntern(jd: string)
    ensures ExtractSeniority(jd) == "Intern" <==> Contains(Lower(jd), "intern")
  {
    var t := Lower(jd);
    if Contains(t, "internship") {
      assert OccursAt("internship", "intern", 0);
      ContainsTransitive(t, "internship", "intern");
    }
  }

  /** Any Mid phrase outranks any Entry phrase. */
  lemma MidBeatsEntry(jd: string)
    requires !Contains(Lower(jd), "intern")
    requires !ContainsAny(Lower(jd), SeniorWords)
    requires ContainsAny(Lower(jd), MidWords) && ContainsAny(Lower(jd), EntryWords)
    ensures ExtractSeniority(jd) == "Mid"
  {
    InternTierIsIntern(jd);
  }

  /** Text without any keyword, the empty text among it, is "Not Specified". */
  lemma EmptyIsNotSpecified()
    ensures ExtractSeniority("") == "Not Specified"
  {
    assert Lower("") == "";
  }

  /** The answer ignores letter case. */
  lemma SeniorityIgnoresCase(jd: string)
    ensures ExtractSeniority(Lower(jd)) == ExtractSeniority(jd)
  {
    LowerIdempotent(jd);
  }

  /** The test is by substring, so "leading" counts as "lead". */
  lemma LeadingCountsAsSenior()
    ensures ExtractSeniority("Leading") == "Senior"
  {
    var t := Lower("Leading");
    assert t == "leading";
    assert OccursAt(t, "lead", 0);
    assert "lead" in SeniorWords && Contains(t, "lead");
    AbsentByFirstChar(t, "intern");
    InternTierIsIntern("Leading");
    assert Tier(t) == 1;
  }
}
