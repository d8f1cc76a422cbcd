/** extract_fields (src/field_extractor.py): a table of fields of study, each
    found by plain substring search on the lower-cased text, plus "Related Field". */
module FieldExtractor {
  import opened Strings
  import opened Collections

  /** field_keywords, in its declaration order. */
  const FieldTable: seq<(string, seq<string>)> := [
    ("Computer Science", ["computer science", "cs"]),
    ("Data Science", ["data science"]),
    ("Information Systems", ["information systems", "information system", "is"]),
    ("Engineering", ["engineering", "engineer"]),
    ("Mathematics", ["mathematics", "math"]),
    ("Statistics", ["statistics", "statistic"])
  ]

  const RelatedWords: seq<string> := ["related field", "related discipline"]

  /** The names the extractor can return. */
  const FieldNames: set<string> := set k | 0 <= k < |FieldTable| :: FieldTable[k].0

  /** The lower-cased text t names the table entry k. */
  predicate TableHit(t: string, k: int)
  {
    0 <= k < |FieldTable| && ContainsAny(t, FieldTable[k].1)
  }

  /** The field f belongs in the answer for the lower-cased text t. */
  predicate FieldFound(t: string, f: string)
  {
    (exists k | 0 <= k < |FieldTable| :: FieldTable[k].0 == f && TableHit(t, k))
    || (f == "Related Field" && ContainsAny(t, RelatedWords))
  }

  method ExtractFields(jd: string) returns (fields: seq<string>)
    ensures NoDuplicates(fields)
    ensures forall f :: f in fields <==> FieldFound(Lower(jd), f)
    ensures forall f | f in fields :: f in FieldNames || f == "Related Field"
  {
    var text := Lower(jd);
    var found: set<string> := {};
    var k := 0;
    while k < |FieldTable|
      invariant 0 <= k <= |FieldTable|
      invariant forall f :: f in found <==>
        exists j | 0 <= j < k :: FieldTable[j].0 == f && TableHit(text, j)
    {
      if ContainsAny(text, FieldTable[k].1) {
        found := found + {FieldTable[k].0};
      }
      k := k + 1;
    }
    if ContainsAny(text, RelatedWords) {
      found := found + {"Related Field"};
    }
    fields := ListOfSet(found);
  }

  /** "Related Field" is not a table name, so it is reported exactly when one of
      its two phrases occurs. */
  lemma RelatedFieldOnlyByPhrase(t: string)
    ensures FieldFound(t, "Related Field") <==> ContainsAny(t, RelatedWords)
  {
    assert "Related Field" !in FieldNames;
  }

  /** Nothing is found in the empty text. */
  lemma NoFieldInEmptyText(f: string)
    ensures !FieldFound(Lower(""), f)
  {
    assert Lower("") == "";
    assert forall k | 0 <= k < |FieldTable| :: forall w | w in FieldTable[k].1 :: w != [];
  }

  /** "is" is a keyword of Information Systems and the test is by substring,
      so "this" is enough to report that field. */
  lemma ThisMeansInformationSystems()
    ensures FieldFound(Lower("this"), "Information Systems")
  {
    var t := Lower("this");
    assert t == "this";
    assert OccursAt(t, "is", 2);
    assert "is" in FieldTable[2].1;
    assert TableHit(t, 2);
  }
}
