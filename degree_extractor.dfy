/** extract_degree_requirement (src/degree_extractor.py): three whole-word
    searches on the lower-cased text, each appending one degree level. */
module DegreeExtractor {
  import opened Strings

  /** The alternatives of `\b(bachelor|b\.s\.|bs)\b`, `\b(master|m\.s\.|ms)\b`
      and `\b(phd|doctorate)\b`. */
  const BachelorWords: seq<string> := ["bachelor", "b.s.", "bs"]
  const MasterWords: seq<string> := ["master", "m.s.", "ms"]
  const PhdWords: seq<string> := ["phd", "doctorate"]

  /** The levels in the order they are appended. */
  const Order: seq<string> := ["Bachelor", "Master", "PhD"]

  /** The alternatives that stand for the level Order[k]. */
  function LevelWords(k: nat): (ws: seq<string>)
    requires k < |Order|
    ensures ws != [] && forall w | w in ws :: w != []
  {
    [BachelorWords, MasterWords, PhdWords][k]
  }

  /** Position of the level d in Order. */
  function RankOf(d: string): (k: nat)
    requires d in Order
    ensures k < |Order| && Order[k] == d
  {
    if d == "Bachelor" then 0 else if d == "Master" then 1 else 2
  }

  method ExtractDegreeRequirement(jd: string) returns (degrees: seq<string>)
    ensures forall d | d in degrees :: d in Order
    ensures forall i, j | 0 <= i < j < |degrees| :: RankOf(degrees[i]) < RankOf(degrees[j])
    ensures forall k | 0 <= k < |Order| ::
      Order[k] in degrees <==> ContainsAnyWord(Lower(jd), LevelWords(k))
  {
    var text := Lower(jd);
    degrees := [];
    if ContainsAnyWord(text, BachelorWords) {
      degrees := degrees + ["Bachelor"];
    }
    if ContainsAnyWord(text, MasterWords) {
      degrees := degrees + ["Master"];
    }
    if ContainsAnyWord(text, PhdWords) {
      degrees := degrees + ["PhD"];
    }
    OrderDistinct();
  }

  lemma OrderDistinct()
    ensures Order[0] != Order[1] && Order[0] != Order[2] && Order[1] != Order[2]
  {
    assert Order[0][0] == 'B' && Order[1][0] == 'M' && Order[2][0] == 'P';
  }

  /** A text without any of the words gives no level; the empty text is one. */
  lemma NoDegreeInEmptyText(k: nat)
    requires k < |Order|
    ensures !ContainsAnyWord(Lower(""), LevelWords(k))
  {
    assert Lower("") == "";
  }

  /** "ms" inside a longer word such as "programs" is not a whole word. */
  lemma MsInsideWordIgnored()
    ensures !ContainsAnyWord(Lower("programs"), MasterWords)
  {
    assert Lower("programs") == "programs";
    MasterAbsentFromPrograms();
    MsNotWordInPrograms();
  }

  lemma MasterAbsentFromPrograms()
    ensures !Contains("programs", "master") && !Contains("programs", "m.s.")
  {
    AbsentByFirstChar("programs", "master");
    AbsentByFirstChar("programs", "m.s.");
  }

  lemma MsNotWordInPrograms()
    ensures !ContainsWord("programs", "ms")
  {
    var t := "programs";
    forall i | 0 <= i <= |t| - 2 ensures !WholeWordAt(t, "ms", i) {
      if i < 6 {
        assert t[i..i + 2][0] == t[i] && t[i] != 'm';
      } else {
        assert !Boundary(t, 6);
      }
    }
  }

  /** `\b` after the final dot of "m.s." needs a word character next, so
      "M.S.," is not recognised. */
  lemma DottedMasterBeforeCommaIgnored()
    ensures !ContainsAnyWord(Lower("M.S.,"), MasterWords)
  {
    var t := Lower("M.S.,");
    assert t == "m.s.,";
    assert !Boundary(t, 4);
    assert !ContainsWord(t, "m.s.");
    forall i | 0 <= i <= |t| - 2 ensures !OccursAt(t, "ms", i) {
      assert t[i..i + 2][0] == t[i] && t[i..i + 2][1] == t[i + 1];
      assert t[i] != 'm' || t[i + 1] != 's';
    }
  }

  /** "Ph.D." is neither "phd" nor "doctorate". */
  lemma DottedPhdIgnored()
    ensures !ContainsAnyWord(Lower("Ph.D."), PhdWords)
  {
    var t := Lower("Ph.D.");
    assert t == "ph.d.";
    assert t[2] == '.' && t[3] == 'd' && t[4] == '.';
    AbsentByFirstChar(t, "doctorate");
    assert !OccursAt(t, "phd", 0) && !OccursAt(t, "phd", 1) && !OccursAt(t, "phd", 2);
  }
}
