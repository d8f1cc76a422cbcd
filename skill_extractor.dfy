/** split_sentences and extract_skills (src/skill_extractor.py): the text is
    cut into sentences, each non-blank sentence is classed as preferred when it
    carries a trigger phrase, and a skill named in a trigger-free sentence is
    required, which overrides preferred. */
module SkillExtractor {
  import opened Strings
  import opened Collections

  /** The characters of the class `[.\n]`. */
  predicate IsSentenceBreak(c: char)
  {
    c == '.' || c == '\n'
  }

  /** re.split(r"[.\n]+", text): the pieces between maximal runs of breaks,
      with an empty first (last) piece when the text starts (ends) with a break. */
  function SplitSentences(s: string): (r: seq<string>)
    decreases |s|
    ensures |r| >= 1
    ensures forall p | p in r :: '.' !in p && '\n' !in p
    ensures r[0] <= s
    ensures s != [] && IsSentenceBreak(s[0]) ==> r[0] == []
    ensures s != [] && !IsSentenceBreak(s[0]) ==> r[0] != []
  {
    if s == [] then [[]]
    else
      var rest := SplitSentences(s[1..]);
      if IsSentenceBreak(s[0]) then
        if |s| > 1 && IsSentenceBreak(s[1]) then rest else [[]] + rest
      else
        [[s[0]] + rest[0]] + rest[1..]
  }

  /** The characters of s that are not breaks. */
  function Unbroken(s: string): (r: string)
    ensures '.' !in r && '\n' !in r
  {
    if s == [] then []
    else (if IsSentenceBreak(s[0]) then [] else [s[0]]) + Unbroken(s[1..])
  }

  function Concat(pieces: seq<string>): string
  {
    if pieces == [] then [] else pieces[0] + Concat(pieces[1..])
  }

  /** Splitting drops the breaks and nothing else. */
  lemma {:induction false} SentencesKeepText(s: string)
    ensures Concat(SplitSentences(s)) == Unbroken(s)
    decreases |s|
  {
    if s != [] {
      var rest := SplitSentences(s[1..]);
      SentencesKeepText(s[1..]);
      if IsSentenceBreak(s[0]) {
        if !(|s| > 1 && IsSentenceBreak(s[1])) {
          assert ([[]] + rest)[1..] == rest;
        }
      } else {
        var r := [[s[0]] + rest[0]] + rest[1..];
        assert r[1..] == rest[1..];
        assert Concat(rest) == rest[0] + Concat(rest[1..]);
      }
    }
  }

  /** A run of several breaks yields one cut: only the first and the last piece
      can be empty. */
  lemma {:induction false} InnerSentencesNonEmpty(s: string)
    ensures forall k | 0 < k < |SplitSentences(s)| - 1 :: SplitSentences(s)[k] != []
    decreases |s|
  {
    if s != [] {
      var rest := SplitSentences(s[1..]);
      InnerSentencesNonEmpty(s[1..]);
      var r := SplitSentences(s);
      if IsSentenceBreak(s[0]) {
        if !(|s| > 1 && IsSentenceBreak(s[1])) {
          assert forall k | 0 < k < |r| :: r[k] == rest[k - 1];
          assert |s| > 1 ==> rest[0] != [];
        }
      } else {
        assert forall k | 0 < k < |r| :: r[k] == rest[k];
      }
    }
  }

  /** Every sentence is a piece of the text. */
  lemma {:induction false} SentenceContained(s: string, k: nat)
    requires k < |SplitSentences(s)|
    ensures Contains(s, SplitSentences(s)[k])
    decreases |s|
  {
    var p := SplitSentences(s)[k];
    if s == [] {
      assert OccursAt(s, p, 0);
    } else {
      var rest := SplitSentences(s[1..]);
      SliceContained(s, 1, |s|);
      assert s[1..|s|] == s[1..];
      if IsSentenceBreak(s[0]) && |s| > 1 && IsSentenceBreak(s[1]) {
        SentenceContained(s[1..], k);
        ContainsTransitive(s, s[1..], p);
      } else if IsSentenceBreak(s[0]) {
        if k == 0 {
          assert OccursAt(s, p, 0);
        } else {
          assert p == rest[k - 1];
          SentenceContained(s[1..], k - 1);
          ContainsTransitive(s, s[1..], p);
        }
      } else if k == 0 {
        assert OccursAt(s, p, 0);
      } else {
        assert p == rest[k];
        SentenceContained(s[1..], k);
        ContainsTransitive(s, s[1..], p);
      }
    }
  }

  /** Text without a break is one sentence. */
  lemma {:induction false} SentencesWithoutBreak(s: string)
    requires '.' !in s && '\n' !in s
    ensures SplitSentences(s) == [s]
    decreases |s|
  {
    if s != [] {
      SentencesWithoutBreak(s[1..]);
      assert [s[0]] + s[1..] == s;
    }
  }

  /** A maximal run of breaks after break-free text makes exactly one cut:
      the text before it is one sentence and the rest is split on its own.
      With SentencesWithoutBreak this fixes the split of every text. */
  lemma {:induction false} SentencesAfterBreaks(a: string, w: string, b: string)
    requires '.' !in a && '\n' !in a
    requires w != [] && forall i | 0 <= i < |w| :: IsSentenceBreak(w[i])
    requires b == [] || !IsSentenceBreak(b[0])
    ensures SplitSentences(a + w + b) == [a] + SplitSentences(b)
    decreases |a|
  {
    if a == [] {
      BreakRunAtStart(w, b);
      assert a + w + b == w + b;
    } else {
      var a' := a[1..];
      var s := a + w + b;
      assert s[1..] == a' + w + b;
      assert !IsSentenceBreak(s[0]);
      SentencesAfterBreaks(a', w, b);
      assert [a[0]] + a' == a;
    }
  }

  /** A leading run of breaks gives one empty first sentence. */
  lemma {:induction false} BreakRunAtStart(w: string, b: string)
    requires w != [] && forall i | 0 <= i < |w| :: IsSentenceBreak(w[i])
    requires b == [] || !IsSentenceBreak(b[0])
    ensures SplitSentences(w + b) == [[]] + SplitSentences(b)
    decreases |w|
  {
    var s := w + b;
    assert s[0] == w[0];
    assert s[1..] == w[1..] + b;
    if |w| == 1 {
      assert s[1..] == b;
      assert |s| > 1 ==> s[1] == b[0];
    } else {
      assert s[1] == w[1];
      BreakRunAtStart(w[1..], b);
    }
  }

  /** skill_keywords, in its declaration order. */
  const SkillTable: seq<(string, seq<string>)> := [
    ("Python", ["python"]),
    ("SQL", ["sql"]),
    ("Machine Learning", ["machine learning", "ml"]),
    ("Deep Learning", ["deep learning"]),
    ("Data Analysis", ["data analysis", "data analytics"]),
    ("AWS", ["aws", "amazon web services"]),
    ("Docker", ["docker"]),
    ("Git", ["git"])
  ]

  const Triggers: seq<string> := ["nice to have", "preferred", "a plus", "plus if", "bonus", "optional"]

  const SkillNames: set<string> := set k | 0 <= k < |SkillTable| :: SkillTable[k].0

  /** The sentence names the skill `name` through one of its keywords. */
  predicate Mentions(sentence: string, name: string)
  {
    exists k | 0 <= k < |SkillTable| :: SkillTable[k].0 == name && ContainsAny(sentence, SkillTable[k].1)
  }

  /** The sentence is not blank, carries a trigger exactly when `preferred`
      says so, and names the skill. */
  predicate SentenceHit(sentence: string, name: string, preferred: bool)
  {
    !IsBlank(sentence) && ContainsAny(sentence, Triggers) == preferred && Mentions(sentence, name)
  }

  predicate SkillIn(sentences: seq<string>, name: string, preferred: bool)
  {
    exists s | s in sentences :: SentenceHit(s, name, preferred)
  }

  /** The skill names of the first k entries of `table` whose keywords occur
      in the sentence. */
  function NamedBefore(table: seq<(string, seq<string>)>, sentence: string, k: nat): set<string>
    requires k <= |table|
  {
    set j | 0 <= j < k && ContainsAny(sentence, table[j].1) :: table[j].0
  }

  lemma NamedBeforeStep(table: seq<(string, seq<string>)>, sentence: string, k: nat)
    requires k < |table|
    ensures NamedBefore(table, sentence, k + 1) ==
      NamedBefore(table, sentence, k) + (if ContainsAny(sentence, table[k].1) then {table[k].0} else {})
  {
  }

  /** The skills the sentences ss add to the set selected by `preferred`,
      accumulated sentence by sentence. */
  function Collected(table: seq<(string, seq<string>)>, ss: seq<string>, preferred: bool): set<string>
  {
    if ss == [] then {}
    else
      var last := ss[|ss| - 1];
      Collected(table, ss[..|ss| - 1], preferred) +
        (if !IsBlank(last) && ContainsAny(last, Triggers) == preferred
         then NamedBefore(table, last, |table|) else {})
  }

  lemma CollectedStep(table: seq<(string, seq<string>)>, ss: seq<string>, i: nat, preferred: bool)
    requires i < |ss|
    ensures Collected(table, ss[..i + 1], preferred) == Collected(table, ss[..i], preferred) +
      (if !IsBlank(ss[i]) && ContainsAny(ss[i], Triggers) == preferred
       then NamedBefore(table, ss[i], |table|) else {})
  {
    assert ss[..i + 1][..i] == ss[..i];
  }

  /** With the skill table, the accumulated set holds exactly the skills some
      sentence contributes. */
  lemma {:induction false} CollectedIsSkillIn(ss: seq<string>, preferred: bool)
    ensures forall n :: n in Collected(SkillTable, ss, preferred) <==> SkillIn(ss, n, preferred)
  {
    if ss != [] {
      var init, last := ss[..|ss| - 1], ss[|ss| - 1];
      CollectedIsSkillIn(init, preferred);
      assert ss == init + [last];
      forall n ensures n in Collected(SkillTable, ss, preferred) <==> SkillIn(ss, n, preferred) {
        assert SkillIn(ss, n, preferred) <==> SkillIn(init, n, preferred) || SentenceHit(last, n, preferred);
      }
    }
  }

  /** The inner loop over skill_keywords for one non-blank sentence: every skill
      it mentions goes into `pref` when the sentence is a preferred one, into
      `req` otherwise. */
  method AddMentioned(table: seq<(string, seq<string>)>, sentence: string, isPreferred: bool,
                      req0: set<string>, pref0: set<string>)
    returns (req: set<string>, pref: set<string>)
    ensures isPreferred ==> req == req0 && pref == pref0 + NamedBefore(table, sentence, |table|)
    ensures !isPreferred ==> pref == pref0 && req == req0 + NamedBefore(table, sentence, |table|)
  {
    req, pref := req0, pref0;
    var k := 0;
    while k < |table|
      invariant 0 <= k <= |table|
      invariant isPreferred ==> req == req0 && pref == pref0 + NamedBefore(table, sentence, k)
      invariant !isPreferred ==> pref == pref0 && req == req0 + NamedBefore(table, sentence, k)
    {
      NamedBeforeStep(table, sentence, k);
      if ContainsAny(sentence, table[k].1) {
        if isPreferred {
          pref := pref + {table[k].0};
        } else {
          req := req + {table[k].0};
        }
      }
      k := k + 1;
    }
  }

  /** The sentence-level pass: the skill sets before `preferred -= required`. */
  method ScanSentences(table: seq<(string, seq<string>)>, sentences: seq<string>)
    returns (req: set<string>, pref: set<string>)
    ensures req == Collected(table, sentences, false)
    ensures pref == Collected(table, sentences, true)
  {
    req, pref := {}, {};
    var i := 0;
    while i < |sentences|
      invariant 0 <= i <= |sentences|
      invariant req == Collected(table, sentences[..i], false)
      invariant pref == Collected(table, sentences[..i], true)
    {
      var sentence := sentences[i];
      CollectedStep(table, sentences, i, false);
      CollectedStep(table, sentences, i, true);
      StripEmptyIffBlank(sentence);
      if Strip(sentence) == [] {
        i := i + 1;
        continue;
      }
      var isPreferred := ContainsAny(sentence, Triggers);
      req, pref := AddMentioned(table, sentence, isPreferred, req, pref);
      i := i + 1;
    }
    assert sentences[..|sentences|] == sentences;
  }

  method ExtractSkills(jd: string) returns (required: seq<string>, preferred: seq<string>)
    ensures SortedBy(required, StrLt) && SortedBy(preferred, StrLt)
    ensures forall n :: n in required <==> SkillIn(SplitSentences(Lower(jd)), n, false)
    ensures forall n :: n in preferred <==>
      SkillIn(SplitSentences(Lower(jd)), n, true) && !SkillIn(SplitSentences(Lower(jd)), n, false)
    ensures forall n | n in required :: n !in preferred
    ensures forall n | n in required || n in preferred :: n in SkillNames
  {
    var text := Lower(jd);
    var sentences := SplitSentences(text);
    var req, pref := ScanSentences(SkillTable, sentences);
    CollectedIsSkillIn(sentences, false);
    CollectedIsSkillIn(sentences, true);
    pref := pref - req;
    StrLtIsStrictTotalOrder();
    required := SortSet(req, StrLt);
    preferred := SortSet(pref, StrLt);
  }

  /** Text in which no skill keyword occurs yields no skill at all. */
  lemma NoKeywordNoSkill(jd: string, name: string, preferred: bool)
    requires forall k, w | 0 <= k < |SkillTable| && w in SkillTable[k].1 :: !Contains(Lower(jd), w)
    ensures !SkillIn(SplitSentences(Lower(jd)), name, preferred)
  {
    var t := Lower(jd);
    var ss := SplitSentences(t);
    forall i | 0 <= i < |ss| ensures !Mentions(ss[i], name) {
      SentenceContained(t, i);
      forall k, w | 0 <= k < |SkillTable| && w in SkillTable[k].1 ensures !Contains(ss[i], w) {
        if Contains(ss[i], w) {
          ContainsTransitive(t, ss[i], w);
        }
      }
    }
  }

  lemma DigitalHasNoTrigger()
    ensures !ContainsAny("digital", Triggers)
  {
    AbsentByFirstChar("digital", "a plus");
    AbsentByFirstChar("digital", "plus if");
    AbsentByFirstChar("digital", "bonus");
  }

  lemma DigitalMentionsGit()
    ensures Mentions("digital", "Git")
  {
    assert OccursAt("digital", "git", 2);
    assert Contains("digital", "git");
    assert ContainsAny("digital", SkillTable[7].1);
  }

  /** Keywords match as plain substrings: "git" inside "digital" makes Git required. */
  lemma GitInDigital()
    ensures SkillIn(SplitSentences(Lower("digital")), "Git", false)
  {
    var t := Lower("digital");
    assert t == "digital";
    SentencesWithoutBreak(t);
    DigitalHit();
    assert t in [t];
  }

  lemma DigitalHit()
    ensures SentenceHit("digital", "Git", false)
  {
    assert "digital"[0] == 'd' && !IsSpace('d');
    DigitalHasNoTrigger();
    DigitalMentionsGit();
  }
}
