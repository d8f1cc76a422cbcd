# JD-Analyzer-App core, modelled in Dafny

JD-Analyzer-App reads the text of a job description and returns a dictionary
of what it found. The fields are company, job title, seniority, degrees,
fields of study, skills and responsibilities. The repository holds two
pipelines, and this project models both:

- **The monolithic analyser** (`src/text_analyzer.py`, `analyze_jd_text`).
  - It normalises the text: carriage returns become newlines, runs of three
    or more newlines shrink to two, and the ends are trimmed.
  - It cuts the text into sections at ten known headings.
  - From the text and its sections it derives the company, seniority, an
    inferred title, required and preferred degree levels, and fields.
  - It collects skills from five vocabularies, whole-word and
    case-insensitive, into required, preferred and per-vocabulary buckets.
  - It also collects bullet-style responsibilities, keywords and a summary.
- **The modular pipeline** (`src/run.py`, `analyze_jd`). It cleans the text
  once, collapsing all whitespace to single spaces. It then calls five small
  extractors: title and company, seniority, degree, fields, and skills.
  - The skills extractor works sentence by sentence. A skill named in a
    sentence that carries a "preferred" trigger is preferred; one named in
    any other sentence is required, and required wins.

Layout:

- Each Python file of the core is one module. The monolithic analyser is
  split into four modules plus the top level:
  - `AnalyzerSections`: normalisation and section detection;
  - `AnalyzerProfile`: company, seniority, title, degrees and fields;
  - `AnalyzerSkills`;
  - `AnalyzerResponsibilities`;
  - `TextAnalyzer`: the top level.
- `Strings` models the Python string operations the code relies on:
  - `str.lower`, `str.strip`, `in`, `str.find`, `str.split`;
  - `re.sub(r"\s+", " ")`;
  - the `\b...\b` whole-word search.
- `Collections` models `sorted(set)`, `list(set)` and the order-preserving
  de-duplication loop.
- `Records` holds `Option` and the dictionary value type.

Style of the model:

- Pure code becomes functions and lemmas.
- Code that loops and updates variables becomes methods with loop
  invariants. Each such method is proved equal to a specification function,
  and the properties are proved about that function.

## Model

| member | source | states |
|---|---|---|
| Strings.LowerFolds | src/text_analyzer.py:33-34 | `str.lower` keeps the length, leaves no upper-case letter, keeps every other character, and turns each upper-case letter into the lower-case letter whose upper-case form it is |
| Strings.LowerIdempotent | src/text_analyzer.py:33-34 | lower-casing twice is lower-casing once |
| Strings.ContainsTransitive | src/skill_extractor.py:49 | a substring of a substring is a substring |
| Strings.WordImpliesSubstring | src/text_analyzer.py:153 | a whole-word match `\bw\b` is also a plain substring match |
| Strings.SkipSpaces | src/text_analyzer.py:31 | the first non-whitespace index at or after a position, with only whitespace before it |
| Strings.TrimEnd | src/text_analyzer.py:31 | the end of a range once its trailing whitespace is dropped, with only whitespace after it |
| Strings.Strip | src/text_analyzer.py:31 | `str.strip()` gives a contiguous piece of its input that neither starts nor ends with whitespace |
| Strings.StripCutsBlank | src/text_analyzer.py:31 | what `str.strip()` removes at either end is whitespace only |
| Strings.StripOfStripped | src/text_analyzer.py:31 | stripping a trimmed string changes nothing |
| Strings.StripEmptyIffBlank | src/skill_extractor.py:43 | `not s.strip()` holds exactly when s is all whitespace |
| Strings.StripContained | src/text_analyzer.py:77 | the stripped string occurs in the original |
| Strings.StripKeepsOut | src/text_analyzer.py:31 | stripping never introduces a character |
| Strings.NonSpaceStrip | src/text_preprocessor.py:10 | stripping deletes whitespace only: the non-whitespace characters stay, in order |
| Strings.CollapseShape | src/text_preprocessor.py:11 | `re.sub(r"\s+", " ", s)` leaves only single spaces, is empty only for empty input, and starts (ends) with whitespace exactly when its input does |
| Strings.CollapseSeparates | src/text_preprocessor.py:11 | every whitespace run between two words becomes exactly one space: the substitution on a + w + b, with w a non-empty run and no whitespace on either side of it, is the substitution on a, one space, and the substitution on b |
| Strings.CollapseKeepsNonSpace | src/text_preprocessor.py:11 | the substitution keeps every non-whitespace character, in order |
| Strings.StripSingleSpaced | src/text_analyzer.py:324 | stripping single-spaced text leaves it single-spaced |
| Strings.CollapseKeepsSingleSpaced | src/text_preprocessor.py:11 | the substitution leaves single-spaced text unchanged |
| Strings.SplitOn | src/text_analyzer.py:37 | `str.split(sep)` gives at least one piece, none holding the separator |
| Strings.JoinSplit | src/text_analyzer.py:37 | joining the pieces of a split with the separator gives the text back |
| Strings.SplitPieceContained | src/text_analyzer.py:37 | every piece of a split occurs in the split text |
| Strings.SplitWithoutSeparator | src/text_analyzer.py:37 | text without the separator splits into itself alone |
| Strings.SplitLines | src/text_analyzer.py:36-37 | `_split_lines` yields non-empty, trimmed lines without newlines |
| Strings.SplitLinesOfOneLine | src/text_analyzer.py:36-37 | text without a newline gives its stripped self as the only line, or no line when it is blank |
| Strings.SplitOnFirst | src/text_analyzer.py:37 | `split` on a separator absent from the first piece yields that piece, then the split of the rest |
| Strings.SplitLinesFirst | src/text_analyzer.py:36-37 | the lines of `a + "\n" + b` are the stripped first line (dropped when blank) followed by the lines of `b`; with SplitLinesOfOneLine this fixes every line, its content and its order |
| Strings.IndexOf | src/text_analyzer.py:66 | `low.find(h)` is -1 exactly when h does not occur, and otherwise the first position where it does |
| Collections.StrLtIsStrictTotalOrder | src/text_analyzer.py:190 | Python's `<` on strings, which `sorted` uses, is a strict total order |
| Collections.SortSet | src/text_analyzer.py:190 | `sorted(S)` lists exactly the members of S in strictly increasing order |
| Collections.SortedUnique | src/text_analyzer.py:190 | two strictly increasing lists with the same members are equal, so `sorted(set)` is determined by the set |
| Collections.Filter | src/text_analyzer.py:171 | the members of a set in the order of a fixed list, and nothing else |
| Collections.FilterSorted | src/text_analyzer.py:171 | filtering an increasing list keeps it increasing |
| Collections.SortedSubsetIsFilter | src/text_analyzer.py:171 | sorting a set drawn from a fixed sorted list gives the matching sub-list |
| Collections.ListOfSet | src/field_extractor.py:24 | `list(S)` lists each member of S once and nothing else |
| Collections.KeepFirstSeen | src/text_analyzer.py:321-327 | the `seen`-set loop returns FirstSeen of its input |
| Collections.FirstSeen | src/text_analyzer.py:321-327 | de-duplication never lengthens the list |
| Collections.FirstSeenMembers | src/text_analyzer.py:321-327 | the loop keeps exactly the non-empty values of its input |
| Collections.FirstSeenNoDuplicates | src/text_analyzer.py:321-327 | the loop's output has no repeats |
| Collections.FirstSeenOrder | src/text_analyzer.py:321-327 | the loop lists values in the order of their first occurrence |
| AnalyzerSections.ReplaceCarriageReturns | src/text_analyzer.py:29 | `replace("\r", "\n")` changes each carriage return into a newline and keeps every other character in place |
| AnalyzerSections.CollapseNewlines | src/text_analyzer.py:30 | `re.sub(r"\n{3,}", "\n\n")` leaves no three newlines in a row and keeps a non-newline first character |
| AnalyzerSections.CollapseNewlinesIdentity | src/text_analyzer.py:30 | text without three newlines in a row is left alone |
| AnalyzerSections.CollapseRunsNoTriple | src/text_analyzer.py:30 | no run of three newlines survives the substitution |
| AnalyzerSections.CollapseNewlinesSeparates | src/text_analyzer.py:30 | a maximal newline run between two other characters is handled on its own: three or more newlines become exactly `"\n\n"`, one or two stay, and the text on each side is processed independently |
| AnalyzerSections.CollapseNewlinesKeepsOut | src/text_analyzer.py:30 | the substitution introduces no character other than newline |
| AnalyzerSections.Normalize | src/text_analyzer.py:28-31 | normalised text has no carriage return, no three newlines in a row and no surrounding whitespace |
| AnalyzerSections.NormalizeIdempotent | src/text_analyzer.py:28-31 | normalising twice is normalising once, so the second call in `_detect_sections` changes nothing |
| AnalyzerSections.HeadersDistinct | src/text_analyzer.py:42-53 | the ten section headers are distinct |
| AnalyzerSections.HitLtIsStrictTotalOrder | src/text_analyzer.py:70 | the stable sort by position over hits appended in header order orders them by position, then header order, a strict total order |
| AnalyzerSections.HitsBefore | src/text_analyzer.py:65-68 | each hit is the first position of its header, and every header that occurs has a hit |
| AnalyzerSections.HitHeadersUnique | src/text_analyzer.py:65-68 | no header has two hits |
| AnalyzerSections.ChunkEnd | src/text_analyzer.py:76 | a chunk ends at or before every later hit, and at most at the end of the text |
| AnalyzerSections.ChunkEndIsAHit | src/text_analyzer.py:76 | a chunk ends at the end of the text or where a later hit starts |
| AnalyzerSections.SuccessorIsChunkEnd | src/text_analyzer.py:75-76 | in the sorted hits, the i-th chunk ends at the (i+1)-th hit, the last at the end of the text |
| AnalyzerSections.FindHits | src/text_analyzer.py:64-68 | the header loop builds exactly the hits of HitsBefore |
| AnalyzerSections.SortHits | src/text_analyzer.py:70 | `hits.sort` returns the same hits ordered by position, then header order |
| AnalyzerSections.CutChunks | src/text_analyzer.py:74-78 | the chunk loop builds exactly ChunkMap |
| AnalyzerSections.DetectSections | src/text_analyzer.py:55-80 | `_detect_sections` returns exactly Sections(text) |
| AnalyzerSections.SplitSections | src/text_analyzer.py:71-79 | the map always has "full", holding the text it was given, and every other key is a section header |
| AnalyzerSections.Sections | src/text_analyzer.py:55-80 | the map always has "full", holding the normalised text, and every other key is a section header |
| AnalyzerSections.WholeTextWithoutHeaders | src/text_analyzer.py:71-72 | the result is `{"full": raw}` exactly when no header occurs |
| AnalyzerSections.SectionsKeys | src/text_analyzer.py:65-79 | a header is a key exactly when it occurs in the lower-cased text |
| AnalyzerSections.SectionOfHit | src/text_analyzer.py:75-78 | the section of a found header is its hit's chunk |
| AnalyzerSections.ChunkBounds | src/text_analyzer.py:76-77 | a chunk is no longer than the distance to the next hit |
| AnalyzerSections.RoleSectionCutShort | src/text_analyzer.py:42-53 | "responsibilities" is itself a header and ends "your role and responsibilities", so unless it occurs earlier the role section holds at most 14 characters |
| AnalyzerSections.ShorterTopicsHeaderEmpty | src/text_analyzer.py:42-53 | "topics include" starts "topics include but are not limited to"; when both are first found at the same place, the shorter header's section is empty |
| AnalyzerProfile.BrandAt | src/text_analyzer.py:102 | at one position the alternation tries the brands in order; the result is the first that matches as a whole word |
| AnalyzerProfile.BrandSearch | src/text_analyzer.py:102 | the leftmost position where some brand matches |
| AnalyzerProfile.NoBrandAnywhere | src/text_analyzer.py:102-106 | when the search fails, no brand occurs as a whole word |
| AnalyzerProfile.BrandCompany | src/text_analyzer.py:102-106 | the fallback is one of the seven brands or "Unknown" |
| AnalyzerProfile.BrandsAreNotHeadings | src/text_analyzer.py:98-106 | no brand and not "Unknown" is a blacklisted heading, and each is trimmed |
| AnalyzerProfile.ExtractCompany | src/text_analyzer.py:85-106 | whichever rule decides, the company is trimmed and is never a blacklisted heading |
| AnalyzerProfile.CompanyFromHead | src/text_analyzer.py:94-99 | when the head match is a group of the pattern at line 94 and is accepted, the company starts with a capital, has at most 61 characters, and holds only letters, "&", ".", "-" and spaces |
| AnalyzerProfile.BrandCompanyMeaning | src/text_analyzer.py:101-106 | the fallback gives the brand found first in the text, and "Unknown" exactly when no brand occurs as a whole word |
| AnalyzerProfile.CompanyRules | src/text_analyzer.py:90-106 | an accepted head candidate is returned stripped and is never a blacklisted heading; otherwise the brand fallback decides |
| AnalyzerProfile.IbmResearchBeforeIbm | src/text_analyzer.py:102 | "IBM Research" wins over "IBM" at the same position |
| AnalyzerProfile.ExtractSeniority | src/text_analyzer.py:108-116 | the answer is one of Intern, New Grad, Senior, Unknown |
| AnalyzerProfile.InternshipIsIntern | src/text_analyzer.py:110 | the "internship" test adds nothing to the "intern" test |
| AnalyzerProfile.SeniorityPriority | src/text_analyzer.py:108-116 | each answer holds exactly when its phrase occurs and no higher tier's phrase does |
| AnalyzerProfile.UndergraduateIsNewGrad | src/text_analyzer.py:112 | the substring test makes "undergraduate" a New Grad |
| AnalyzerProfile.SeniorityIgnoresCase | src/text_analyzer.py:109 | the answer does not depend on letter case |
| AnalyzerProfile.TitleBase | src/text_analyzer.py:122-130 | the base is one of the four fixed titles |
| AnalyzerProfile.TitleBaseCases | src/text_analyzer.py:122-130 | all four cases, tested in order: "Autonomous Data Management Systems" exactly when "autonomous data management" occurs; "Data Management" exactly when "data management" occurs but not that longer phrase; "Data Systems" exactly when "data systems" occurs and "data management" does not; "Research" exactly when neither phrase occurs |
| AnalyzerProfile.InferJobTitle | src/text_analyzer.py:118-136 | the title always ends with the base title; an intern prefix only comes before it |
| AnalyzerProfile.JobTitleShape | src/text_analyzer.py:132-136 | the title is never empty; only an intern gets a prefix, "Research Intern – " with a known company and "Intern – " without |
| AnalyzerProfile.PrettyDegree | src/text_analyzer.py:167-168 | each level key maps to one of the display names |
| AnalyzerProfile.LevelKeys | src/text_analyzer.py:151-155 | only the three level keys are ever collected |
| AnalyzerProfile.LevelNamesMembers | src/text_analyzer.py:151-155 | a display name is collected exactly when one of its level's variants occurs as a whole word |
| AnalyzerProfile.CollectLevels | src/text_analyzer.py:151-155 | the nested loop collects exactly LevelKeys |
| AnalyzerProfile.PrettySorted | src/text_analyzer.py:170-173 | `sorted({_pretty(x)})`, or `[]` for no keys, is the display names in the order Bachelor, Master, PhD |
| AnalyzerProfile.DegreeNamesSorted | src/text_analyzer.py:168-171 | Bachelor < Master < PhD as Python strings |
| AnalyzerProfile.SegmentEnd | src/text_analyzer.py:158 | the first place where the segment's end group can match, no earlier one matching |
| AnalyzerProfile.PreferredSegment | src/text_analyzer.py:158-160 | a segment exists only when "preferred education" occurs, and is then a non-empty piece of the lower-cased text |
| AnalyzerProfile.PreferredSegmentShape | src/text_analyzer.py:158-160 | the segment exists exactly when "preferred education" occurs with text after it; it is the text after the first occurrence, up to the first place after its first character where "required technical", "preferred technical" or the end of the text (or a final newline) matches |
| AnalyzerProfile.ExtractDegrees | src/text_analyzer.py:141-173 | both keys are present; required lists the levels named anywhere, preferred those named in the preferred-education segment, else `[]` |
| AnalyzerProfile.DegreeListsMeaning | src/text_analyzer.py:151-173 | each list is sorted, holds only display names, and holds a level exactly when one of its variants occurs as a whole word |
| AnalyzerProfile.UndergraduateIsNotMaster | src/text_analyzer.py:153 | "graduate" inside "undergraduate" is not a whole word, so the master level is not named |
| AnalyzerProfile.GraduateInsideUndergraduate | src/text_analyzer.py:153 | "graduate" does not occur as a whole word in "undergraduate" |
| AnalyzerProfile.UndergraduateIsBachelor | src/text_analyzer.py:153 | "undergraduate" names the bachelor level |
| AnalyzerProfile.ExtractFields | src/text_analyzer.py:175-190 | the fields are sorted, come from the five names, and each is present exactly when its phrase occurs ("Data Systems" for either of two phrases) |
| AnalyzerProfile.NoFieldInEmptyText | src/text_analyzer.py:179-188 | example: no field phrase occurs in the empty text |
| AnalyzerSkills.Capitalize | src/text_analyzer.py:228 | `s[0].upper() + s[1:]` keeps the length and the lower-cased form and changes only the first character |
| AnalyzerSkills.PrettySkill | src/text_analyzer.py:206-228 | outside the table the name has the length and the lower-cased form of the stripped term, and does not start with a lower-case letter |
| AnalyzerSkills.PrettySkillEmptyIffBlank | src/text_analyzer.py:206-228 | the name is empty exactly when the term is blank |
| AnalyzerSkills.TableNameFixed | src/text_analyzer.py:209-226 | a table name that maps back to itself is its own display name |
| AnalyzerSkills.LlmFixed | src/text_analyzer.py:210 | example: "LLM" is its own display name |
| AnalyzerSkills.KnowledgeGraphsFixed | src/text_analyzer.py:218-219 | example: "Knowledge Graphs" is its own display name |
| AnalyzerSkills.PrettySkillIdempotent | src/text_analyzer.py:206-228 | outside the table, prettifying twice is prettifying once |
| AnalyzerSkills.CapitalizeStripped | src/text_analyzer.py:228 | capitalising a trimmed string keeps it trimmed, and doing it again changes nothing |
| AnalyzerSkills.NamesByMeaning | src/text_analyzer.py:198-204 | a name is gathered exactly when some vocabulary term occurs as a whole word and prettifies to it |
| AnalyzerSkills.FindTerms | src/text_analyzer.py:195-204 | `_find_terms` returns sorted exactly the display names of the terms found as whole words in the lower-cased text |
| AnalyzerSkills.NothingNamedInEmptyText | src/text_analyzer.py:200-201 | example: nothing is found in the empty text |
| AnalyzerSkills.CppBeforeSpaceIgnored | src/text_analyzer.py:200-201 | `\b` after "c++" needs a word character next, so "C++ developer" does not name C++ |
| AnalyzerSkills.AllNamesMeaning | src/text_analyzer.py:250-254 | the union of the update calls holds a name exactly when one vocabulary gives it |
| AnalyzerSkills.CollectTerms | src/text_analyzer.py:250-254 | the update calls build exactly the union over the vocabularies |
| AnalyzerSkills.Bucket | src/text_analyzer.py:277 | a bucket is the sorted names its vocabulary gives in the full text |
| AnalyzerSkills.SkillBuckets | src/text_analyzer.py:276-282 | the buckets have exactly the five keys, each holding its vocabulary's sorted names in the full text |
| AnalyzerSkills.ExtractSkills | src/text_analyzer.py:230-288 | the lists are sorted; required holds every name from the required segment, plus the topics names when a topics section exists; preferred holds the names from the preferred section; the buckets are as above |
| AnalyzerSkills.NoPreferredWithoutSection | src/text_analyzer.py:243-244 | without a preferred section there are no preferred skills |
| AnalyzerResponsibilities.StripBulletMarks | src/text_analyzer.py:314 | `lstrip("-•* ")` removes exactly the leading run of marks and spaces |
| AnalyzerResponsibilities.Bullets | src/text_analyzer.py:305-318 | each line gives at most one bullet |
| AnalyzerResponsibilities.CollectBullets | src/text_analyzer.py:305-318 | the first loop builds exactly Bullets(lines) |
| AnalyzerResponsibilities.Dedupe | src/text_analyzer.py:321-327 | the second loop keeps each non-empty cleaned bullet at its first occurrence |
| AnalyzerResponsibilities.ExtractResponsibilities | src/text_analyzer.py:293-328 | `_extract_responsibilities` returns exactly Responsibilities(sections) |
| AnalyzerResponsibilities.Clean | src/text_analyzer.py:324 | a cleaned bullet is trimmed and single-spaced |
| AnalyzerResponsibilities.Responsibilities | src/text_analyzer.py:293-328 | every responsibility is non-empty, trimmed and single-spaced, and none repeats |
| AnalyzerResponsibilities.BulletsFromLines | src/text_analyzer.py:306-318 | a value is a bullet exactly when a non-heading line that starts with a mark or a lead word gives it |
| AnalyzerResponsibilities.BulletLineEligible | src/text_analyzer.py:309-318 | a line gives a bullet exactly when it is not a heading and starts with a mark or a lead word |
| AnalyzerResponsibilities.BulletsConcat | src/text_analyzer.py:306-318 | the bullets of two consecutive blocks of lines are those of the first block followed by those of the second |
| AnalyzerResponsibilities.BulletsOfOneLine | src/text_analyzer.py:306-318 | one line gives exactly its own bullet, or none; with BulletsConcat this fixes every bullet and their order |
| AnalyzerResponsibilities.NoSectionsNoResponsibilities | src/text_analyzer.py:294-301 | with neither a role nor a topics section the result is empty |
| AnalyzerResponsibilities.HeadingLineSkipped | src/text_analyzer.py:309-310 | example: the role heading line itself never becomes a bullet |
| AnalyzerResponsibilities.MarksStrippedPiece | src/text_analyzer.py:314 | a bullet taken from a marked line occurs in that line |
| TextAnalyzer.AnalyzeJdText | src/text_analyzer.py:333-372 | all eleven keys are present; company, seniority, title and responsibilities are their stages' results on the normalised text or its sections; both degree lists are their stage's lists, preferred from the preferred-education segment; fields are sorted and each is present exactly when its phrase occurs; both skill lists are sorted and hold exactly the names of their segments; the AI and data buckets are their vocabularies' names; keywords are sorted and hold exactly the AI and data bucket names; summary is the first responsibility or "" |
| TextAnalyzer.SummaryShape | src/text_analyzer.py:353-355 | the summary is empty exactly when there is no responsibility, and otherwise is a trimmed, single-spaced responsibility |
| TextPreprocessor.CleanJdText | src/text_preprocessor.py:7-8 | empty input gives the empty string |
| TextPreprocessor.CleanShape | src/text_preprocessor.py:3-13 | the cleaned text is trimmed and single-spaced, has no newline or tab, and is empty exactly when the input is blank |
| TextPreprocessor.CleanSeparates | src/text_preprocessor.py:3-13 | two trimmed pieces joined by any whitespace run clean to the two cleaned pieces joined by one space |
| TextPreprocessor.CleanKeepsNonSpace | src/text_preprocessor.py:10-11 | cleaning keeps every non-whitespace character, in order |
| TextPreprocessor.CleanIdempotent | src/text_preprocessor.py:3-13 | cleaning twice is cleaning once |
| SeniorityExtractor.Tier | src/seniority_extractor.py:7-19 | the tier is Intern exactly on an intern word, Senior on a senior word without one, and Not Specified when no keyword occurs |
| SeniorityExtractor.ExtractSeniority | src/seniority_extractor.py:1-19 | the answer is one of the five levels |
| SeniorityExtractor.SeniorityPriority | src/seniority_extractor.py:7-19 | each level holds exactly when one of its keywords occurs and none of a higher tier does |
| SeniorityExtractor.InternTierIsIntern | src/seniority_extractor.py:7 | Intern exactly when "intern" occurs |
| SeniorityExtractor.MidBeatsEntry | src/seniority_extractor.py:13-17 | without an intern or senior word, any Mid phrase outranks any Entry phrase |
| SeniorityExtractor.EmptyIsNotSpecified | src/seniority_extractor.py:19 | example: the empty text is "Not Specified" |
| SeniorityExtractor.SeniorityIgnoresCase | src/seniority_extractor.py:5 | the answer does not depend on letter case |
| SeniorityExtractor.LeadingCountsAsSenior | src/seniority_extractor.py:10 | the substring test makes "Leading" Senior |
| DegreeExtractor.LevelWords | src/degree_extractor.py:13-19 | each level has a non-empty list of non-empty alternatives |
| DegreeExtractor.RankOf | src/degree_extractor.py:13-20 | the position of a level in append order |
| DegreeExtractor.ExtractDegreeRequirement | src/degree_extractor.py:6-22 | only the three levels, each at most once, in the order Bachelor, Master, PhD, and a level exactly when one of its alternatives occurs as a whole word |
| DegreeExtractor.NoDegreeInEmptyText | src/degree_extractor.py:13-19 | example: the empty text names no level |
| DegreeExtractor.MsInsideWordIgnored | src/degree_extractor.py:16 | "ms" inside "programs" is not a whole word |
| DegreeExtractor.DottedMasterBeforeCommaIgnored | src/degree_extractor.py:16 | `\b` after "m.s." needs a word character next, so "M.S.," is not found |
| DegreeExtractor.DottedPhdIgnored | src/degree_extractor.py:19 | "Ph.D." is neither "phd" nor "doctorate" |
| FieldExtractor.ExtractFields | src/field_extractor.py:1-24 | no repeats; a field is present exactly when one of its keywords occurs, or for "Related Field" one of its phrases |
| FieldExtractor.RelatedFieldOnlyByPhrase | src/field_extractor.py:21-22 | "Related Field" is reported exactly when "related field" or "related discipline" occurs |
| FieldExtractor.NoFieldInEmptyText | src/field_extractor.py:17-22 | example: nothing is found in the empty text |
| FieldExtractor.ThisMeansInformationSystems | src/field_extractor.py:11 | the keyword "is" makes "this" report Information Systems |
| SkillExtractor.SentencesAfterBreaks | src/skill_extractor.py:10 | a break-free piece followed by a run of breaks is cut there: it is the first sentence, and the rest is split on its own |
| SkillExtractor.BreakRunAtStart | src/skill_extractor.py:10 | a leading run of breaks gives one empty first sentence, then the split of the rest |
| SkillExtractor.SplitSentences | src/skill_extractor.py:6-10 | `re.split(r"[.\n]+")` gives at least one piece, none holding a break; the first piece is empty exactly when the text starts with a break |
| SkillExtractor.SentencesKeepText | src/skill_extractor.py:10 | splitting drops the breaks and nothing else |
| SkillExtractor.InnerSentencesNonEmpty | src/skill_extractor.py:10 | a run of breaks makes one cut, so only the first and last pieces can be empty |
| SkillExtractor.SentenceContained | src/skill_extractor.py:10 | every sentence occurs in the text |
| SkillExtractor.SentencesWithoutBreak | src/skill_extractor.py:10 | text without a break is one sentence |
| SkillExtractor.NamedBeforeStep | src/skill_extractor.py:48-49 | one more table entry adds its skill exactly when one of its keywords occurs |
| SkillExtractor.CollectedIsSkillIn | src/skill_extractor.py:42-53 | the accumulated set holds exactly the skills some non-blank sentence of the right kind names |
| SkillExtractor.AddMentioned | src/skill_extractor.py:48-53 | the inner loop adds the named skills to the preferred set for a preferred sentence, else to the required set, and leaves the other set alone |
| SkillExtractor.ScanSentences | src/skill_extractor.py:42-53 | the sentence loop builds exactly the accumulated sets |
| SkillExtractor.ExtractSkills | src/skill_extractor.py:12-58 | both lists are sorted; a skill is required exactly when a trigger-free sentence names it; preferred exactly when a trigger sentence names it and no trigger-free one does; the lists are disjoint |
| SkillExtractor.NoKeywordNoSkill | src/skill_extractor.py:42-53 | text without any keyword yields no skill |
| SkillExtractor.GitInDigital | src/skill_extractor.py:27 | substring matching makes "digital" name Git |
| TitleCompanyExtractor.TitleLineIndex | src/title_company_extractor.py:40-50 | the first title line among the first 15 lines, with no earlier one |
| TitleCompanyExtractor.TitleCut | src/title_company_extractor.py:54 | the lazy group ends at the first terminator: spaced "at", comma or full stop |
| TitleCompanyExtractor.TitleShape | src/title_company_extractor.py:52-58 | the title holds no comma or full stop and is a trimmed prefix of the title line |
| TitleCompanyExtractor.TitleOfUncutLine | src/title_company_extractor.py:57-58 | a trimmed line without a terminator is its own title |
| TitleCompanyExtractor.CompanyGroup | src/title_company_extractor.py:61-64 | the group starts with a capital and holds only company characters |
| TitleCompanyExtractor.CompanySearch | src/title_company_extractor.py:61-64 | the leftmost match of the company pattern |
| TitleCompanyExtractor.CompanyShape | src/title_company_extractor.py:60-66 | a company starts with a capital, holds only letters, digits, "&", "-" and whitespace, and is found exactly when the pattern matches |
| TitleCompanyExtractor.FindTitleLine | src/title_company_extractor.py:39-50 | the scan loop returns the first title line within 15 lines, or none |
| TitleCompanyExtractor.TitleAndCompany | src/title_company_extractor.py:26-68 | empty text gives ("", ""); otherwise both parts come from one title line among the first 15 lines; the title is trimmed and holds no comma or full stop; the company starts with a capital and holds only company characters |
| TitleCompanyExtractor.ExtractJobTitleAndCompany | src/title_company_extractor.py:26-68 | the function returns the title and company of the title line, and ("", "") without one |
| Run.AnalyzeJd | src/run.py:11-29 | all eight keys are present; title, company and seniority are their extractors' results on the cleaned text; degrees are in the order Bachelor, Master, PhD and hold a level exactly when one of its alternatives occurs; fields have no repeats and hold a field exactly when it is found; both skill lists are sorted, hold exactly the required or preferred skills, and are disjoint; raw_text is the input |
| Run.CleanedTextIsOneLine | src/run.py:12-14 | after cleaning, the title scanner sees at most one line, the whole cleaned text |

## Left out

- Character classes are modelled on ASCII only.
  - `\s` and `str.strip()` use Python's whitespace test, limited to the ASCII
    whitespace characters.
  - `\w` is ASCII letters, digits and `_`.
  - `str.lower()` and `str.upper()` fold ASCII letters only. Non-ASCII
    whitespace, letters and case mappings that change length are not modelled.
- AnalyzerProfile.ExtractCompany: the regex at src/text_analyzer.py:94 is not
  modelled. Its backtracking over `[A-Za-z&.\- ]{2,60}` and the verb
  alternation would need a regex engine. Its match on the head text is a
  parameter (`headRule`). The filtering, stripping and brand fallback after
  it are modelled.
- Collections.ListOfSet: `list(set)` order is unspecified in Python, and
  the model says only that each member appears once.
- Collections.SortSet: `sorted` is modelled by its result (strictly
  increasing, same members), not by Timsort's steps. SortedUnique shows that
  the result is determined.
- AnalyzerSkills.PrettySkillIdempotent: proved only for terms whose stripped,
  lower-cased form is not a table key. For table names, TableNameFixed,
  LlmFixed and KnowledgeGraphsFixed state the fixed point instead.
- AnalyzerSkills.CollectTerms: the five `update` calls per segment are
  modelled as one loop over the list of vocabularies, in the same order.
- TextAnalyzer.AnalyzeJdText: the contract states only the AI and data
  buckets. AnalyzerSkills.SkillBuckets states the other three.
- Strings.CollapseShape: on its own it does not say that each whitespace run
  becomes one space. Strings.CollapseSeparates states that.
- TextPreprocessor.CleanShape: on its own it does not say that each
  whitespace run between words becomes one space.
  TextPreprocessor.CleanSeparates states that.
- Strings.CollapseWhitespace and AnalyzerSkills.NamesOf have no contract of
  their own. Their meaning is stated by lemmas: CollapseShape,
  CollapseKeepsNonSpace and CollapseSeparates for the first, NamesByMeaning
  for the second.
- Strings.SplitLines: its own contract gives only the shape of the lines.
  Strings.SplitLinesOfOneLine and Strings.SplitLinesFirst state which lines
  appear, stripped and in order.
- AnalyzerSections.CollapseNewlines: its own contract gives only the absence
  of three newlines in a row. AnalyzerSections.CollapseNewlinesSeparates
  states that each long run becomes exactly two newlines.
- AnalyzerResponsibilities.Bullets: its own contract gives only the length
  bound. BulletsFromLines, BulletsConcat and BulletsOfOneLine state which
  bullets appear and in what order.
- SkillExtractor.SplitSentences: its own contract gives only the shape of
  the pieces. SkillExtractor.SentencesAfterBreaks and
  SkillExtractor.BreakRunAtStart state that cuts happen exactly at runs of
  breaks.
- `json.dumps` and the demo block of src/run.py (lines 32-89) are left out.
  They are printing, not analysis.
- src/fetch_page.py, src/html_extractor.py, src/web_app.py and
  src/run_from_url.py are not part of this model. They do browser
  automation, HTML parsing and web serving.
