/** The text-level stages of the monolithic analyser (src/text_analyzer.py):
    _normalize, _split_lines and the heading-based section splitter
    _detect_sections. */
module AnalyzerSections {
  import opened Strings
  import opened Collections

  // ----- _normalize -----

  /** text.replace("\r", "\n") */
  function ReplaceCarriageReturns(s: string): (r: string)
    ensures |r| == |s| && '\r' !in r
    ensures forall i | 0 <= i < |s| :: r[i] == if s[i] == '\r' then '\n' else s[i]
  {
    seq(|s|, i requires 0 <= i < |s| => if s[i] == '\r' then '\n' else s[i])
  }

  /** No three newlines in a row. */
  predicate NoTripleNewline(s: string)
  {
    forall i | 0 <= i && i + 2 < |s| :: !(s[i] == '\n' && s[i + 1] == '\n' && s[i + 2] == '\n')
  }

  /** The end of the run of newlines that starts at k. */
  function NewlineRunEnd(s: string, k: nat): (r: nat)
    requires k <= |s|
    decreases |s| - k
    ensures k <= r <= |s|
    ensures forall m | k <= m < r :: s[m] == '\n'
    ensures r == |s| || s[r] != '\n'
  {
    if k == |s| || s[k] != '\n' then k else NewlineRunEnd(s, k + 1)
  }

  /** re.sub(r"\n{3,}", "\n\n", s): every maximal run of three or more
      newlines becomes two; shorter runs stay. */
  function CollapseNewlines(s: string): (r: string)
    ensures NoTripleNewline(r)
    ensures s != [] && s[0] != '\n' ==> r != [] && r[0] == s[0]
  {
    CollapseRunsNoTriple(s);
    CollapseRuns(s)
  }

  /** The substitution itself, one maximal newline run at a time. */
  function CollapseRuns(s: string): (r: string)
    decreases |s|
    ensures s != [] && s[0] != '\n' ==> r != [] && r[0] == s[0]
  {
    if s == [] then []
    else if s[0] == '\n' then
      var n := NewlineRunEnd(s, 0);
      RunImage(s[..n]) + CollapseRuns(s[n..])
    else
      [s[0]] + CollapseRuns(s[1..])
  }

  /** No run of three newlines survives the substitution. */
  lemma {:induction false} CollapseRunsNoTriple(s: string)
    ensures NoTripleNewline(CollapseRuns(s))
    decreases |s|
  {
    if s != [] {
      if s[0] == '\n' {
        var n := NewlineRunEnd(s, 0);
        var run, rest := RunImage(s[..n]), CollapseRuns(s[n..]);
        CollapseRunsNoTriple(s[n..]);
        assert forall i | 0 <= i < |run| :: run[i] == '\n';
        assert rest == [] || rest[0] != '\n';
      } else {
        CollapseRunsNoTriple(s[1..]);
      }
    }
  }

  /** The substitution leaves a text that has no long newline run alone. */
  lemma {:induction false} CollapseNewlinesIdentity(s: string)
    requires NoTripleNewline(s)
    ensures CollapseNewlines(s) == s
    decreases |s|
  {
    if s != [] {
      if s[0] == '\n' {
        var n := NewlineRunEnd(s, 0);
        assert |s| >= 3 ==> !(s[0] == '\n' && s[1] == '\n' && s[2] == '\n');
        assert n < 3;
        CollapseNewlinesIdentity(s[n..]);
        assert s[..n] + s[n..] == s;
      } else {
        CollapseNewlinesIdentity(s[1..]);
        assert [s[0]] + s[1..] == s;
      }
    }
  }

  /** A newline run followed by a non-newline (or the end) ends exactly there. */
  lemma NewlineRunOfRun(w: string, b: string)
    requires forall i | 0 <= i < |w| :: w[i] == '\n'
    requires b == [] || b[0] != '\n'
    ensures NewlineRunEnd(w + b, 0) == |w|
  {
    assert forall k | 0 <= k < |w| :: (w + b)[k] == '\n';
    assert b != [] ==> (w + b)[|w|] == b[0];
  }

  /** A newline run that starts inside a and ends before a's last character is
      not affected by what follows a. */
  lemma NewlineRunInside(a: string, t: string)
    requires a != [] && a[|a| - 1] != '\n'
    ensures NewlineRunEnd(a + t, 0) == NewlineRunEnd(a, 0) < |a|
  {
    assert NewlineRunEnd(a, 0) < |a|;
    assert forall k | 0 <= k < |a| :: (a + t)[k] == a[k];
  }

  /** What the substitution writes for one maximal newline run. */
  function RunImage(w: string): string
  {
    if |w| >= 3 then "\n\n" else w
  }

  /** The substitution copies a character other than a newline. */
  lemma {:induction false} NewlinesCons(c: char, rest: string)
    requires c != '\n'
    ensures CollapseRuns([c] + rest) == [c] + CollapseRuns(rest)
  {
    assert ([c] + rest)[1..] == rest;
  }

  lemma SlicesOfConcat(a: string, t: string, n: nat)
    requires n <= |a|
    ensures (a + t)[..n] == a[..n] && (a + t)[n..] == a[n..] + t
  {
  }

  /** A leading newline run becomes its image. */
  lemma {:induction false} NewlinesRunHead(s: string)
    requires s != [] && s[0] == '\n'
    ensures CollapseRuns(s) ==
      RunImage(s[..NewlineRunEnd(s, 0)]) + CollapseRuns(s[NewlineRunEnd(s, 0)..])
  {
  }

  /** Every run of newlines between two other characters is handled on its
      own: three or more become exactly two, one or two stay. */
  lemma CollapseNewlinesSeparates(a: string, w: string, b: string)
    requires a == [] || a[|a| - 1] != '\n'
    requires w != [] && forall i | 0 <= i < |w| :: w[i] == '\n'
    requires b == [] || b[0] != '\n'
    ensures CollapseNewlines(a + w + b) == CollapseNewlines(a) + RunImage(w) + CollapseNewlines(b)
  {
    RunsSeparate(a, w, b);
  }

  lemma {:induction false} RunsSeparate(a: string, w: string, b: string)
    requires a == [] || a[|a| - 1] != '\n'
    requires w != [] && forall i | 0 <= i < |w| :: w[i] == '\n'
    requires b == [] || b[0] != '\n'
    ensures CollapseRuns(a + w + b) == CollapseRuns(a) + RunImage(w) + CollapseRuns(b)
    decreases |a|, 1
  {
    if a == [] {
      NewlinesSeparateAtStart(a, w, b);
    } else if a[0] != '\n' {
      NewlinesSeparateAfterChar(a, w, b);
    } else {
      NewlinesSeparateAfterRun(a, w, b);
    }
  }

  lemma {:induction false} NewlinesSeparateAtStart(a: string, w: string, b: string)
    requires a == []
    requires w != [] && forall i | 0 <= i < |w| :: w[i] == '\n'
    requires b == [] || b[0] != '\n'
    ensures CollapseRuns(a + w + b) == CollapseRuns(a) + RunImage(w) + CollapseRuns(b)
  {
    var s := w + b;
    assert a + w + b == s;
    NewlineRunOfRun(w, b);
    assert s[..|w|] == w && s[|w|..] == b;
    NewlinesRunHead(s);
    assert CollapseRuns(a) == [];
  }

  lemma {:induction false} NewlinesSeparateAfterChar(a: string, w: string, b: string)
    requires a != [] && a[0] != '\n' && a[|a| - 1] != '\n'
    requires w != [] && forall i | 0 <= i < |w| :: w[i] == '\n'
    requires b == [] || b[0] != '\n'
    ensures CollapseRuns(a + w + b) == CollapseRuns(a) + RunImage(w) + CollapseRuns(b)
    decreases |a|, 0
  {
    var a' := a[1..];
    var ca, cb, iw := CollapseRuns(a'), CollapseRuns(b), RunImage(w);
    assert a' != [] ==> a'[|a'| - 1] == a[|a| - 1];
    RunsSeparate(a', w, b);
    CharBeforeTwo(a, w, b);
    CharThenRest(a, []);
    assert a + [] == a && a' + [] == a';
    ConcatRegroup([a[0]], ca, iw, cb);
  }

  /** CharThenRest with the rest written as two pieces. */
  lemma {:induction false} CharBeforeTwo(a: string, w: string, b: string)
    requires a != [] && a[0] != '\n'
    ensures CollapseRuns(a + w + b) == [a[0]] + CollapseRuns(a[1..] + w + b)
  {
    CharThenRest(a, w + b);
    assert a + w + b == a + (w + b);
    assert a[1..] + (w + b) == a[1..] + w + b;
  }

  /** A character other than a newline at the head of a is kept before
      whatever follows a. */
  lemma {:induction false} CharThenRest(a: string, t: string)
    requires a != [] && a[0] != '\n'
    ensures CollapseRuns(a + t) == [a[0]] + CollapseRuns(a[1..] + t)
  {
    assert a + t == [a[0]] + (a[1..] + t);
    NewlinesCons(a[0], a[1..] + t);
  }

  /** A newline run that ends inside a is collapsed before whatever follows a. */
  lemma {:induction false} LeadingRunThenRest(a: string, t: string)
    requires a != [] && a[0] == '\n' && a[|a| - 1] != '\n'
    ensures 0 < NewlineRunEnd(a, 0) < |a|
    ensures CollapseRuns(a + t) ==
      RunImage(a[..NewlineRunEnd(a, 0)]) + CollapseRuns(a[NewlineRunEnd(a, 0)..] + t)
  {
    var n := NewlineRunEnd(a, 0);
    NewlineRunInside(a, t);
    SlicesOfConcat(a, t, n);
    NewlinesRunHead(a + t);
  }

  lemma {:induction false} NewlinesSeparateAfterRun(a: string, w: string, b: string)
    requires a != [] && a[0] == '\n' && a[|a| - 1] != '\n'
    requires w != [] && forall i | 0 <= i < |w| :: w[i] == '\n'
    requires b == [] || b[0] != '\n'
    ensures CollapseRuns(a + w + b) == CollapseRuns(a) + RunImage(w) + CollapseRuns(b)
    decreases |a|, 0
  {
    var n := NewlineRunEnd(a, 0);
    LeadingRunThenRest(a, []);
    var a' := a[n..];
    assert a'[|a'| - 1] == a[|a| - 1];
    RunsSeparate(a', w, b);
    RunGlue(a, w, b);
  }

  /** The step of NewlinesSeparateAfterRun once the rest of a is handled. */
  lemma {:induction false} RunGlue(a: string, w: string, b: string)
    requires a != [] && a[0] == '\n' && a[|a| - 1] != '\n'
    requires NewlineRunEnd(a, 0) <= |a|
    requires CollapseRuns(a[NewlineRunEnd(a, 0)..] + w + b) ==
      CollapseRuns(a[NewlineRunEnd(a, 0)..]) + RunImage(w) + CollapseRuns(b)
    ensures CollapseRuns(a + w + b) == CollapseRuns(a) + RunImage(w) + CollapseRuns(b)
  {
    var n := NewlineRunEnd(a, 0);
    var head, rest := RunImage(a[..n]), CollapseRuns(a[n..] + w + b);
    var ca, cb, iw := CollapseRuns(a[n..]), CollapseRuns(b), RunImage(w);
    LeadingRunBeforeTwo(a, w, b);
    NewlinesRunHead(a);
    ConcatRegroup(head, ca, iw, cb);
  }

  lemma ConcatRegroup(h: string, x: string, y: string, z: string)
    ensures h + (x + y + z) == (h + x) + y + z
  {
  }

  /** LeadingRunThenRest with the rest written as two pieces. */
  lemma {:induction false} LeadingRunBeforeTwo(a: string, w: string, b: string)
    requires a != [] && a[0] == '\n' && a[|a| - 1] != '\n'
    ensures NewlineRunEnd(a, 0) <= |a|
    ensures CollapseRuns(a + w + b) ==
      RunImage(a[..NewlineRunEnd(a, 0)]) + CollapseRuns(a[NewlineRunEnd(a, 0)..] + w + b)
  {
    var n := NewlineRunEnd(a, 0);
    LeadingRunThenRest(a, w + b);
    assert a + w + b == a + (w + b);
    assert a[n..] + (w + b) == a[n..] + w + b;
  }

  /** The substitution only ever writes newlines and copies the rest. */
  lemma {:induction false} CollapseNewlinesKeepsOut(s: string, c: char)
    requires c != '\n' && c !in s
    ensures c !in CollapseNewlines(s)
    decreases |s|
  {
    if s != [] {
      if s[0] == '\n' {
        CollapseNewlinesKeepsOut(s[NewlineRunEnd(s, 0)..], c);
      } else {
        CollapseNewlinesKeepsOut(s[1..], c);
      }
    }
  }

  /** _normalize: the result has no carriage return, no three newlines in a
      row and no whitespace at either end. */
  function Normalize(text: string): (r: string)
    ensures '\r' !in r
    ensures NoTripleNewline(r)
    ensures IsStripped(r)
  {
    var c := CollapseNewlines(ReplaceCarriageReturns(text));
    CollapseNewlinesKeepsOut(ReplaceCarriageReturns(text), '\r');
    StripKeepsOut(c, '\r');
    var a := StripStart(c);
    NoTripleNewlineSlice(c, a, a + |Strip(c)|);
    Strip(c)
  }

  /** A piece of a text without three newlines in a row has none either. */
  lemma NoTripleNewlineSlice(s: string, lo: nat, hi: nat)
    requires lo <= hi <= |s| && NoTripleNewline(s)
    ensures NoTripleNewline(s[lo..hi])
  {
    var t := s[lo..hi];
    forall i | 0 <= i && i + 2 < |t| ensures !(t[i] == '\n' && t[i + 1] == '\n' && t[i + 2] == '\n') {
      assert t[i] == s[lo + i] && t[i + 1] == s[lo + i + 1] && t[i + 2] == s[lo + i + 2];
    }
  }

  /** Normalising normalised text changes nothing. */
  lemma NormalizeIdempotent(text: string)
    ensures Normalize(Normalize(text)) == Normalize(text)
  {
    var t := Normalize(text);
    assert ReplaceCarriageReturns(t) == t;
    CollapseNewlinesIdentity(t);
    StripOfStripped(t);
  }

  // ----- _detect_sections -----

  /** SECTION_HEADERS, in order; a header's rank is its index here. */
  const SectionHeaders: seq<string> := [
    RoleHeader,
    TopicsHeader,
    TopicsLongHeader,
    "required technical and professional expertise",
    "preferred technical and professional experience",
    "preferred education",
    "required education",
    "this internship is a great fit",
    "this role",
    ResponsibilitiesHeader
  ]
  const RoleHeader := "your role and responsibilities"
  const TopicsHeader := "topics include"
  const TopicsLongHeader := "topics include but are not limited to"
  const ResponsibilitiesHeader := "responsibilities"

  lemma HeadersDistinct()
    ensures forall i, j | 0 <= i < j < |SectionHeaders| :: SectionHeaders[i] != SectionHeaders[j]
  {
    forall i, j | 0 <= i < j < |SectionHeaders| ensures SectionHeaders[i] != SectionHeaders[j] {
      var a, b := SectionHeaders[i], SectionHeaders[j];
      assert |a| != |b| || a[0] != b[0];
    }
  }

  /** No header is the key "full". */
  lemma HeadersAreNotFull()
    ensures forall r | 0 <= r < |SectionHeaders| :: SectionHeaders[r] != "full"
  {
    forall r | 0 <= r < |SectionHeaders| ensures |SectionHeaders[r]| > 4 { }
  }

  /** An entry `(idx, h)` of the hits list: the first position of a header and
      the header's rank. */
  datatype Hit = Hit(pos: nat, rank: nat)

  /** hits.sort(key=pos) is stable and the hits are appended in rank order, so
      the sorted list is ordered by position and then by rank. */
  predicate HitLt(a: Hit, b: Hit)
  {
    a.pos < b.pos || (a.pos == b.pos && a.rank < b.rank)
  }

  lemma HitLtIsStrictTotalOrder()
    ensures StrictTotalOrder(HitLt)
  {
  }

  /** The hits of the headers of rank below k found in the lower-cased text low,
      in rank order. */
  function HitsBefore(low: string, k: nat): (hits: seq<Hit>)
    requires k <= |SectionHeaders|
    ensures forall h | h in hits ::
      h.rank < k && h.pos == IndexOf(low, SectionHeaders[h.rank]) && h.pos + |SectionHeaders[h.rank]| <= |low|
    ensures forall r | 0 <= r < k && Contains(low, SectionHeaders[r]) ::
      Hit(IndexOf(low, SectionHeaders[r]), r) in hits
    ensures hits == [] ==> forall r | 0 <= r < k :: !Contains(low, SectionHeaders[r])
  {
    if k == 0 then []
    else
      var idx := IndexOf(low, SectionHeaders[k - 1]);
      HitsBefore(low, k - 1) + (if idx != -1 then [Hit(idx, k - 1)] else [])
  }

  /** Different hits are under different headers. */
  lemma HitHeadersUnique(low: string)
    ensures var hits := HitsBefore(low, |SectionHeaders|);
      forall a, b | a in hits && b in hits && SectionHeaders[a.rank] == SectionHeaders[b.rank] :: a == b
  {
    HeadersDistinct();
  }

  /** Where the chunk of hit h ends: the position of the next hit in sorted
      order, that is, the least position of a hit after h, or n when h is last. */
  function ChunkEnd(hits: seq<Hit>, h: Hit, n: nat): (e: nat)
    ensures e <= n
    ensures forall x | x in hits && HitLt(h, x) && x.pos <= n :: e <= x.pos
  {
    if hits == [] then n
    else
      var e := ChunkEnd(hits[1..], h, n);
      if HitLt(h, hits[0]) && hits[0].pos < e then hits[0].pos else e
  }

  /** The chunk ends at the end of the text or where a later hit starts. */
  lemma {:induction false} ChunkEndIsAHit(hits: seq<Hit>, h: Hit, n: nat)
    ensures var e := ChunkEnd(hits, h, n);
      e == n || exists x | x in hits :: HitLt(h, x) && x.pos == e
  {
    if hits != [] {
      ChunkEndIsAHit(hits[1..], h, n);
      var e := ChunkEnd(hits[1..], h, n);
      if e != n && !(HitLt(h, hits[0]) && hits[0].pos < e) {
        var x :| x in hits[1..] && HitLt(h, x) && x.pos == e;
        assert x in hits;
      }
    }
  }

  /** raw[pos:end].strip() for the hit h. */
  function Chunk(raw: string, hits: seq<Hit>, h: Hit): string
  {
    var e := ChunkEnd(hits, h, |raw|);
    if h.pos <= e then Strip(raw[h.pos..e]) else ""
  }

  /** Each hit's header mapped to its chunk. */
  function ChunkMap(raw: string, hits: seq<Hit>, headers: seq<string>): (m: map<string, string>)
    requires forall h | h in hits :: h.rank < |headers|
    requires forall a, b | a in hits && b in hits && headers[a.rank] == headers[b.rank] :: a == b
    ensures m.Keys == set h | h in hits :: headers[h.rank]
    ensures forall h | h in hits :: m[headers[h.rank]] == Chunk(raw, hits, h)
  {
    map h | h in hits :: headers[h.rank] := Chunk(raw, hits, h)
  }

  /** The dictionary _detect_sections returns for the normalised text raw. */
  function SplitSections(raw: string): (sections: map<string, string>)
    ensures "full" in sections && sections["full"] == raw
    ensures forall k | k in sections && k != "full" :: k in SectionHeaders
  {
    var hits := HitsBefore(Lower(raw), |SectionHeaders|);
    if hits == [] then map["full" := raw]
    else
      HitHeadersUnique(Lower(raw));
      ChunkMap(raw, hits, SectionHeaders)["full" := raw]
  }

  /** The dictionary _detect_sections returns. */
  function Sections(text: string): (sections: map<string, string>)
    ensures "full" in sections && sections["full"] == Normalize(text)
    ensures forall k | k in sections && k != "full" :: k in SectionHeaders
  {
    SplitSections(Normalize(text))
  }

  /** In a strictly sorted list of hits, the chunk of the i-th hit ends where
      the next one starts. */
  lemma SuccessorIsChunkEnd(hits: seq<Hit>, sorted: seq<Hit>, i: nat, n: nat)
    requires SortedBy(sorted, HitLt) && forall x :: x in sorted <==> x in hits
    requires forall x | x in hits :: x.pos <= n
    requires i < |sorted|
    ensures ChunkEnd(hits, sorted[i], n) == if i + 1 < |sorted| then sorted[i + 1].pos else n
  {
    var e := ChunkEnd(hits, sorted[i], n);
    ChunkEndIsAHit(hits, sorted[i], n);
    if i + 1 < |sorted| {
      assert HitLt(sorted[i], sorted[i + 1]) && sorted[i + 1] in hits;
      if e != n {
        var x :| x in hits && HitLt(sorted[i], x) && x.pos == e;
        var j :| 0 <= j < |sorted| && sorted[j] == x;
        assert j > i;
        assert j == i + 1 || HitLt(sorted[i + 1], sorted[j]);
      }
    } else {
      forall x | x in hits ensures !HitLt(sorted[i], x) {
        var j :| 0 <= j < |sorted| && sorted[j] == x;
        assert j == i || HitLt(sorted[j], sorted[i]);
      }
    }
  }

  /** The loop over SECTION_HEADERS: the first position of each header that
      occurs, in rank order. */
  method FindHits(low: string) returns (hits: seq<Hit>)
    ensures hits == HitsBefore(low, |SectionHeaders|)
  {
    hits := [];
    for r := 0 to |SectionHeaders|
      invariant hits == HitsBefore(low, r)
    {
      var idx := IndexOf(low, SectionHeaders[r]);
      if idx != -1 {
        hits := hits + [Hit(idx, r)];
      }
    }
  }

  /** Hits of distinct headers, all within raw. */
  predicate WellFormedHits(raw: string, hits: seq<Hit>, headers: seq<string>)
  {
    && (forall h | h in hits :: h.rank < |headers| && h.pos <= |raw|)
    && (forall a, b | a in hits && b in hits && headers[a.rank] == headers[b.rank] :: a == b)
  }

  /** The first n pairs keys[j] := vals[j] are all in m, and m holds nothing else. */
  ghost predicate HoldsPairs(m: map<string, string>, keys: seq<string>, vals: seq<string>, n: nat)
    requires n <= |keys| == |vals|
  {
    && (forall j | 0 <= j < n :: keys[j] in m && m[keys[j]] == vals[j])
    && (forall k | k in m :: exists j | 0 <= j < n :: keys[j] == k)
  }

  lemma HoldsPairsStep(m: map<string, string>, keys: seq<string>, vals: seq<string>, n: nat)
    requires n < |keys| == |vals| && HoldsPairs(m, keys, vals, n)
    requires forall j | 0 <= j < n :: keys[j] != keys[n]
    ensures HoldsPairs(m[keys[n] := vals[n]], keys, vals, n + 1)
  {
    var m' := m[keys[n] := vals[n]];
    forall j | 0 <= j < n + 1 ensures keys[j] in m' && m'[keys[j]] == vals[j] {
      if j < n {
        assert m'[keys[j]] == m[keys[j]];
      }
    }
  }

  /** The loop over the sorted hits: each chunk runs to the next hit's
      position, the last one to the end of the text. */
  method CutChunks(raw: string, hits: seq<Hit>, sorted: seq<Hit>, headers: seq<string>)
    returns (chunks: map<string, string>)
    requires WellFormedHits(raw, hits, headers)
    requires SortedBy(sorted, HitLt) && forall x :: x in sorted <==> x in hits
    ensures chunks == ChunkMap(raw, hits, headers)
  {
    assert forall j | 0 <= j < |sorted| :: sorted[j] in hits;
    ghost var keys := seq(|sorted|, j requires 0 <= j < |sorted| => headers[sorted[j].rank]);
    ghost var vals := seq(|sorted|, j requires 0 <= j < |sorted| => Chunk(raw, hits, sorted[j]));
    forall a, b | 0 <= a < b < |sorted| ensures keys[a] != keys[b] {
      assert HitLt(sorted[a], sorted[b]) && sorted[a] in hits && sorted[b] in hits;
    }
    chunks := map[];
    for i := 0 to |sorted|
      invariant HoldsPairs(chunks, keys, vals, i)
    {
      var h := sorted[i];
      var end := if i + 1 < |sorted| then sorted[i + 1].pos else |raw|;
      SuccessorIsChunkEnd(hits, sorted, i, |raw|);
      var chunk := if h.pos <= end then Strip(raw[h.pos..end]) else "";
      assert chunk == vals[i];
      HoldsPairsStep(chunks, keys, vals, i);
      chunks := chunks[headers[h.rank] := chunk];
    }
    ChunksOfAllHits(raw, hits, sorted, headers, keys, vals, chunks);
  }

  /** A map holding the chunk of every sorted hit, and nothing else, is the
      chunk map. */
  lemma ChunksOfAllHits(raw: string, hits: seq<Hit>, sorted: seq<Hit>, headers: seq<string>,
                        keys: seq<string>, vals: seq<string>, chunks: map<string, string>)
    requires WellFormedHits(raw, hits, headers)
    requires forall x :: x in sorted <==> x in hits
    requires |keys| == |vals| == |sorted|
    requires forall j | 0 <= j < |sorted| ::
      sorted[j].rank < |headers| && keys[j] == headers[sorted[j].rank] && vals[j] == Chunk(raw, hits, sorted[j])
    requires HoldsPairs(chunks, keys, vals, |sorted|)
    ensures chunks == ChunkMap(raw, hits, headers)
  {
    var spec := ChunkMap(raw, hits, headers);
    SortedPairsCoverHits(raw, hits, sorted, headers, keys, vals, chunks);
    SortedPairsOnlyHits(raw, hits, sorted, headers, keys, vals, chunks);
    SameChunks(raw, hits, headers, chunks, spec);
    SameMaps(chunks, spec);
  }

  lemma SortedPairsCoverHits(raw: string, hits: seq<Hit>, sorted: seq<Hit>, headers: seq<string>,
                             keys: seq<string>, vals: seq<string>, chunks: map<string, string>)
    requires forall h | h in hits :: h.rank < |headers|
    requires forall x :: x in sorted <==> x in hits
    requires |keys| == |vals| == |sorted|
    requires forall j | 0 <= j < |sorted| ::
      sorted[j].rank < |headers| && keys[j] == headers[sorted[j].rank] && vals[j] == Chunk(raw, hits, sorted[j])
    requires HoldsPairs(chunks, keys, vals, |sorted|)
    ensures forall h | h in hits :: headers[h.rank] in chunks && chunks[headers[h.rank]] == Chunk(raw, hits, h)
  {
    forall h | h in hits
      ensures headers[h.rank] in chunks && chunks[headers[h.rank]] == Chunk(raw, hits, h)
    {
      var j :| 0 <= j < |sorted| && sorted[j] == h;
      assert keys[j] == headers[h.rank];
    }
  }

  lemma SortedPairsOnlyHits(raw: string, hits: seq<Hit>, sorted: seq<Hit>, headers: seq<string>,
                            keys: seq<string>, vals: seq<string>, chunks: map<string, string>)
    requires forall h | h in hits :: h.rank < |headers|
    requires forall x :: x in sorted <==> x in hits
    requires |keys| == |vals| == |sorted|
    requires forall j | 0 <= j < |sorted| :: sorted[j].rank < |headers| && keys[j] == headers[sorted[j].rank]
    requires HoldsPairs(chunks, keys, vals, |sorted|)
    ensures forall k | k in chunks :: exists h | h in hits :: k == headers[h.rank]
  {
    forall k | k in chunks ensures exists h | h in hits :: k == headers[h.rank] {
      var j :| 0 <= j < |sorted| && keys[j] == k;
      assert sorted[j] in sorted;
    }
  }

  lemma SameChunks(raw: string, hits: seq<Hit>, headers: seq<string>,
                   chunks: map<string, string>, spec: map<string, string>)
    requires forall h | h in hits :: h.rank < |headers|
    requires forall h | h in hits :: headers[h.rank] in chunks && chunks[headers[h.rank]] == Chunk(raw, hits, h)
    requires forall h | h in hits :: headers[h.rank] in spec && spec[headers[h.rank]] == Chunk(raw, hits, h)
    requires spec.Keys == set h | h in hits :: headers[h.rank]
    requires forall k | k in chunks :: exists h | h in hits :: k == headers[h.rank]
    ensures chunks.Keys == spec.Keys
    ensures forall k | k in spec :: chunks[k] == spec[k]
  {
    forall k | k in spec ensures k in chunks && chunks[k] == spec[k] {
      var h :| h in hits && k == headers[h.rank];
    }
  }

  lemma SameMaps(a: map<string, string>, b: map<string, string>)
    requires a.Keys == b.Keys
    requires forall k | k in b :: a[k] == b[k]
    ensures a == b
  {
  }

  /** hits.sort(key=pos): the hits ordered by position, ties kept in rank
      order. */
  method SortHits(hits: seq<Hit>) returns (sorted: seq<Hit>)
    ensures SortedBy(sorted, HitLt)
    ensures forall x :: x in sorted <==> x in hits
  {
    HitLtIsStrictTotalOrder();
    var found := set h | h in hits;
    sorted := SortSet(found, HitLt);
  }

  /** The hits of a text are well formed. */
  lemma HitsWellFormed(raw: string)
    ensures WellFormedHits(raw, HitsBefore(Lower(raw), |SectionHeaders|), SectionHeaders)
  {
    HitHeadersUnique(Lower(raw));
  }

  /** _detect_sections: the hits sorted by position, each cut at the next
      one; "full" holds the whole normalised text. */
  method DetectSections(text: string) returns (sections: map<string, string>)
    ensures sections == Sections(text)
  {
    var raw := Normalize(text);
    var low := Lower(raw);
    var hits := FindHits(low);
    if hits == [] {
      WholeTextWithoutHeaders(raw);
      return map["full" := raw];
    }
    var sorted := SortHits(hits);
    HitsWellFormed(raw);
    var chunks := CutChunks(raw, hits, sorted, SectionHeaders);
    sections := chunks["full" := raw];
    SectionsWithHits(raw);
  }

  /** The text is one section, "full", exactly when no header occurs in it. */
  lemma WholeTextWithoutHeaders(raw: string)
    ensures SplitSections(raw) == map["full" := raw] ==>
      forall r | 0 <= r < |SectionHeaders| :: !Contains(Lower(raw), SectionHeaders[r])
    ensures (forall r | 0 <= r < |SectionHeaders| :: !Contains(Lower(raw), SectionHeaders[r])) ==>
      SplitSections(raw) == map["full" := raw]
  {
    var low := Lower(raw);
    var hits := HitsBefore(low, |SectionHeaders|);
    HeadersAreNotFull();
    if hits != [] {
      var h := hits[0];
      var k := SectionHeaders[h.rank];
      assert h in hits && Contains(low, k);
      assert k in SplitSections(raw) && k != "full";
      assert SplitSections(raw) != map["full" := raw];
    }
  }

  /** A header is a key exactly when it occurs in the text. */
  lemma SectionsKeys(raw: string)
    ensures forall r | 0 <= r < |SectionHeaders| ::
      SectionHeaders[r] in SplitSections(raw) <==> Contains(Lower(raw), SectionHeaders[r])
  {
    var low := Lower(raw);
    var hits := HitsBefore(low, |SectionHeaders|);
    HeadersAreNotFull();
    forall r | 0 <= r < |SectionHeaders| && SectionHeaders[r] in SplitSections(raw)
      ensures Contains(low, SectionHeaders[r])
    {
      var h :| h in hits && SectionHeaders[h.rank] == SectionHeaders[r];
    }
  }

  lemma NamedHeaders()
    ensures SectionHeaders[0] == RoleHeader && SectionHeaders[1] == TopicsHeader
    ensures SectionHeaders[2] == TopicsLongHeader && SectionHeaders[9] == ResponsibilitiesHeader
  {
  }

  /** "responsibilities" is the tail of "your role and responsibilities". */
  lemma RoleHeaderTail()
    ensures |RoleHeader| == 30 && RoleHeader[14..30] == ResponsibilitiesHeader
    ensures RoleHeader[0] == 'y' && ResponsibilitiesHeader[0] == 'r'
  {
  }

  /** "topics include" is the head of "topics include but are not limited to". */
  lemma TopicsHeaderHead()
    ensures |TopicsLongHeader| >= 14 && TopicsLongHeader[0..14] == TopicsHeader
  {
  }

  /** The section of a header that was found is its hit's chunk. */
  lemma SectionOfHit(raw: string, h: Hit)
    requires h in HitsBefore(Lower(raw), |SectionHeaders|)
    ensures SectionHeaders[h.rank] in SplitSections(raw)
    ensures SplitSections(raw)[SectionHeaders[h.rank]] ==
      Chunk(raw, HitsBefore(Lower(raw), |SectionHeaders|), h)
  {
    var hits := HitsBefore(Lower(raw), |SectionHeaders|);
    HitsWellFormed(raw);
    SectionsWithHits(raw);
    var m := ChunkMap(raw, hits, SectionHeaders);
    HeadersAreNotFull();
    LookupPastUpdate(m, SectionHeaders[h.rank], "full", raw);
  }

  /** With at least one hit, the sections are the chunk map and "full". */
  lemma SectionsWithHits(raw: string)
    requires HitsBefore(Lower(raw), |SectionHeaders|) != []
    ensures WellFormedHits(raw, HitsBefore(Lower(raw), |SectionHeaders|), SectionHeaders)
    ensures SplitSections(raw) == ChunkMap(raw, HitsBefore(Lower(raw), |SectionHeaders|), SectionHeaders)["full" := raw]
  {
    HitsWellFormed(raw);
  }

  lemma LookupPastUpdate(m: map<string, string>, k: string, k': string, v: string)
    requires k in m && k != k'
    ensures k in m[k' := v] && m[k' := v][k] == m[k]
  {
  }

  /** A chunk is no longer than the distance to its end, and empty when the
      next hit starts where it does. */
  lemma ChunkBounds(raw: string, hits: seq<Hit>, h: Hit)
    ensures |Chunk(raw, hits, h)| <= if h.pos <= ChunkEnd(hits, h, |raw|) then ChunkEnd(hits, h, |raw|) - h.pos else 0
  {
  }

  /** Where "your role and responsibilities" is found at p and
      "responsibilities" not before it, the hit of the latter at most fourteen
      characters on ends the former's chunk. */
  lemma RoleHits(low: string)
    requires Contains(low, RoleHeader)
    requires IndexOf(low, ResponsibilitiesHeader) >= IndexOf(low, RoleHeader)
    ensures Hit(IndexOf(low, RoleHeader), 0) in HitsBefore(low, |SectionHeaders|)
    ensures ChunkEnd(HitsBefore(low, |SectionHeaders|), Hit(IndexOf(low, RoleHeader), 0), |low|) <=
      IndexOf(low, RoleHeader) + 14
  {
    var hits := HitsBefore(low, |SectionHeaders|);
    var p := IndexOf(low, RoleHeader);
    ResponsibilitiesWithinRole(low);
    var q := IndexOf(low, ResponsibilitiesHeader);
    NamedHeaders();
    var h, next := Hit(p, 0), Hit(q, 9);
    assert h in hits && next in hits && HitLt(h, next);
  }

  /** The first "responsibilities" lies inside the first "your role and
      responsibilities" when it does not come before it. */
  lemma ResponsibilitiesWithinRole(low: string)
    requires Contains(low, RoleHeader)
    requires IndexOf(low, ResponsibilitiesHeader) >= IndexOf(low, RoleHeader)
    ensures Contains(low, ResponsibilitiesHeader)
    ensures IndexOf(low, RoleHeader) < IndexOf(low, ResponsibilitiesHeader) <= IndexOf(low, RoleHeader) + 14
    ensures IndexOf(low, ResponsibilitiesHeader) + 16 <= |low|
  {
    var p := IndexOf(low, RoleHeader);
    RoleHeaderTail();
    OccursAtPiece(low, RoleHeader, p, 14, 30);
    var q := IndexOf(low, ResponsibilitiesHeader);
    OccursAtPiece(low, RoleHeader, p, 0, 1);
    OccursAtPiece(low, ResponsibilitiesHeader, q, 0, 1);
    assert low[p] == 'y' && low[q] == 'r';
  }

  /** "responsibilities" is itself a header and ends "your role and
      responsibilities", so unless it occurs earlier in the text, the section
      under "your role and responsibilities" is cut off inside its own
      heading: it holds at most the fourteen characters "your role and ". */
  lemma RoleSectionCutShort(raw: string)
    requires Contains(Lower(raw), RoleHeader)
    requires IndexOf(Lower(raw), ResponsibilitiesHeader) >= IndexOf(Lower(raw), RoleHeader)
    ensures RoleHeader in SplitSections(raw)
    ensures |SplitSections(raw)[RoleHeader]| <= 14
  {
    var low := Lower(raw);
    var hits := HitsBefore(low, |SectionHeaders|);
    var h := Hit(IndexOf(low, RoleHeader), 0);
    RoleHits(low);
    NamedHeaders();
    SectionOfHit(raw, h);
    ChunkBounds(raw, hits, h);
  }

  /** Where "topics include" is first found where "topics include but are not
      limited to" is, both are hits at that position. */
  lemma TopicsHits(low: string)
    requires Contains(low, TopicsLongHeader)
    requires IndexOf(low, TopicsHeader) == IndexOf(low, TopicsLongHeader)
    ensures var p := IndexOf(low, TopicsLongHeader);
      Hit(p, 1) in HitsBefore(low, |SectionHeaders|) && Hit(p, 2) in HitsBefore(low, |SectionHeaders|)
  {
    var p := IndexOf(low, TopicsLongHeader);
    TopicsHeaderHead();
    NamedHeaders();
    OccursAtPiece(low, TopicsLongHeader, p, 0, 14);
  }

  /** "topics include" begins "topics include but are not limited to": when
      both are first found at the same place, the shorter header's section is
      empty. */
  lemma ShorterTopicsHeaderEmpty(raw: string)
    requires Contains(Lower(raw), TopicsLongHeader)
    requires IndexOf(Lower(raw), TopicsHeader) == IndexOf(Lower(raw), TopicsLongHeader)
    ensures TopicsHeader in SplitSections(raw) && SplitSections(raw)[TopicsHeader] == ""
  {
    var low := Lower(raw);
    var hits := HitsBefore(low, |SectionHeaders|);
    var p := IndexOf(low, TopicsLongHeader);
    TopicsHits(low);
    var h, next := Hit(p, 1), Hit(p, 2);
    assert HitLt(h, next);
    NamedHeaders();
    SectionOfHit(raw, h);
    ChunkBounds(raw, hits, h);
  }
}
