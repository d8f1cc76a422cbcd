/** String primitives shared by both pipelines: the character classes of
    Python's str.isspace and of the regular-expression escapes `\s`, `\w` and
    `\b`, ASCII case folding (the model of str.lower and str.upper), substring
    and whole-word search, str.find, str.strip, the substitution
    re.sub(r"\s+", " ", ...) and str.split on one character. */
module Strings {

  /** Python's str.isspace() (which `\s` and str.strip() also use) on ASCII:
      space, tab, line feed, vertical tab, form feed, carriage return and the
      four separators 0x1c to 0x1f. */
  predicate IsSpace(c: char)
  {
    c == ' ' || ('\t' <= c <= '\r') || ('\U{1c}' <= c <= '\U{1f}')
  }

  /** `\w`, restricted to ASCII letters, digits and the underscore. */
  predicate IsWordChar(c: char)
  {
    ('a' <= c <= 'z') || ('A' <= c <= 'Z') || ('0' <= c <= '9') || c == '_'
  }

  predicate IsUpper(c: char)
  {
    'A' <= c <= 'Z'
  }

  predicate IsLowerLetter(c: char)
  {
    'a' <= c <= 'z'
  }

  /** ASCII case folding of one character. */
  function LowerChar(c: char): (r: char)
    ensures !IsUpper(r)
    ensures IsWordChar(r) == IsWordChar(c) && IsSpace(r) == IsSpace(c)
  {
    if IsUpper(c) then (c as int + 32) as char else c
  }

  /** ASCII upper-casing of one character, str.upper() on one letter. */
  function UpperChar(c: char): (r: char)
    ensures !IsLowerLetter(r)
    ensures IsSpace(r) == IsSpace(c) && LowerChar(r) == LowerChar(c)
  {
    if IsLowerLetter(c) then (c as int - 32) as char else c
  }

  /** str.lower(), on ASCII letters. */
  function Lower(s: string): (r: string)
    ensures |r| == |s|
    ensures forall i | 0 <= i < |s| :: r[i] == LowerChar(s[i])
  {
    seq(|s|, i requires 0 <= i < |s| => LowerChar(s[i]))
  }

  /** What lower-casing does, character by character: no upper-case letter
      is left, every other character is kept, and each upper-case letter
      becomes the lower-case letter that upper-cases back to it. */
  lemma LowerFolds(s: string)
    ensures |Lower(s)| == |s|
    ensures forall i | 0 <= i < |s| :: !IsUpper(Lower(s)[i])
    ensures forall i | 0 <= i < |s| :: !IsUpper(s[i]) ==> Lower(s)[i] == s[i]
    ensures forall i | 0 <= i < |s| :: IsUpper(s[i]) ==> IsLowerLetter(Lower(s)[i]) && UpperChar(Lower(s)[i]) == s[i]
  {
  }

  lemma LowerIdempotent(s: string)
    ensures Lower(Lower(s)) == Lower(s)
  {
  }

  /** w occurs in s starting at index i. */
  predicate OccursAt(s: string, w: string, i: int)
  {
    0 <= i && i + |w| <= |s| && s[i..i + |w|] == w
  }

  /** Python's `w in s` on strings. */
  predicate Contains(s: string, w: string)
  {
    exists i | 0 <= i <= |s| - |w| :: OccursAt(s, w, i)
  }

  /** `any(w in s for w in ws)`. */
  predicate ContainsAny(s: string, ws: seq<string>)
  {
    exists w | w in ws :: Contains(s, w)
  }

  lemma {:induction false} ContainsTransitive(a: string, b: string, c: string)
    requires Contains(a, b) && Contains(b, c)
    ensures Contains(a, c)
  {
    var i :| 0 <= i <= |a| - |b| && OccursAt(a, b, i);
    var j :| 0 <= j <= |b| - |c| && OccursAt(b, c, j);
    assert forall k | 0 <= k < |c| :: c[k] == b[j + k] == a[i + j + k];
    assert OccursAt(a, c, i + j);
  }

  /** w is absent from s when no position where w would fit holds w's first character. */
  lemma AbsentByFirstChar(s: string, w: string)
    requires w != []
    requires forall i | 0 <= i <= |s| - |w| :: s[i] != w[0]
    ensures !Contains(s, w)
  {
    forall i | 0 <= i <= |s| - |w| ensures !OccursAt(s, w, i) {
      assert s[i..i + |w|][0] == s[i];
    }
  }

  /** A piece of a string is contained in it. */
  lemma SliceContained(s: string, lo: int, hi: int)
    requires 0 <= lo <= hi <= |s|
    ensures Contains(s, s[lo..hi])
  {
    assert OccursAt(s, s[lo..hi], lo);
  }

  /** Where a word occurs, each of its pieces occurs at the matching offset. */
  lemma OccursAtPiece(s: string, w: string, i: int, lo: int, hi: int)
    requires OccursAt(s, w, i) && 0 <= lo <= hi <= |w|
    ensures OccursAt(s, w[lo..hi], i + lo)
  {
    assert s[i..i + |w|] == w;
    forall k | 0 <= k < hi - lo ensures s[i + lo..i + hi][k] == w[lo..hi][k] {
      assert s[i + lo + k] == s[i..i + |w|][lo + k];
    }
  }

  /** `\b` at index i: exactly one of the characters around i is a word character. */
  predicate Boundary(s: string, i: int)
  {
    (0 < i <= |s| && IsWordChar(s[i - 1])) != (0 <= i < |s| && IsWordChar(s[i]))
  }

  /** The pattern `\bw\b` (w taken literally) matches at index i. */
  predicate WholeWordAt(s: string, w: string, i: int)
  {
    OccursAt(s, w, i) && Boundary(s, i) && Boundary(s, i + |w|)
  }

  /** re.search(r"\b" + re.escape(w) + r"\b", s) succeeds. */
  predicate ContainsWord(s: string, w: string)
  {
    exists i | 0 <= i <= |s| - |w| :: WholeWordAt(s, w, i)
  }

  /** `any(re.search(\bw\b) for w in ws)`; a regex alternation `\b(w1|w2|..)\b`
      matches exactly when one of its alternatives does. */
  predicate ContainsAnyWord(s: string, ws: seq<string>)
  {
    exists w | w in ws :: ContainsWord(s, w)
  }

  lemma WordImpliesSubstring(s: string, w: string)
    requires ContainsWord(s, w)
    ensures Contains(s, w)
  {
  }

  /** Leading-whitespace removal, str.lstrip(). */
  function StripLeft(s: string): (r: string)
    ensures |r| <= |s| && r == s[|s| - |r|..]
    ensures r == [] || !IsSpace(r[0])
    ensures forall i | 0 <= i < |s| - |r| :: IsSpace(s[i])
  {
    if s != [] && IsSpace(s[0]) then StripLeft(s[1..]) else s
  }

  /** Neither end of s is whitespace. */
  predicate IsStripped(s: string)
  {
    s == [] || (!IsSpace(s[0]) && !IsSpace(s[|s| - 1]))
  }

  /** The whitespace-only test `not s.strip()`. */
  predicate IsBlank(s: string)
  {
    forall i | 0 <= i < |s| :: IsSpace(s[i])
  }

  /** The index of the first non-whitespace character at or after i (|s|
      when there is none). */
  function SkipSpaces(s: string, i: nat): (r: nat)
    requires i <= |s|
    decreases |s| - i
    ensures i <= r <= |s| && (r == |s| || !IsSpace(s[r]))
    ensures forall k | i <= k < r :: IsSpace(s[k])
  {
    if i == |s| || !IsSpace(s[i]) then i else SkipSpaces(s, i + 1)
  }

  /** The end of s[lo..hi] once its trailing whitespace is dropped. */
  function TrimEnd(s: string, lo: nat, hi: nat): (r: nat)
    requires lo <= hi <= |s|
    decreases hi - lo
    ensures lo <= r <= hi && (r == lo || !IsSpace(s[r - 1]))
    ensures forall k | r <= k < hi :: IsSpace(s[k])
  {
    if hi == lo || !IsSpace(s[hi - 1]) then hi else TrimEnd(s, lo, hi - 1)
  }

  /** Where str.strip() starts cutting: the first non-whitespace index. */
  function StripStart(s: string): (a: nat)
    ensures a <= |s|
  {
    SkipSpaces(s, 0)
  }

  /** str.strip(): s without its leading and trailing whitespace. */
  function Strip(s: string): (r: string)
    ensures IsStripped(r)
    ensures StripStart(s) + |r| <= |s| && r == s[StripStart(s)..StripStart(s) + |r|]
  {
    var a := StripStart(s);
    s[a..TrimEnd(s, a, |s|)]
  }

  /** What str.strip() cuts off at either end is whitespace. */
  lemma StripCutsBlank(s: string)
    ensures IsBlank(s[..StripStart(s)])
    ensures IsBlank(s[StripStart(s) + |Strip(s)|..])
  {
    var a := StripStart(s);
    assert TrimEnd(s, a, |s|) == a + |Strip(s)|;
  }

  lemma StripOfStripped(s: string)
    requires IsStripped(s)
    ensures Strip(s) == s
  {
    if s != [] {
      assert StripStart(s) == 0;
      assert TrimEnd(s, 0, |s|) == |s|;
    }
  }

  lemma StripEmptyIffBlank(s: string)
    ensures Strip(s) == [] <==> IsBlank(s)
  {
    if IsBlank(s) && s != [] {
      assert TrimEnd(s, StripStart(s), |s|) == StripStart(s);
    }
  }

  lemma StripContained(s: string)
    ensures Contains(s, Strip(s))
  {
    var a := StripStart(s);
    SliceContained(s, a, a + |Strip(s)|);
  }

  /** Stripping never introduces a character. */
  lemma StripKeepsOut(s: string, c: char)
    requires c !in s
    ensures c !in Strip(s)
  {
    var a := StripStart(s);
    assert forall k | 0 <= k < |Strip(s)| :: Strip(s)[k] == s[a + k];
  }

  /** The string with its whitespace characters deleted. */
  function NonSpace(s: string): (r: string)
    ensures |r| <= |s|
  {
    if s == [] then [] else (if IsSpace(s[0]) then [] else [s[0]]) + NonSpace(s[1..])
  }

  lemma {:induction false} NonSpaceStripLeft(s: string)
    ensures NonSpace(StripLeft(s)) == NonSpace(s)
  {
    if s != [] && IsSpace(s[0]) {
      NonSpaceStripLeft(s[1..]);
    }
  }

  lemma {:induction false} NonSpaceConcat(a: string, b: string)
    ensures NonSpace(a + b) == NonSpace(a) + NonSpace(b)
  {
    if a == [] {
      assert a + b == b;
    } else {
      assert (a + b)[0] == a[0] && (a + b)[1..] == a[1..] + b;
      NonSpaceConcat(a[1..], b);
    }
  }

  lemma {:induction false} NonSpaceBlank(s: string)
    requires IsBlank(s)
    ensures NonSpace(s) == []
  {
    if s != [] {
      NonSpaceBlank(s[1..]);
    }
  }

  /** Stripping deletes whitespace only. */
  lemma NonSpaceStrip(s: string)
    ensures NonSpace(Strip(s)) == NonSpace(s)
  {
    var a := StripStart(s);
    var r := Strip(s);
    var head, tail := s[..a], s[a + |r|..];
    assert s == head + (r + tail);
    StripCutsBlank(s);
    NonSpaceConcat(head, r + tail);
    NonSpaceConcat(r, tail);
    NonSpaceBlank(head);
    NonSpaceBlank(tail);
  }

  /** Whitespace appears only as single ' ' characters: no tab, newline or other
      whitespace, and never two in a row. */
  predicate SingleSpaced(s: string)
  {
    && (forall i | 0 <= i < |s| :: IsSpace(s[i]) ==> s[i] == ' ')
    && (forall i | 0 <= i < |s| - 1 :: !(IsSpace(s[i]) && IsSpace(s[i + 1])))
  }

  /** re.sub(r"\s+", " ", s): each maximal run of whitespace becomes one space. */
  function CollapseWhitespace(s: string): (r: string)
    decreases |s|
  {
    if s == [] then []
    else if IsSpace(s[0]) then
      var t := StripLeft(s);
      assert |t| < |s|;
      " " + CollapseWhitespace(t)
    else
      [s[0]] + CollapseWhitespace(s[1..])
  }

  /** The substitution leaves single spaces only, and starts (ends) with
      whitespace exactly when its input does. */
  lemma {:induction false} CollapseShape(s: string)
    decreases |s|
    ensures var r := CollapseWhitespace(s);
      && SingleSpaced(r)
      && (r == [] <==> s == [])
      && (s != [] ==> (IsSpace(r[0]) <==> IsSpace(s[0])))
      && (s != [] ==> (IsSpace(r[|r| - 1]) <==> IsSpace(s[|s| - 1])))
  {
    if s != [] {
      var r := CollapseWhitespace(s);
      if IsSpace(s[0]) {
        var t := StripLeft(s);
        var rt := CollapseWhitespace(t);
        CollapseShape(t);
        assert r == [' '] + rt;
        SingleSpacedCons(' ', rt);
        if t != [] {
          assert t[|t| - 1] == s[|s| - 1];
        }
      } else {
        var rt := CollapseWhitespace(s[1..]);
        CollapseShape(s[1..]);
        assert r == [s[0]] + rt;
        SingleSpacedCons(s[0], rt);
      }
    }
  }

  /** Putting one character in front of single-spaced text keeps it
      single-spaced, unless it is whitespace other than ' ' or doubles a space. */
  lemma SingleSpacedCons(c: char, r: string)
    requires SingleSpaced(r)
    requires IsSpace(c) ==> c == ' ' && (r == [] || !IsSpace(r[0]))
    ensures SingleSpaced([c] + r)
    ensures ([c] + r)[0] == c
    ensures ([c] + r)[|r|] == if r == [] then c else r[|r| - 1]
  {
    var q := [c] + r;
    assert forall i | 1 <= i < |q| :: q[i] == r[i - 1];
  }

  /** The substitution keeps every non-whitespace character, in order. */
  lemma {:induction false} CollapseKeepsNonSpace(s: string)
    decreases |s|
    ensures NonSpace(CollapseWhitespace(s)) == NonSpace(s)
  {
    if s != [] {
      if IsSpace(s[0]) {
        var t := StripLeft(s);
        NonSpaceStripLeft(s);
        CollapseKeepsNonSpace(t);
        assert (" " + CollapseWhitespace(t))[1..] == CollapseWhitespace(t);
      } else {
        CollapseKeepsNonSpace(s[1..]);
        assert ([s[0]] + CollapseWhitespace(s[1..]))[1..] == CollapseWhitespace(s[1..]);
      }
    }
  }

  /** A piece of single-spaced text is single-spaced. */
  lemma SingleSpacedSlice(s: string, lo: nat, hi: nat)
    requires SingleSpaced(s) && lo <= hi <= |s|
    ensures SingleSpaced(s[lo..hi])
  {
    var p := s[lo..hi];
    assert forall i | 0 <= i < |p| :: p[i] == s[lo + i];
  }

  /** Stripping single-spaced text leaves it single-spaced. */
  lemma StripSingleSpaced(s: string)
    requires SingleSpaced(s)
    ensures SingleSpaced(Strip(s))
  {
    var a := StripStart(s);
    SingleSpacedSlice(s, a, a + |Strip(s)|);
  }

  lemma {:induction false} CollapseKeepsSingleSpaced(s: string)
    requires SingleSpaced(s)
    ensures CollapseWhitespace(s) == s
    decreases |s|
  {
    if s != [] {
      assert SingleSpaced(s[1..]);
      if IsSpace(s[0]) {
        assert s[1..] == [] || !IsSpace(s[1]);
        assert StripLeft(s[1..]) == s[1..];
        assert StripLeft(s) == s[1..];
        CollapseKeepsSingleSpaced(s[1..]);
        assert s == " " + s[1..];
      } else {
        CollapseKeepsSingleSpaced(s[1..]);
        assert s == [s[0]] + s[1..];
      }
    }
  }

  /** Leading whitespace is all StripLeft removes: after a blank prefix it
      returns what follows. */
  lemma {:induction false} StripLeftBlankPrefix(w: string, b: string)
    requires IsBlank(w)
    requires b == [] || !IsSpace(b[0])
    ensures StripLeft(w + b) == b
    decreases |w|
  {
    if w != [] {
      assert (w + b)[1..] == w[1..] + b;
      StripLeftBlankPrefix(w[1..], b);
    } else {
      assert w + b == b;
    }
  }

  /** Text that ends in a non-whitespace character strips the same way
      whatever follows it. */
  lemma {:induction false} StripLeftConcat(a: string, w: string, b: string)
    requires a != [] && !IsSpace(a[|a| - 1])
    ensures StripLeft(a + w + b) == StripLeft(a) + w + b
    decreases |a|
  {
    if IsSpace(a[0]) {
      assert (a + w + b)[1..] == a[1..] + w + b;
      StripLeftConcat(a[1..], w, b);
    }
  }

  /** A non-whitespace character is copied and the rest is substituted. */
  lemma {:induction false} CollapseCons(c: char, rest: string)
    requires !IsSpace(c)
    ensures CollapseWhitespace([c] + rest) == [c] + CollapseWhitespace(rest)
  {
    assert ([c] + rest)[1..] == rest;
  }

  /** A leading whitespace run becomes one space. */
  lemma {:induction false} CollapseSpaceRun(s: string)
    requires s != [] && IsSpace(s[0])
    ensures CollapseWhitespace(s) == " " + CollapseWhitespace(StripLeft(s))
  {
  }

  /** Between two words, a whitespace run of any length and kind becomes
      exactly one space: the substitution works on each side on its own. */
  lemma {:induction false} CollapseSeparates(a: string, w: string, b: string)
    requires a == [] || !IsSpace(a[|a| - 1])
    requires w != [] && IsBlank(w)
    requires b == [] || !IsSpace(b[0])
    ensures CollapseWhitespace(a + w + b) == CollapseWhitespace(a) + " " + CollapseWhitespace(b)
    decreases |a|, 1
  {
    if a == [] {
      SeparatesAtStart(w, b);
      assert a + w + b == w + b;
      assert CollapseWhitespace(a) + " " + CollapseWhitespace(b) == " " + CollapseWhitespace(b);
    } else if !IsSpace(a[0]) {
      SeparatesAfterWordChar(a, w, b);
    } else {
      SeparatesAfterSpaceRun(a, w, b);
    }
  }

  /** A leading whitespace run before a word becomes one space. */
  lemma {:induction false} SeparatesAtStart(w: string, b: string)
    requires w != [] && IsBlank(w)
    requires b == [] || !IsSpace(b[0])
    ensures CollapseWhitespace(w + b) == " " + CollapseWhitespace(b)
  {
    StripLeftBlankPrefix(w, b);
    CollapseSpaceRun(w + b);
  }

  lemma {:induction false} SeparatesAfterWordChar(a: string, w: string, b: string)
    requires a != [] && !IsSpace(a[0]) && !IsSpace(a[|a| - 1])
    requires w != [] && IsBlank(w)
    requires b == [] || !IsSpace(b[0])
    ensures CollapseWhitespace(a + w + b) == CollapseWhitespace(a) + " " + CollapseWhitespace(b)
    decreases |a|, 0
  {
    var a' := a[1..];
    var ca, cb := CollapseWhitespace(a'), CollapseWhitespace(b);
    calc {
      CollapseWhitespace(a + w + b);
      { assert a + w + b == [a[0]] + (a' + w + b); }
      CollapseWhitespace([a[0]] + (a' + w + b));
      { CollapseCons(a[0], a' + w + b); }
      [a[0]] + CollapseWhitespace(a' + w + b);
      { CollapseSeparates(a', w, b); }
      [a[0]] + (ca + " " + cb);
      ([a[0]] + ca) + " " + cb;
      { assert a == [a[0]] + a'; CollapseCons(a[0], a'); }
      CollapseWhitespace(a) + " " + cb;
    }
  }

  /** A leading whitespace run followed by a word becomes one space,
      whatever comes after the word. */
  lemma {:induction false} SpaceRunBeforeWord(a: string, w: string, b: string)
    requires a != [] && IsSpace(a[0]) && !IsSpace(a[|a| - 1])
    ensures CollapseWhitespace(a + w + b) == " " + CollapseWhitespace(StripLeft(a) + w + b)
  {
    StripLeftConcat(a, w, b);
    assert (a + w + b)[0] == a[0];
    CollapseSpaceRun(a + w + b);
  }

  lemma {:induction false} SeparatesAfterSpaceRun(a: string, w: string, b: string)
    requires a != [] && IsSpace(a[0]) && !IsSpace(a[|a| - 1])
    requires w != [] && IsBlank(w)
    requires b == [] || !IsSpace(b[0])
    ensures CollapseWhitespace(a + w + b) == CollapseWhitespace(a) + " " + CollapseWhitespace(b)
    decreases |a|, 0
  {
    var t := StripLeft(a);
    var ct, cb := CollapseWhitespace(t), CollapseWhitespace(b);
    calc {
      CollapseWhitespace(a + w + b);
      { SpaceRunBeforeWord(a, w, b); }
      " " + CollapseWhitespace(t + w + b);
      { assert t != [] && t[|t| - 1] == a[|a| - 1]; CollapseSeparates(t, w, b); }
      " " + (ct + " " + cb);
      (" " + ct) + " " + cb;
      { CollapseSpaceRun(a); }
      CollapseWhitespace(a) + " " + cb;
    }
  }

  /** str.split(sep) for a one-character separator: the pieces between
      consecutive separators, empty pieces included. */
  function SplitOn(s: string, sep: char): (r: seq<string>)
    ensures |r| >= 1
    ensures forall p | p in r :: sep !in p
    ensures r[0] <= s
  {
    if s == [] then [[]]
    else
      var rest := SplitOn(s[1..], sep);
      if s[0] == sep then [[]] + rest else [[s[0]] + rest[0]] + rest[1..]
  }

  /** sep.join(pieces) */
  function JoinWith(pieces: seq<string>, sep: char): string
  {
    if pieces == [] then []
    else if |pieces| == 1 then pieces[0]
    else pieces[0] + [sep] + JoinWith(pieces[1..], sep)
  }

  /** Splitting loses nothing: joining the pieces with the separator gives s back. */
  lemma {:induction false} JoinSplit(s: string, sep: char)
    ensures JoinWith(SplitOn(s, sep), sep) == s
  {
    if s != [] {
      var rest := SplitOn(s[1..], sep);
      JoinSplit(s[1..], sep);
      if s[0] == sep {
        assert ([[]] + rest)[1..] == rest;
      } else {
        var r := [[s[0]] + rest[0]] + rest[1..];
        if |rest| == 1 {
          assert r == [[s[0]] + rest[0]];
        } else {
          assert r[1..] == rest[1..];
          assert JoinWith(rest, sep) == rest[0] + [sep] + JoinWith(rest[1..], sep);
        }
      }
    }
  }

  /** Every piece of a split is a slice of the split string. */
  lemma {:induction false} SplitPieceContained(s: string, sep: char, k: nat)
    requires k < |SplitOn(s, sep)|
    ensures Contains(s, SplitOn(s, sep)[k])
  {
    if s != [] {
      var rest := SplitOn(s[1..], sep);
      var p := SplitOn(s, sep)[k];
      if s[0] == sep {
        if k == 0 {
          assert OccursAt(s, p, 0);
        } else {
          assert p == rest[k - 1];
          SplitPieceContained(s[1..], sep, k - 1);
          SliceContained(s, 1, |s|);
          assert s[1..|s|] == s[1..];
          ContainsTransitive(s, s[1..], p);
        }
      } else if k == 0 {
        assert p == [s[0]] + rest[0];
        assert p == s[..|p|];
        assert OccursAt(s, p, 0);
      } else {
        assert p == rest[k];
        SplitPieceContained(s[1..], sep, k);
        SliceContained(s, 1, |s|);
        assert s[1..|s|] == s[1..];
        ContainsTransitive(s, s[1..], p);
      }
    } else {
      assert OccursAt(s, [], 0);
    }
  }

  lemma {:induction false} SplitWithoutSeparator(s: string, sep: char)
    requires sep !in s
    ensures SplitOn(s, sep) == [s]
  {
    if s != [] {
      SplitWithoutSeparator(s[1..], sep);
      assert [s[0]] + s[1..] == s;
    }
  }

  /** The stripped, non-blank members of lines, in order. */
  function StripNonBlank(lines: seq<string>): (r: seq<string>)
    ensures |r| <= |lines|
    ensures forall l | l in r :: l != [] && IsStripped(l)
  {
    if lines == [] then []
    else
      var l := Strip(lines[0]);
      (if l != [] then [l] else []) + StripNonBlank(lines[1..])
  }

  lemma {:induction false} StripNonBlankKeepsOut(lines: seq<string>, c: char)
    requires forall m | m in lines :: c !in m
    ensures forall l | l in StripNonBlank(lines) :: c !in l
  {
    if lines != [] {
      StripKeepsOut(lines[0], c);
      StripNonBlankKeepsOut(lines[1..], c);
    }
  }

  /** [ln.strip() for ln in text.split("\n") if ln.strip()] */
  function SplitLines(text: string): (r: seq<string>)
    ensures forall l | l in r :: l != [] && IsStripped(l) && '\n' !in l
  {
    var pieces := SplitOn(text, '\n');
    StripNonBlankKeepsOut(pieces, '\n');
    StripNonBlank(pieces)
  }

  /** Text without a newline is at most one line: its stripped self, unless
      it is blank. */
  lemma SplitLinesOfOneLine(text: string)
    requires '\n' !in text
    ensures |SplitLines(text)| <= 1
    ensures SplitLines(text) == if Strip(text) == [] then [] else [Strip(text)]
  {
    SplitWithoutSeparator(text, '\n');
    assert StripNonBlank([text]) == (if Strip(text) != [] then [Strip(text)] else []) + StripNonBlank([]);
  }

  /** The first separator ends the first piece; the rest is split on its own. */
  lemma {:induction false} SplitOnFirst(a: string, sep: char, b: string)
    requires sep !in a
    ensures SplitOn(a + [sep] + b, sep) == [a] + SplitOn(b, sep)
  {
    var s := a + [sep] + b;
    if a == [] {
      assert s[1..] == b;
    } else {
      assert s[1..] == a[1..] + [sep] + b;
      SplitOnFirst(a[1..], sep, b);
      assert [a[0]] + a[1..] == a;
    }
  }

  /** The first line of a + "\n" + b is a stripped, unless it is blank, and
      the lines of b follow in order. With SplitLinesOfOneLine this fixes the
      lines of every text. */
  lemma SplitLinesFirst(a: string, b: string)
    requires '\n' !in a
    ensures SplitLines(a + "\n" + b) == (if Strip(a) == [] then [] else [Strip(a)]) + SplitLines(b)
  {
    var ps := SplitOn(b, '\n');
    SplitOnFirst(a, '\n', b);
    assert ([a] + ps)[1..] == ps;
  }

  /** s.find(w, k): the first index at or after k where w occurs, or -1. */
  function IndexOfFrom(s: string, w: string, k: nat): (r: int)
    decreases |s| - k
    ensures r == -1 || (k <= r <= |s| - |w| && OccursAt(s, w, r))
    ensures r == -1 ==> forall i | k <= i :: !OccursAt(s, w, i)
    ensures r != -1 ==> forall i | k <= i < r :: !OccursAt(s, w, i)
  {
    if k + |w| > |s| then -1
    else if OccursAt(s, w, k) then k
    else IndexOfFrom(s, w, k + 1)
  }

  /** s.find(w): the first index where w occurs, or -1 when it does not. */
  function IndexOf(s: string, w: string): (r: int)
    ensures r == -1 <==> !Contains(s, w)
    ensures r != -1 ==> 0 <= r <= |s| - |w| && OccursAt(s, w, r)
    ensures r != -1 ==> forall i | 0 <= i < r :: !OccursAt(s, w, i)
  {
    IndexOfFrom(s, w, 0)
  }
}
