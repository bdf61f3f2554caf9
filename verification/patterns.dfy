/** The unanchored regular expressions the core scans text with, written as
    hand-made matchers, plus the three ways the source applies them:
    `re.search` (leftmost match), `re.finditer` (all non-overlapping matches,
    left to right) and `re.sub` (splice a replacement over every match). */
module Patterns {
  import opened Wrappers
  import opened Text

  /** One match: its span `[start, end)` and up to two capture groups. */
  datatype Match = Match(start: nat, end: nat, g1: string, g2: string)

  datatype Pat =
    /** `` `([^`\n]+)`\[([^\]]*)\] `` -- the tokenizer's annotation span. */
    | LexVibe
    /** `` `([^`]+)`\[([^\]]+)\] `` -- the annotation span everywhere else. */
    | Vibe
    /** `>>\s*([^\n<]+)` -- an inline aside as the parser and renderer see it. */
    | Aside
    /** `\b` + re.escape(theme) + `\b` under re.IGNORECASE. */
    | Word(theme: string)
  {
    /** Every match of the pattern consumes at least one character. */
    predicate Consuming() { !Word? }
  }

  /** The characters the content of an annotation span cannot contain. */
  function ContentStops(strict: bool): set<char> {
    if strict then {'`'} else {'`', '\n'}
  }

  /** An annotation span starting at `i`. The content runs to the next
      backtick (it cannot contain one, nor a newline when `strict` is false);
      the note runs to the first ']' after the '[' and must be non-empty
      when `strict` holds. */
  function VibeAt(s: string, i: nat, strict: bool): (r: Option<Match>)
    requires i <= |s|
    ensures r.Some? ==> r.value.start == i && i + 5 - (if strict then 0 else 1) <= r.value.end <= |s|
    ensures r.Some? ==> s[i] == '`' && s[r.value.end - 1] == ']'
    ensures r.Some? ==> |r.value.g1| > 0 && '`' !in r.value.g1 && ']' !in r.value.g2
    ensures r.Some? && !strict ==> '\n' !in r.value.g1
    ensures r.Some? && strict ==> |r.value.g2| > 0
  {
    if i == |s| || s[i] != '`' then None
    else
      match FirstFrom(s, i + 1, ContentStops(strict))
      case None => None
      case Some(k) => VibeNote(s, i, k, strict)
  }

  /** The rest of an annotation span whose content ends before index `k`. */
  function VibeNote(s: string, i: nat, k: nat, strict: bool): (r: Option<Match>)
    requires i < k < |s| && s[i] == '`'
    requires forall j :: i < j < k ==> s[j] !in ContentStops(strict)
    ensures r.Some? ==> r.value.start == i && i + 5 - (if strict then 0 else 1) <= r.value.end <= |s|
    ensures r.Some? ==> s[r.value.end - 1] == ']'
    ensures r.Some? ==> |r.value.g1| > 0 && '`' !in r.value.g1 && ']' !in r.value.g2
    ensures r.Some? && !strict ==> '\n' !in r.value.g1
    ensures r.Some? && strict ==> |r.value.g2| > 0
  {
    if k == i + 1 || s[k] != '`' || k + 1 >= |s| || s[k + 1] != '[' then None
    else
      match FirstFrom(s, k + 2, {']'})
      case None => None
      case Some(m) =>
        if strict && m == k + 2 then None
        else
          assert '`' in ContentStops(strict) && (!strict ==> '\n' in ContentStops(strict));
          Some(Match(i, m + 1, s[i + 1..k], s[k + 2..m]))
  }

  /** The largest index in `[lo, hi)` not holding a newline. */
  function LastNonNewline(s: string, lo: nat, hi: nat): (r: Option<nat>)
    requires lo <= hi <= |s|
    ensures r.Some? ==> lo <= r.value < hi && s[r.value] != '\n'
    ensures r.Some? ==> forall j :: r.value < j < hi ==> s[j] == '\n'
    ensures r.None? ==> forall j :: lo <= j < hi ==> s[j] == '\n'
    decreases hi
  {
    if hi == lo then None
    else if s[hi - 1] != '\n' then Some(hi - 1)
    else LastNonNewline(s, lo, hi - 1)
  }

  /** `>>\s*([^\n<]+)` at `i`. The greedy `\s*` first takes the whole run of
      whitespace; when nothing but a newline, '<' or the end follows, the
      engine gives back whitespace until the group can take one character. */
  function AsideAt(s: string, i: nat): (r: Option<Match>)
    requires i <= |s|
    ensures r.Some? ==> r.value.start == i && i + 3 <= r.value.end <= |s|
    ensures r.Some? ==> s[i] == '>' && s[i + 1] == '>'
    ensures r.Some? ==> |r.value.g1| > 0 && '\n' !in r.value.g1 && '<' !in r.value.g1
  {
    if i + 2 > |s| || s[i] != '>' || s[i + 1] != '>' then None
    else AsideGroup(s, i, SkipSpaces(s, i + 2))
  }

  /** The group of an aside whose `>>` at `i` is followed by whitespace up to `e`. */
  function AsideGroup(s: string, i: nat, e: nat): (r: Option<Match>)
    requires i + 2 <= e <= |s|
    requires forall j :: i + 2 <= j < e ==> IsSpace(s[j])
    ensures r.Some? ==> r.value.start == i && i + 3 <= r.value.end <= |s|
    ensures r.Some? ==> |r.value.g1| > 0 && '\n' !in r.value.g1 && '<' !in r.value.g1
  {
    if e < |s| && s[e] != '\n' && s[e] != '<' then
      var t := GroupEnd(s, e);
      Some(Match(i, t, s[e..t], ""))
    else
      match LastNonNewline(s, i + 2, e)
      case None => None
      case Some(j) =>
        assert IsSpace(s[j]);
        Some(Match(i, j + 1, [s[j]], ""))
  }

  /** Where a run of `[^\n<]` starting at `e` ends. */
  function GroupEnd(s: string, e: nat): (t: nat)
    requires e <= |s|
    ensures e <= t <= |s| && (t < |s| ==> s[t] == '\n' || s[t] == '<')
    ensures forall j :: e <= j < t ==> s[j] != '\n' && s[j] != '<'
  {
    match FirstFrom(s, e, {'\n', '<'}) case Some(t) => t case None => |s|
  }

  /** `\b` at position `i`: a word character on exactly one side. */
  predicate Boundary(s: string, i: nat)
    requires i <= |s|
  {
    (i > 0 && IsWordChar(s[i - 1])) != (i < |s| && IsWordChar(s[i]))
  }

  /** Equality under re.IGNORECASE. */
  predicate EqualIgnoringCase(a: string, b: string) {
    |a| == |b| && forall j :: 0 <= j < |a| ==> Lower(a[j]) == Lower(b[j])
  }

  /** `\b<theme>\b` at `i`, case-insensitively. */
  function WordAt(s: string, i: nat, theme: string): (r: Option<Match>)
    requires i <= |s|
    ensures r.Some? <==> (i + |theme| <= |s| && Boundary(s, i) && Boundary(s, i + |theme|)
                          && EqualIgnoringCase(s[i..i + |theme|], theme))
    ensures r.Some? ==> r.value.start == i && r.value.end == i + |theme|
  {
    if i + |theme| <= |s| && Boundary(s, i) && EqualIgnoringCase(s[i..i + |theme|], theme)
       && Boundary(s, i + |theme|)
    then Some(Match(i, i + |theme|, s[i..i + |theme|], ""))
    else None
  }

  /** The pattern matched at exactly position `i` (Python's `pattern.match`
      when `i` is 0). */
  function MatchAt(p: Pat, s: string, i: nat): (r: Option<Match>)
    requires i <= |s|
    ensures r.Some? ==> r.value.start == i && i <= r.value.end <= |s|
    ensures r.Some? && p.Consuming() ==> i < r.value.end
  {
    match p
    case LexVibe => VibeAt(s, i, false)
    case Vibe => VibeAt(s, i, true)
    case Aside => AsideAt(s, i)
    case Word(theme) => WordAt(s, i, theme)
  }

  /** The pattern as a matcher: its match at exactly position `i`, if any. */
  function Of(p: Pat): (f: Matcher)
    ensures Anchored(f)
    ensures p.Consuming() ==> Consuming(f)
  {
    (s: string, i: nat) => if i <= |s| then MatchAt(p, s, i) else None
  }

  /** A matcher: the match of some pattern that starts at exactly position `i`. */
  type Matcher = (string, nat) -> Option<Match>

  /** Every match reported at `i` starts at `i` and ends inside the text. */
  ghost predicate Anchored(f: Matcher) {
    forall s: string, i: nat :: i <= |s| && f(s, i).Some? ==>
      f(s, i).value.start == i && i <= f(s, i).value.end <= |s|
  }

  /** An anchored matcher whose matches are never empty. */
  ghost predicate Consuming(f: Matcher) {
    Anchored(f) && forall s: string, i: nat :: i <= |s| && f(s, i).Some? ==> i < f(s, i).value.end
  }

  /** `re.search` from position `k`: the leftmost match starting at or after `k`. */
  function SearchFrom(f: Matcher, s: string, k: nat): (r: Option<Match>)
    requires Anchored(f) && k <= |s|
    ensures r.Some? ==> k <= r.value.start <= |s| && f(s, r.value.start) == r
    ensures r.Some? ==> forall j :: k <= j < r.value.start ==> f(s, j).None?
    ensures r.None? ==> forall j :: k <= j <= |s| ==> f(s, j).None?
    decreases |s| - k
  {
    if f(s, k).Some? then f(s, k)
    else if k == |s| then None
    else SearchFrom(f, s, k + 1)
  }

  function Search(f: Matcher, s: string): (r: Option<Match>)
    requires Anchored(f)
  {
    SearchFrom(f, s, 0)
  }

  /** The matches lie in order, do not overlap, start at or after `pos` and end
      within `n`. */
  predicate Chained(ms: seq<Match>, pos: nat, n: nat) {
    |ms| == 0 || (pos <= ms[0].start <= ms[0].end <= n && Chained(ms[1..], ms[0].end, n))
  }

  /** `re.finditer` from position `k`, for a matcher whose matches are never empty. */
  function FindAllFrom(f: Matcher, s: string, k: nat): (r: seq<Match>)
    requires Consuming(f) && k <= |s|
    ensures Chained(r, k, |s|)
    ensures forall i :: 0 <= i < |r| ==> k <= r[i].start < r[i].end <= |s|
    ensures |r| > 0 <==> SearchFrom(f, s, k).Some?
    ensures |r| > 0 ==> SearchFrom(f, s, k) == Some(r[0])
    decreases |s| - k
  {
    match SearchFrom(f, s, k)
    case None => []
    case Some(m) =>
      var rest := FindAllFrom(f, s, m.end);
      var r := [m] + rest;
      assert r[1..] == rest;
      assert forall i :: 0 < i < |r| ==> r[i] == rest[i - 1];
      r
  }

  function FindAll(f: Matcher, s: string): seq<Match>
    requires Consuming(f)
  {
    FindAllFrom(f, s, 0)
  }

  /** Every match `finditer` reports is a match at its start, inside the
      searched range. */
  lemma {:induction false} FindAllMatches(f: Matcher, s: string, k: nat)
    requires Consuming(f) && k <= |s|
    ensures forall i :: 0 <= i < |FindAllFrom(f, s, k)| ==>
      f(s, FindAllFrom(f, s, k)[i].start) == Some(FindAllFrom(f, s, k)[i])
    decreases |s| - k
  {
    var ms := FindAllFrom(f, s, k);
    if |ms| > 0 {
      var m := ms[0];
      FindAllMatches(f, s, m.end);
      var rest := FindAllFrom(f, s, m.end);
      assert ms == [m] + rest;
      forall i | 0 < i < |ms|
        ensures f(s, ms[i].start) == Some(ms[i])
      {
        assert ms[i] == rest[i - 1];
      }
    }
  }

  /** Between two consecutive matches no other match starts: `finditer`
      resumes the leftmost search where the previous match ended. */
  lemma {:induction false} FindAllLeftmost(f: Matcher, s: string, k: nat, i: nat, j: nat)
    requires Consuming(f) && k <= |s|
    requires var ms := FindAllFrom(f, s, k);
      i < |ms| && (if i == 0 then k else ms[i - 1].end) <= j < ms[i].start
    ensures f(s, j).None?
    decreases i
  {
    var m := SearchFrom(f, s, k).value;
    if i > 0 {
      assert FindAllFrom(f, s, k)[i] == FindAllFrom(f, s, m.end)[i - 1];
      if i > 1 {
        assert FindAllFrom(f, s, k)[i - 1] == FindAllFrom(f, s, m.end)[i - 2];
      }
      FindAllLeftmost(f, s, m.end, i - 1, j);
    }
  }

  /** `re.sub`: the text with each match replaced by the string at the same
      position of `reps`; text outside the matches is copied. */
  function Splice(s: string, ms: seq<Match>, reps: seq<string>, pos: nat): string
    requires pos <= |s| && |ms| == |reps| && Chained(ms, pos, |s|)
    decreases |ms|
  {
    if |ms| == 0 then s[pos..]
    else s[pos..ms[0].start] + reps[0] + Splice(s, ms[1..], reps[1..], ms[0].end)
  }

  /** The text each match covers. */
  function Covered(s: string, ms: seq<Match>, pos: nat): (r: seq<string>)
    requires pos <= |s| && Chained(ms, pos, |s|)
    ensures |r| == |ms|
    decreases |ms|
  {
    if |ms| == 0 then [] else [s[ms[0].start..ms[0].end]] + Covered(s, ms[1..], ms[0].end)
  }

  /** Replacing every match by the text it covers gives the text back, so a
      substitution changes nothing outside the matches. */
  lemma {:induction false} SpliceCoveredIsIdentity(s: string, ms: seq<Match>, pos: nat)
    requires pos <= |s| && Chained(ms, pos, |s|)
    ensures Splice(s, ms, Covered(s, ms, pos), pos) == s[pos..]
    decreases |ms|
  {
    if |ms| > 0 {
      var reps := Covered(s, ms, pos);
      assert reps[1..] == Covered(s, ms[1..], ms[0].end);
      SpliceCoveredIsIdentity(s, ms[1..], ms[0].end);
      assert s[pos..] == s[pos..ms[0].start] + s[ms[0].start..ms[0].end] + s[ms[0].end..];
    }
  }

  // ---------------------------------------------------------------------
  // Locality: a consuming match only looks at the text from its start on.
  // ---------------------------------------------------------------------

  function ShiftMatch(m: Match, a: nat): Match
    requires a <= m.start && a <= m.end
  {
    Match(m.start - a, m.end - a, m.g1, m.g2)
  }

  function ShiftOpt(r: Option<Match>, a: nat): Option<Match>
    requires r.Some? ==> a <= r.value.start && a <= r.value.end
  {
    match r
    case None => None
    case Some(m) => Some(ShiftMatch(m, a))
  }

  lemma {:induction false} FirstFromSuffix(s: string, a: nat, k: nat, stops: set<char>)
    requires a + k <= |s|
    ensures FirstFrom(s[a..], k, stops) ==
      (match FirstFrom(s, a + k, stops) case None => None case Some(j) => Some(j - a))
    decreases |s| - a - k
  {
    if a + k < |s| {
      assert s[a..][k] == s[a + k];
      if s[a + k] !in stops {
        FirstFromSuffix(s, a, k + 1, stops);
      }
    }
  }

  lemma {:induction false} SkipSpacesSuffix(s: string, a: nat, k: nat)
    requires a + k <= |s|
    ensures SkipSpaces(s[a..], k) == SkipSpaces(s, a + k) - a
    decreases |s| - a - k
  {
    if a + k < |s| {
      assert s[a..][k] == s[a + k];
      if IsSpace(s[a + k]) {
        SkipSpacesSuffix(s, a, k + 1);
      }
    }
  }

  lemma {:induction false} LastNonNewlineSuffix(s: string, a: nat, lo: nat, hi: nat)
    requires lo <= hi && a + hi <= |s|
    ensures LastNonNewline(s[a..], lo, hi) ==
      (match LastNonNewline(s, a + lo, a + hi) case None => None case Some(j) => Some(j - a))
    decreases hi
  {
    if hi > lo {
      assert s[a..][hi - 1] == s[a + hi - 1];
      if s[a + hi - 1] == '\n' {
        LastNonNewlineSuffix(s, a, lo, hi - 1);
      }
    }
  }

  lemma VibeNoteSuffix(s: string, a: nat, i: nat, k: nat, strict: bool)
    requires a + i < k < |s| && s[a + i] == '`'
    requires forall j :: a + i < j < k ==> s[j] !in ContentStops(strict)
    ensures VibeNote(s[a..], i, k - a, strict) == ShiftOpt(VibeNote(s, a + i, k, strict), a)
  {
    var t := s[a..];
    assert t[i] == s[a + i];
    assert t[k - a] == s[k];
    if k + 1 < |s| {
      assert t[k - a + 1] == s[k + 1];
    }
    if k != a + i + 1 && s[k] == '`' && k + 1 < |s| && s[k + 1] == '[' {
      FirstFromSuffix(s, a, k - a + 2, {']'});
      match FirstFrom(s, k + 2, {']'})
      case None =>
      case Some(m) =>
        SliceOfDrop(s, a, i + 1, k - a, a + i + 1, k);
        SliceOfDrop(s, a, k - a + 2, m - a, k + 2, m);
    }
  }

  lemma VibeAtSuffix(s: string, a: nat, i: nat, strict: bool)
    requires a + i <= |s|
    ensures VibeAt(s[a..], i, strict) == ShiftOpt(VibeAt(s, a + i, strict), a)
  {
    if a + i < |s| && s[a + i] == '`' {
      FirstFromSuffix(s, a, i + 1, ContentStops(strict));
      match FirstFrom(s, a + i + 1, ContentStops(strict))
      case None =>
        VibeAtSuffixOpen(s, a, i, strict);
      case Some(k) =>
        VibeAtSuffixClosed(s, a, i, k, strict);
    } else {
      VibeAtSuffixMiss(s, a, i, strict);
    }
  }

  /** No backtick at the position: no span on either side. */
  lemma VibeAtSuffixMiss(s: string, a: nat, i: nat, strict: bool)
    requires a + i <= |s| && (a + i < |s| ==> s[a + i] != '`')
    ensures VibeAt(s[a..], i, strict) == None && VibeAt(s, a + i, strict) == None
  {
    if a + i < |s| {
      assert s[a..][i] == s[a + i];
    }
  }

  /** A backtick whose content never ends: no span on either side. */
  lemma VibeAtSuffixOpen(s: string, a: nat, i: nat, strict: bool)
    requires a + i < |s| && s[a + i] == '`'
    requires FirstFrom(s, a + i + 1, ContentStops(strict)) == None
    requires FirstFrom(s[a..], i + 1, ContentStops(strict)) == None
    ensures VibeAt(s[a..], i, strict) == None && VibeAt(s, a + i, strict) == None
  {
    assert s[a..][i] == s[a + i];
  }

  /** A backtick whose content ends before `k`: the rest of the span decides. */
  lemma VibeAtSuffixClosed(s: string, a: nat, i: nat, k: nat, strict: bool)
    requires a + i < |s| && s[a + i] == '`' && a <= k
    requires FirstFrom(s, a + i + 1, ContentStops(strict)) == Some(k)
    requires FirstFrom(s[a..], i + 1, ContentStops(strict)) == Some(k - a)
    ensures VibeAt(s[a..], i, strict) == ShiftOpt(VibeAt(s, a + i, strict), a)
  {
    assert s[a..][i] == s[a + i];
    VibeNoteSuffix(s, a, i, k, strict);
  }

  lemma GroupEndSuffix(s: string, a: nat, e: nat)
    requires a <= e <= |s|
    ensures GroupEnd(s[a..], e - a) == GroupEnd(s, e) - a
  {
    FirstFromSuffix(s, a, e - a, {'\n', '<'});
  }

  lemma AsideGroupSuffix(s: string, a: nat, i: nat, e: nat)
    requires a + i + 2 <= e <= |s|
    requires forall j :: a + i + 2 <= j < e ==> IsSpace(s[j])
    ensures AsideGroup(s[a..], i, e - a) == ShiftOpt(AsideGroup(s, a + i, e), a)
  {
    if e < |s| && s[e] != '\n' && s[e] != '<' {
      AsideRunSuffix(s, a, i, e);
    } else {
      AsideBackSuffix(s, a, i, e);
    }
  }

  /** The group takes the run of `[^\n<]` that starts after the whitespace. */
  lemma AsideRunSuffix(s: string, a: nat, i: nat, e: nat)
    requires a + i + 2 <= e < |s| && s[e] != '\n' && s[e] != '<'
    requires forall j :: a + i + 2 <= j < e ==> IsSpace(s[j])
    ensures AsideGroup(s[a..], i, e - a) == ShiftOpt(AsideGroup(s, a + i, e), a)
  {
    var t := s[a..];
    assert t[e - a] == s[e];
    GroupEndSuffix(s, a, e);
    var g := GroupEnd(s, e);
    SliceOfDrop(s, a, e - a, g - a, e, g);
    assert AsideGroup(s, a + i, e) == Some(Match(a + i, g, s[e..g], ""));
    assert AsideGroup(t, i, e - a) == Some(Match(i, g - a, s[e..g], ""));
  }

  /** The group gives back whitespace: its one character is the last one
      before `e` that is not a newline. */
  lemma AsideBackSuffix(s: string, a: nat, i: nat, e: nat)
    requires a + i + 2 <= e <= |s| && (e < |s| ==> s[e] == '\n' || s[e] == '<')
    requires forall j :: a + i + 2 <= j < e ==> IsSpace(s[j])
    ensures AsideGroup(s[a..], i, e - a) == ShiftOpt(AsideGroup(s, a + i, e), a)
  {
    var t := s[a..];
    if e < |s| {
      assert t[e - a] == s[e];
    }
    LastNonNewlineSuffix(s, a, i + 2, e - a);
    match LastNonNewline(s, a + i + 2, e)
    case None =>
    case Some(j) =>
      assert t[j - a] == s[j];
  }

  lemma AsideAtSuffix(s: string, a: nat, i: nat)
    requires a + i <= |s|
    ensures AsideAt(s[a..], i) == ShiftOpt(AsideAt(s, a + i), a)
  {
    if a + i + 2 <= |s| && s[a + i] == '>' && s[a + i + 1] == '>' {
      var e := SkipSpaces(s, a + i + 2);
      AsideAtSuffixHit(s, a, i, e);
      AsideAtGroup(s, a + i, e);
    } else {
      AsideAtSuffixMiss(s, a, i);
    }
  }

  /** No `>>` at the position: no aside on either side. */
  lemma AsideAtSuffixMiss(s: string, a: nat, i: nat)
    requires a + i <= |s| && (a + i + 2 <= |s| ==> s[a + i] != '>' || s[a + i + 1] != '>')
    ensures AsideAt(s[a..], i) == None && AsideAt(s, a + i) == None
  {
    if a + i + 2 <= |s| {
      assert s[a..][i] == s[a + i] && s[a..][i + 1] == s[a + i + 1];
    }
  }

  /** A `>>` at the position: the group after the whitespace decides. */
  lemma AsideAtSuffixHit(s: string, a: nat, i: nat, e: nat)
    requires a + i + 2 <= |s| && s[a + i] == '>' && s[a + i + 1] == '>' && e == SkipSpaces(s, a + i + 2)
    ensures AsideAt(s[a..], i) == ShiftOpt(AsideGroup(s, a + i, e), a)
  {
    var t := s[a..];
    assert t[i] == s[a + i] && t[i + 1] == s[a + i + 1];
    SkipSpacesSuffix(s, a, i + 2);
    AsideGroupSuffix(s, a, i, e);
    AsideAtGroup(t, i, e - a);
  }

  /** After `>>`, an aside is the group that follows the whitespace. */
  lemma AsideAtGroup(s: string, i: nat, e: nat)
    requires i + 2 <= |s| && s[i] == '>' && s[i + 1] == '>' && e == SkipSpaces(s, i + 2)
    ensures AsideAt(s, i) == AsideGroup(s, i, e)
  {
  }

  /** A consuming pattern matches a suffix exactly where it matches the whole
      text, shifted. */
  lemma MatchAtSuffix(p: Pat, s: string, a: nat, i: nat)
    requires p.Consuming() && a + i <= |s|
    ensures MatchAt(p, s[a..], i) == ShiftOpt(MatchAt(p, s, a + i), a)
  {
    match p
    case LexVibe => VibeAtSuffix(s, a, i, false);
    case Vibe => VibeAtSuffix(s, a, i, true);
    case Aside => AsideAtSuffix(s, a, i);
  }

  /** The match moved `a` positions to the right. */
  function Unshift(r: Option<Match>, a: nat): Option<Match> {
    match r
    case None => None
    case Some(m) => Some(Match(m.start + a, m.end + a, m.g1, m.g2))
  }

  /** A matcher is local when its match at `i` is its match at the start of
      the suffix from `i`, moved back into place: a match looks only at the
      text from its start on. */
  ghost predicate Local(f: Matcher) {
    forall s: string, i: nat {:trigger f(s[i..], 0)} :: i <= |s| ==> f(s, i) == Unshift(f(s[i..], 0), i)
  }

  lemma LocalOf(p: Pat)
    requires p.Consuming()
    ensures Local(Of(p))
  {
    forall s: string, i: nat | i <= |s|
      ensures Of(p)(s, i) == Unshift(Of(p)(s[i..], 0), i)
    {
      LocalAt(p, s, i);
    }
  }

  lemma LocalAt(p: Pat, s: string, i: nat)
    requires p.Consuming() && i <= |s|
    ensures MatchAt(p, s, i) == Unshift(MatchAt(p, s[i..], 0), i)
  {
    MatchAtSuffix(p, s, i, 0);
    ShiftBack(MatchAt(p, s, i), MatchAt(p, s[i..], 0), i);
  }

  /** Moving a match left and back right gives it back. */
  lemma ShiftBack(r: Option<Match>, q: Option<Match>, a: nat)
    requires r.Some? ==> a <= r.value.start && a <= r.value.end
    requires q == ShiftOpt(r, a)
    ensures r == Unshift(q, a)
  {
  }

  /** A local matcher matches a suffix exactly where it matches the whole
      text, shifted. */
  lemma LocalShift(f: Matcher, s: string, a: nat, i: nat)
    requires Consuming(f) && Local(f) && a + i <= |s|
    ensures f(s[a..], i) == ShiftOpt(f(s, a + i), a)
  {
    var t := s[a..];
    assert t[i..] == s[a + i..];
    assert f(t, i) == Unshift(f(t[i..], 0), i);
    assert f(s, a + i) == Unshift(f(s[a + i..], 0), a + i);
  }

  lemma {:induction false} SearchFromSuffix(f: Matcher, s: string, a: nat, k: nat)
    requires Consuming(f) && Local(f) && a + k <= |s|
    ensures SearchFrom(f, s[a..], k) == ShiftOpt(SearchFrom(f, s, a + k), a)
    decreases |s| - a - k
  {
    LocalShift(f, s, a, k);
    if f(s, a + k).None? && a + k < |s| {
      SearchFromSuffix(f, s, a, k + 1);
    }
  }

  /** Positions where no match can start do not change the leftmost match. */
  lemma {:induction false} SearchSkip(f: Matcher, s: string, k: nat, j: nat)
    requires Anchored(f) && k <= j <= |s|
    requires forall i :: k <= i < j ==> f(s, i).None?
    ensures SearchFrom(f, s, k) == SearchFrom(f, s, j)
    decreases j - k
  {
    if k < j {
      SearchSkip(f, s, k + 1, j);
    }
  }

  /** `finditer` is determined by where its first search lands. */
  lemma FindAllBySearch(f: Matcher, s: string, k: nat, j: nat)
    requires Consuming(f) && k <= |s| && j <= |s|
    requires SearchFrom(f, s, k) == SearchFrom(f, s, j)
    ensures FindAllFrom(f, s, k) == FindAllFrom(f, s, j)
  {
  }

  /** Positions where no match can start do not change what `finditer` finds. */
  lemma FindAllSkip(f: Matcher, s: string, k: nat, j: nat)
    requires Consuming(f) && k <= j <= |s|
    requires forall i :: k <= i < j ==> f(s, i).None?
    ensures FindAllFrom(f, s, k) == FindAllFrom(f, s, j)
  {
    SearchSkip(f, s, k, j);
    FindAllBySearch(f, s, k, j);
  }
}
