/** The text rewriting of the HTML generator: annotation spans become popup
    markup with a generated id, inline asides become explanation spans, and
    the page counters of the template context. Template rendering itself is
    outside the model. */
module HtmlGen {
  import opened Wrappers
  import opened Text
  import opened Patterns
  import opened Ast
  import TextUtils
  import Compiler

  // ---------------------------------------------------------------------
  // _process_vibe_cards_in_text
  // ---------------------------------------------------------------------

  /** One annotation dict of the page: content, annotation, source card, id. */
  datatype PageVibe = PageVibe(content: string, annotation: string, sourceCard: string, id: string)

  /** `f"vibe-{slug}-{i}"`. */
  function IdOf(slug: string, i: nat): string {
    "vibe-" + slug + "-" + NatToString(i)
  }

  /** The id of the `i`-th annotation of a call, built from its content. */
  function VibeId(content: string, i: nat): string {
    IdOf(TextUtils.Slugify(content), i)
  }

  /** The markup one annotation span is replaced by. */
  function AnnotationSpan(content: string, annotation: string): string {
    "<span class=\"annotation-container\"><span class=\"annotation\">" + content
      + "</span><div class=\"annotation-popup\">" + annotation + "</div></span>"
  }

  /** The dicts for the trimmed groups `es`, the first one numbered `n`, each
      id built from the slug of its content. */
  function PageVibes(es: seq<TextUtils.VibeEntry>, sourceCard: string, n: nat, slug: string -> string): (r: seq<PageVibe>)
    ensures |r| == |es|
  {
    if |es| == 0 then []
    else [PageVibe(es[0].content, es[0].annotation, sourceCard, IdOf(slug(es[0].content), n))] + PageVibes(es[1..], sourceCard, n + 1, slug)
  }

  /** The `i`-th dict holds the `i`-th groups and is numbered `n + i`. */
  lemma {:induction false} PageVibesAt(es: seq<TextUtils.VibeEntry>, sourceCard: string, n: nat, slug: string -> string, i: nat)
    requires i < |es|
    ensures PageVibes(es, sourceCard, n, slug)[i] == PageVibe(es[i].content, es[i].annotation, sourceCard, IdOf(slug(es[i].content), n + i))
  {
    if i > 0 {
      PageVibesAt(es[1..], sourceCard, n + 1, slug, i - 1);
    }
  }

  function Spans(vs: seq<PageVibe>): (r: seq<string>)
    ensures |r| == |vs|
  {
    if |vs| == 0 then [] else [AnnotationSpan(vs[0].content, vs[0].annotation)] + Spans(vs[1..])
  }

  /** `_process_vibe_cards_in_text(text, source_card)`: `re.sub` with a
      callback that records one dict per match, numbering them from 0, and
      returns the markup that replaces the match. */
  function ProcessVibeCardsInText(text: string, sourceCard: string): (r: (string, seq<PageVibe>))
    ensures |r.1| == |FindAll(Of(Vibe), text)|
    ensures FindAll(Of(Vibe), text) == [] ==> r.0 == text
  {
    var vs := PageDicts(text, sourceCard);
    (Splice(text, FindAll(Of(Vibe), text), Spans(vs), 0), vs)
  }

  /** The dicts the callback records, in call order. */
  function PageDicts(text: string, sourceCard: string): (r: seq<PageVibe>)
    ensures |r| == |FindAll(Of(Vibe), text)|
  {
    PageVibes(TextUtils.ExtractVibeCards(text), sourceCard, 0, TextUtils.Slugify)
  }

  /** The dicts carry, in order, the content and annotation
      `extract_vibe_cards` reports for the same text, the source card as
      passed, and the id built from the content's slug and the index. */
  lemma ProcessVibesAgreesWithExtract(text: string, sourceCard: string, i: nat)
    requires i < |PageDicts(text, sourceCard)|
    ensures var v, e := PageDicts(text, sourceCard)[i], TextUtils.ExtractVibeCards(text)[i];
      && v.content == e.content && v.annotation == e.annotation
      && v.sourceCard == sourceCard
  {
    PageVibesAt(TextUtils.ExtractVibeCards(text), sourceCard, 0, TextUtils.Slugify, i);
  }

  lemma SluggedIdAt(es: seq<TextUtils.VibeEntry>, sourceCard: string, i: nat)
    requires i < |es|
    ensures var v := PageVibes(es, sourceCard, 0, TextUtils.Slugify)[i];
      v.id == VibeId(v.content, i)
  {
    PageVibesAt(es, sourceCard, 0, TextUtils.Slugify, i);
  }

  /** The `i`-th dict's id is "vibe-", the slug of its content, "-" and `i`. */
  lemma ProcessVibesIds(text: string, sourceCard: string, i: nat)
    requires i < |PageDicts(text, sourceCard)|
    ensures var v := PageDicts(text, sourceCard)[i];
      v.id == VibeId(v.content, i)
  {
    SluggedIdAt(TextUtils.ExtractVibeCards(text), sourceCard, i);
  }

  /** The text between the matches is copied: substituting each match's
      own text instead of its markup gives the input back. */
  lemma ProcessVibesKeepsOutside(text: string, sourceCard: string)
    ensures var ms := FindAll(Of(Vibe), text);
      && ProcessVibeCardsInText(text, sourceCard).0 == Splice(text, ms, Spans(PageDicts(text, sourceCard)), 0)
      && Splice(text, ms, Covered(text, ms, 0), 0) == text
  {
    SpliceCoveredIsIdentity(text, FindAll(Of(Vibe), text), 0);
  }

  /** A number's decimal digits hold no '-'. */
  lemma DigitsHaveNoDash(n: nat)
    ensures '-' !in NatToString(n)
  {
  }

  /** The id ends with the index: what follows its last '-' is `str(i)`. */
  lemma SuffixAfterDash(a: string, d1: string, b: string, d2: string)
    requires a + "-" + d1 == b + "-" + d2
    requires '-' !in d1 && '-' !in d2
    ensures d1 == d2
  {
    var s, t := a + "-" + d1, b + "-" + d2;
    assert s[|a|] == '-' && t[|b|] == '-';
    assert forall k :: |a| < k < |s| ==> s[k] == d1[k - |a| - 1];
    assert forall k :: |b| < k < |t| ==> t[k] == d2[k - |b| - 1];
    assert |d1| == |d2|;
    assert d1 == s[|s| - |d1|..];
    assert d2 == t[|t| - |d2|..];
  }

  /** Ids of different matches differ, whatever the contents. */
  lemma IdsDistinct(s1: string, i: nat, s2: string, j: nat)
    requires i != j
    ensures IdOf(s1, i) != IdOf(s2, j)
  {
    DigitsHaveNoDash(i);
    DigitsHaveNoDash(j);
    if IdOf(s1, i) == IdOf(s2, j) {
      SuffixAfterDash("vibe-" + s1, NatToString(i), "vibe-" + s2, NatToString(j));
      NatToStringInjective(i, j);
    }
  }

  lemma VibeIdsDistinct(c1: string, i: nat, c2: string, j: nat)
    requires i != j
    ensures VibeId(c1, i) != VibeId(c2, j)
  {
    IdsDistinct(TextUtils.Slugify(c1), i, TextUtils.Slugify(c2), j);
  }

  /** The dicts of one call have pairwise distinct ids. */
  lemma PageVibesIdsDistinct(es: seq<TextUtils.VibeEntry>, sourceCard: string, n: nat, slug: string -> string, i: nat, j: nat)
    requires i < j < |es|
    ensures PageVibes(es, sourceCard, n, slug)[i].id != PageVibes(es, sourceCard, n, slug)[j].id
  {
    PageVibesAt(es, sourceCard, n, slug, i);
    PageVibesAt(es, sourceCard, n, slug, j);
    IdsDistinct(slug(es[i].content), n + i, slug(es[j].content), n + j);
  }

  /** Within one call the ids are pairwise distinct. */
  lemma ProcessVibesIdsDistinct(text: string, sourceCard: string, i: nat, j: nat)
    requires i < j < |PageDicts(text, sourceCard)|
    ensures PageDicts(text, sourceCard)[i].id != PageDicts(text, sourceCard)[j].id
  {
    PageVibesIdsDistinct(TextUtils.ExtractVibeCards(text), sourceCard, 0, TextUtils.Slugify, i, j);
  }

  // ---------------------------------------------------------------------
  // _process_inline_explanations
  // ---------------------------------------------------------------------

  function ExplanationSpan(explanation: string): string {
    "<span class=\"inline-explanation\">" + explanation + "</span>"
  }

  function ExplanationSpans(ms: seq<Match>): (r: seq<string>)
    ensures |r| == |ms|
    ensures forall i :: 0 <= i < |ms| ==> r[i] == ExplanationSpan(Strip(ms[i].g1))
  {
    if |ms| == 0 then [] else [ExplanationSpan(Strip(ms[0].g1))] + ExplanationSpans(ms[1..])
  }

  /** `_process_inline_explanations`: every `>>` with the run after it up to a
      newline or '<' becomes an explanation span holding the run trimmed. */
  function ProcessInlineExplanations(text: string): (r: string)
    ensures FindAll(Of(Aside), text) == [] ==> r == text
  {
    var ms := FindAll(Of(Aside), text);
    Splice(text, ms, ExplanationSpans(ms), 0)
  }

  /** Each replaced span starts at a `>>` and its explanation holds no
      newline and no '<'. */
  lemma ExplanationsAreAsides(text: string, i: nat)
    requires i < |FindAll(Of(Aside), text)|
    ensures var m := FindAll(Of(Aside), text)[i];
      && m.start + 2 <= |text| && text[m.start..m.start + 2] == ">>"
      && '\n' !in Strip(m.g1) && '<' !in Strip(m.g1)
  {
    FindAllMatches(Of(Aside), text, 0);
    var m := FindAll(Of(Aside), text)[i];
    assert Of(Aside)(text, m.start) == Some(m);
    Arrows(text, m.start);
    TextUtils.StripIsInner(m.g1);
  }

  /** `re.sub` with the explanation callback: the text between the asides
      is copied, and the `i`-th aside is replaced by the span of the `i`-th
      explanation (see ExplanationRun). */
  lemma ProcessInlineExplanationsKeepsOutside(text: string)
    ensures var ms := FindAll(Of(Aside), text);
      && ProcessInlineExplanations(text) == Splice(text, ms, ExplanationSpans(ms), 0)
      && Splice(text, ms, Covered(text, ms, 0), 0) == text
  {
    SpliceCoveredIsIdentity(text, FindAll(Of(Aside), text), 0);
  }

  /** The `i`-th aside runs from its `>>` to the end of the text or to just
      before a newline or '<', and its span holds that run after the `>>`,
      trimmed. */
  lemma ExplanationRun(text: string, i: nat)
    requires i < |FindAll(Of(Aside), text)|
    ensures var m := FindAll(Of(Aside), text)[i];
      && m.start + 2 < m.end <= |text|
      && (m.end == |text| || text[m.end] == '\n' || text[m.end] == '<')
      && ExplanationSpans(FindAll(Of(Aside), text))[i] == ExplanationSpan(Strip(text[m.start + 2..m.end]))
  {
    var ms := FindAll(Of(Aside), text);
    AsideFound(text, i);
    AsideRun(text, ms[i]);
    assert ExplanationSpans(ms)[i] == ExplanationSpan(Strip(ms[i].g1));
  }

  /** Each aside `finditer` reports is an aside match at its start. */
  lemma AsideFound(text: string, i: nat)
    requires i < |FindAll(Of(Aside), text)|
    ensures var m := FindAll(Of(Aside), text)[i];
      m.start <= |text| && AsideAt(text, m.start) == Some(m)
  {
    FindAllMatches(Of(Aside), text, 0);
    var m := FindAll(Of(Aside), text)[i];
    assert Of(Aside)(text, m.start) == Some(m);
  }

  /** An aside match ends at the end of its run, and its group, trimmed, is
      the text after the `>>`, trimmed. */
  lemma AsideRun(text: string, m: Match)
    requires m.start <= |text| && AsideAt(text, m.start) == Some(m)
    ensures m.start + 2 < m.end <= |text|
    ensures m.end == |text| || text[m.end] == '\n' || text[m.end] == '<'
    ensures Strip(m.g1) == Strip(text[m.start + 2..m.end])
  {
    var i := m.start;
    var e := SkipSpaces(text, i + 2);
    AsideAtGroup(text, i, e);
    if e < |text| && text[e] != '\n' && text[e] != '<' {
      AsideRunGroup(text, i, e, GroupEnd(text, e));
      RunTrimmed(text, i + 2, e, GroupEnd(text, e));
    } else {
      AsideBackGroup(text, i, e);
    }
  }

  /** The group is the run after the whitespace, which ends at `t`. */
  lemma AsideRunGroup(text: string, i: nat, e: nat, t: nat)
    requires i + 2 <= e < |text| && text[e] != '\n' && text[e] != '<' && t == GroupEnd(text, e)
    requires forall j :: i + 2 <= j < e ==> IsSpace(text[j])
    ensures AsideGroup(text, i, e) == Some(Match(i, t, text[e..t], ""))
    ensures t == |text| || text[t] == '\n' || text[t] == '<'
  {
  }

  /** Whitespace in front of the run does not change the trimmed run. */
  lemma RunTrimmed(text: string, a: nat, e: nat, t: nat)
    requires a <= e <= t <= |text|
    requires forall j :: a <= j < e ==> IsSpace(text[j])
    ensures Strip(text[e..t]) == Strip(text[a..t])
  {
    StripSkipsSpaces(text, a, e, t);
  }

  /** The engine gives back one whitespace character: the group is that
      character, the run after `>>` is whitespace, and both trim to "". */
  lemma AsideBackGroup(text: string, i: nat, e: nat)
    requires i + 2 <= e <= |text| && (e < |text| ==> text[e] == '\n' || text[e] == '<')
    requires forall j :: i + 2 <= j < e ==> IsSpace(text[j])
    ensures AsideGroup(text, i, e).Some? ==> var m := AsideGroup(text, i, e).value;
      && (m.end == |text| || text[m.end] == '\n' || text[m.end] == '<')
      && Strip(m.g1) == "" && Strip(text[i + 2..m.end]) == ""
  {
    match LastNonNewline(text, i + 2, e)
    case None =>
    case Some(j) =>
      assert IsSpace(text[j]);
      assert AllSpace([text[j]]);
      assert AllSpace(text[i + 2..j + 1]);
  }

  /** Two '>' characters in a row are the text `>>`. */
  lemma Arrows(text: string, k: nat)
    requires k + 2 <= |text| && text[k] == '>' && text[k + 1] == '>'
    ensures text[k..k + 2] == ">>"
  {
  }

  /** An aside match starts with `>>`. */
  lemma AsideNeedsArrows(text: string, i: nat)
    requires i <= |text|
    ensures Of(Aside)(text, i).Some? ==> i + 1 < |text| && text[i] == '>' && text[i + 1] == '>'
  {
    assert Of(Aside)(text, i) == AsideAt(text, i);
  }

  /** Text without `>>` is left unchanged. */
  lemma NoAsideNoChange(text: string)
    requires forall k :: 0 <= k < |text| - 1 ==> !(text[k] == '>' && text[k + 1] == '>')
    ensures ProcessInlineExplanations(text) == text
  {
    forall i | 0 <= i <= |text| ensures Of(Aside)(text, i).None? {
      AsideNeedsArrows(text, i);
    }
    assert SearchFrom(Of(Aside), text, 0).None?;

  }

  // ---------------------------------------------------------------------
  // _prepare_context: the counters
  // ---------------------------------------------------------------------

  datatype PageCounts = PageCounts(totalCards: nat, totalVibeCards: nat, totalAllCards: nat, hasVibeArchive: bool)

  /** The counters of `_prepare_context`: the cards of every main archive, the
      generated cards when the vibe archive exists and is non-empty, their sum,
      and whether the vibe archive is shown. */
  method PrepareCounts(d: Document) returns (c: PageCounts)
    ensures c.totalCards == Compiler.Sum(Compiler.CardCount, d.archives)
    ensures c.hasVibeArchive <==> d.vibeArchive.Some? && |d.vibeArchive.value.cards| > 0
    ensures c.totalVibeCards == Compiler.GeneratedCards(d)
    ensures c.totalAllCards == c.totalCards + c.totalVibeCards
  {
    var totalCards := 0;
    var i := 0;
    while i < |d.archives|
      invariant 0 <= i <= |d.archives|
      invariant totalCards == Compiler.Sum(Compiler.CardCount, d.archives[..i])
    {
      Compiler.SumPrefix(Compiler.CardCount, d.archives, i);
      totalCards := totalCards + |d.archives[i].cards|;
      i := i + 1;
    }
    assert d.archives[..i] == d.archives;
    var totalVibeCards := 0;
    var has := false;
    if d.vibeArchive.Some? && |d.vibeArchive.value.cards| > 0 {
      totalVibeCards := |d.vibeArchive.value.cards|;
      has := true;
    }
    c := PageCounts(totalCards, totalVibeCards, totalCards + totalVibeCards, has);
  }
}
