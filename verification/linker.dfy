/** The annotation pass (`VibeCardProcessor`): every annotation span found in a
    card's regions becomes a generated card of its own, collected in the
    document's vibe archive, and main cards whose text mentions a generated
    card's theme get a `→` label pointing at it. */
module Linker {
  import opened Wrappers
  import opened Text
  import opened Patterns
  import opened Values
  import opened Ast

  // ---------------------------------------------------------------------
  // Extraction (`_extract_vibe_cards_from_*`)
  // ---------------------------------------------------------------------

  /** One vibe card per match, content and annotation trimmed. */
  function VibesOf(ms: seq<Match>, source: string, n: int): (r: seq<VibeCard>)
    ensures |r| == |ms|
    ensures forall i :: 0 <= i < |ms| ==> r[i] == VibeCard(0, Strip(ms[i].g1), Strip(ms[i].g2), source, n)
  {
    if |ms| == 0 then [] else [VibeCard(0, Strip(ms[0].g1), Strip(ms[0].g2), source, n)] + VibesOf(ms[1..], source, n)
  }

  /** `_extract_vibe_cards_from_text`: the spans `finditer` finds, left to right. */
  function TextVibes(text: string, source: string, n: int): seq<VibeCard> {
    VibesOf(FindAll(Of(Vibe), text), source, n)
  }

  /** The spans of each line, numbered by the line's 0-based position. */
  function LinesVibes(lines: seq<string>, source: string, i: nat): seq<VibeCard>
    decreases |lines|
  {
    if |lines| == 0 then [] else TextVibes(lines[0], source, i) + LinesVibes(lines[1..], source, i + 1)
  }

  /** `_extract_vibe_cards_from_region`: the spans of the whole content
      (numbered 0), then those of every line. */
  function RegionVibes(r: Region, source: string): seq<VibeCard> {
    TextVibes(r.content, source, 0) + LinesVibes(r.lines, source, 0)
  }

  /** A region whose content is its single line yields every annotation
      twice: once from the content and once, again numbered 0, from the line. */
  lemma {:induction false} OneLineRegionTwice(r: Region, source: string)
    requires r.lines == [r.content]
    ensures RegionVibes(r, source) == TextVibes(r.content, source, 0) + TextVibes(r.content, source, 0)
  {
    OneLineVibes(r.lines, source, 0);
  }

  /** A single line yields the spans of that line. */
  lemma {:induction false} OneLineVibes(lines: seq<string>, source: string, i: nat)
    requires |lines| == 1
    ensures LinesVibes(lines, source, i) == TextVibes(lines[0], source, i)
  {
    assert lines[1..] == [];
    assert LinesVibes(lines[1..], source, i + 1) == [];
  }

  function SetRegionVibes(r: Region, source: string): Region {
    r.(vibeCards := RegionVibes(r, source))
  }

  function ExtractRegions(rs: seq<Region>, source: string): (out: seq<Region>)
    ensures |out| == |rs|
    ensures forall i :: 0 <= i < |rs| ==> out[i] == SetRegionVibes(rs[i], source)
  {
    if |rs| == 0 then [] else [SetRegionVibes(rs[0], source)] + ExtractRegions(rs[1..], source)
  }

  /** The cards of every region, in region order. */
  function AllRegionVibes(rs: seq<Region>): seq<VibeCard> {
    if |rs| == 0 then [] else rs[0].vibeCards + AllRegionVibes(rs[1..])
  }

  /** `_extract_vibe_cards_from_card`, with the assignments it makes: each
      region and then the card hold what was found. */
  function ExtractCard(c: MainCard): MainCard {
    var rs := ExtractRegions(c.regions, c.theme);
    c.(regions := rs, vibeCards := AllRegionVibes(rs))
  }

  function ExtractCards(cs: seq<MainCard>): (out: seq<MainCard>)
    ensures |out| == |cs|
    ensures forall i :: 0 <= i < |cs| ==> out[i] == ExtractCard(cs[i])
  {
    if |cs| == 0 then [] else [ExtractCard(cs[0])] + ExtractCards(cs[1..])
  }

  function ExtractArchive(a: Archive): Archive {
    a.(cards := ExtractCards(a.cards))
  }

  function ExtractArchives(as_: seq<Archive>): (out: seq<Archive>)
    ensures |out| == |as_|
    ensures forall i :: 0 <= i < |as_| ==> out[i] == ExtractArchive(as_[i])
  {
    if |as_| == 0 then [] else [ExtractArchive(as_[0])] + ExtractArchives(as_[1..])
  }

  /** Extraction touches nothing but the vibe-card lists: names, themes,
      labels, region texts and lines stay as they were. */
  lemma ExtractKeepsText(c: MainCard)
    ensures ExtractCard(c).theme == c.theme && ExtractCard(c).labels == c.labels
    ensures |ExtractCard(c).regions| == |c.regions|
    ensures forall i :: 0 <= i < |c.regions| ==>
      ExtractCard(c).regions[i] == c.regions[i].(vibeCards := RegionVibes(c.regions[i], c.theme))
  {
  }

  // ---------------------------------------------------------------------
  // Generated cards (`_create_main_card_from_vibe`, `_create_context_region`)
  // ---------------------------------------------------------------------

  const Marker := "  ← 注卡位置"

  /** A line of the context window: the annotated line is marked, every
      other line indented. */
  function ContextLine(line: string, i: nat, n: nat): string {
    if i == n then "> " + line + Marker else "  " + line
  }

  /** The lines `[i, end)` of the window, each marked or indented. */
  function Window(lines: seq<string>, i: nat, end: nat, n: nat): (r: seq<string>)
    requires i <= end <= |lines|
    ensures |r| == end - i
    ensures forall k :: 0 <= k < |r| ==> r[k] == ContextLine(lines[i + k], i + k, n)
    decreases end - i
  {
    if i == end then [] else [ContextLine(lines[i], i, n)] + Window(lines, i + 1, end, n)
  }

  /** Where the first region from `k` on with more than `n` lines sits. */
  function FirstLonger(rs: seq<Region>, n: nat, k: nat): (r: Option<nat>)
    requires k <= |rs|
    ensures r.Some? ==> k <= r.value < |rs| && n < |rs[r.value].lines|
    ensures r.Some? ==> forall j :: k <= j < r.value ==> |rs[j].lines| <= n
    ensures r.None? ==> forall j :: k <= j < |rs| ==> |rs[j].lines| <= n
    decreases |rs| - k
  {
    if k == |rs| then None
    else if n < |rs[k].lines| then Some(k)
    else FirstLonger(rs, n, k + 1)
  }

  function Max(a: int, b: int): int { if a >= b then a else b }
  function Min(a: int, b: int): int { if a <= b then a else b }

  /** `_create_context_region`: up to two lines either side of the annotated
      line of the first region long enough to hold it. */
  function ContextRegion(v: VibeCard, source: MainCard): Option<Region> {
    if v.lineNumber <= 0 then None
    else
      match FirstLonger(source.regions, v.lineNumber, 0)
      case None => None
      case Some(i) =>
        var src := source.regions[i];
        var start := Max(0, v.lineNumber - 2);
        var end := Min(|src.lines|, v.lineNumber + 3);
        var hl := Window(src.lines, start, end, v.lineNumber);
        Some(NewRegion("上下文", Join(hl, "\n"), hl))
  }

  /** The context exists exactly when the annotation has a positive line
      number that some region is long enough to hold; it then shows at most
      five lines, the annotated line marked and every other line indented. */
  lemma ContextShape(v: VibeCard, source: MainCard)
    ensures ContextRegion(v, source).Some? <==>
      v.lineNumber > 0 && exists i :: 0 <= i < |source.regions| && v.lineNumber < |source.regions[i].lines|
    ensures ContextRegion(v, source).Some? ==>
      var r := ContextRegion(v, source).value;
      var src := source.regions[FirstLonger(source.regions, v.lineNumber, 0).value];
      var start := Max(0, v.lineNumber - 2);
      && r.name == "上下文" && 1 <= |r.lines| <= 5 && r.content == Join(r.lines, "\n")
      && start + |r.lines| <= |src.lines|
      && (forall k :: 0 <= k < |r.lines| && start + k != v.lineNumber ==> r.lines[k] == "  " + src.lines[start + k])
      && 0 <= v.lineNumber - start < |r.lines|
      && r.lines[v.lineNumber - start] == "> " + src.lines[v.lineNumber] + Marker
  {
    if v.lineNumber > 0 {
      var n: nat := v.lineNumber;
      if exists i :: 0 <= i < |source.regions| && n < |source.regions[i].lines| {
        var i :| 0 <= i < |source.regions| && n < |source.regions[i].lines|;
        assert FirstLonger(source.regions, n, 0).Some?;
      }
    }
  }

  /** `来源`: the source card's theme, and the 1-based line when known. */
  function SourceInfo(v: VibeCard, theme: string): string {
    "来自卡片: " + theme + (if v.lineNumber > 0 then " (第" + NatToString(v.lineNumber + 1) + "行)" else "")
  }

  const BacklinkSymbol := "←"

  /** `_create_main_card_from_vibe`. */
  function GeneratedCard(v: VibeCard, source: MainCard): MainCard {
    var info := SourceInfo(v, source.theme);
    var base := [NewRegion("内容", v.content, [v.content]), NewRegion("批注", v.annotation, [v.annotation]),
                 NewRegion("来源", info, [info])];
    var regions := match ContextRegion(v, source) case Some(cr) => base + [cr] case None => base;
    MainCard(v.content, [Label(BacklinkSymbol, ["#" + source.theme], "backlink")], regions, [],
             map["source_card" := VStr(source.theme), "line_number" := VInt(v.lineNumber),
                 "generated_from" := VStr("vibe_card")])
  }

  function Names(rs: seq<Region>): (r: seq<string>)
    ensures |r| == |rs| && forall i :: 0 <= i < |rs| ==> r[i] == rs[i].name
  {
    if |rs| == 0 then [] else [rs[0].name] + Names(rs[1..])
  }

  /** A generated card is titled by the annotated text, carries exactly one
      label (the back-link to its source card) and no vibe cards, and has the
      regions 内容 / 批注 / 来源, plus 上下文 exactly when a context exists. */
  lemma GeneratedCardShape(v: VibeCard, source: MainCard)
    ensures GeneratedCard(v, source).theme == v.content
    ensures GeneratedCard(v, source).labels == [Label("←", ["#" + source.theme], "backlink")]
    ensures GeneratedCard(v, source).vibeCards == []
    ensures Names(GeneratedCard(v, source).regions) ==
      ["内容", "批注", "来源"] + (if ContextRegion(v, source).Some? then ["上下文"] else [])
    ensures GeneratedCard(v, source).regions[0].content == v.content
    ensures GeneratedCard(v, source).regions[1].content == v.annotation
  {
    var c := GeneratedCard(v, source);
    var ns := Names(c.regions);
    if ContextRegion(v, source).Some? {
      assert ns == [ns[0], ns[1], ns[2], ns[3]];
    } else {
      assert ns == [ns[0], ns[1], ns[2]];
    }
  }

  /** One generated card per vibe card of `c`, in order. */
  function CardsFrom(vs: seq<VibeCard>, c: MainCard): (r: seq<MainCard>)
    ensures |r| == |vs| && forall i :: 0 <= i < |vs| ==> r[i] == GeneratedCard(vs[i], c)
  {
    if |vs| == 0 then [] else [GeneratedCard(vs[0], c)] + CardsFrom(vs[1..], c)
  }

  function CardsGenerated(cs: seq<MainCard>): seq<MainCard> {
    if |cs| == 0 then [] else CardsFrom(cs[0].vibeCards, cs[0]) + CardsGenerated(cs[1..])
  }

  function Generated(as_: seq<Archive>): seq<MainCard> {
    if |as_| == 0 then [] else CardsGenerated(as_[0].cards) + Generated(as_[1..])
  }

  /** `all_vibe_cards`: every card's vibe cards, in document order. */
  function CardVibes(cs: seq<MainCard>): seq<VibeCard> {
    if |cs| == 0 then [] else cs[0].vibeCards + CardVibes(cs[1..])
  }

  function AllVibes(as_: seq<Archive>): seq<VibeCard> {
    if |as_| == 0 then [] else CardVibes(as_[0].cards) + AllVibes(as_[1..])
  }

  /** Every annotation yields exactly one generated card. */
  lemma {:induction false} GeneratedCount(as_: seq<Archive>)
    ensures |Generated(as_)| == |AllVibes(as_)|
  {
    if |as_| > 0 {
      GeneratedCount(as_[1..]);
      CardsGeneratedCount(as_[0].cards);
    }
  }

  lemma {:induction false} CardsGeneratedCount(cs: seq<MainCard>)
    ensures |CardsGenerated(cs)| == |CardVibes(cs)|
  {
    if |cs| > 0 {
      CardsGeneratedCount(cs[1..]);
    }
  }

  // ---------------------------------------------------------------------
  // Links (`_add_vibe_links`)
  // ---------------------------------------------------------------------

  function LowerThemes(cs: seq<MainCard>): set<string> {
    if |cs| == 0 then {} else {LowerStr(cs[0].theme)} + LowerThemes(cs[1..])
  }

  /** `vibe_themes`: the lower-cased themes of the vibe archive's cards. */
  function Themes(d: Document): set<string> {
    match d.vibeArchive case Some(va) => LowerThemes(va.cards) case None => {}
  }

  /** The theme a region links to: the first theme, in set iteration order
      `order`, that occurs in the region's text, case-insensitively. */
  function RegionLink(content: string, themes: set<string>, order: seq<string>): (r: Option<string>)
    ensures r.Some? ==> r.value in themes && r.value in order && Contains(LowerStr(content), LowerStr(r.value))
    ensures r.None? ==> forall t :: t in order && t in themes ==> !Contains(LowerStr(content), LowerStr(t))
  {
    if |order| == 0 then None
    else if order[0] in themes && Contains(LowerStr(content), LowerStr(order[0])) then Some(order[0])
    else RegionLink(content, themes, order[1..])
  }

  function LinkLabel(theme: string): Label {
    Label("→", ["#" + theme], "vibe_reference")
  }

  /** One label per region that mentions some theme. */
  function RegionLinks(rs: seq<Region>, themes: set<string>, order: seq<string>): seq<Label> {
    if |rs| == 0 then []
    else
      (match RegionLink(rs[0].content, themes, order) case Some(t) => [LinkLabel(t)] case None => [])
      + RegionLinks(rs[1..], themes, order)
  }

  function LinkCards(cs: seq<MainCard>, themes: set<string>, order: seq<string>): (r: seq<MainCard>)
    ensures |r| == |cs|
    ensures forall i :: 0 <= i < |cs| ==> r[i] == cs[i].(labels := cs[i].labels + RegionLinks(cs[i].regions, themes, order))
  {
    if |cs| == 0 then []
    else [cs[0].(labels := cs[0].labels + RegionLinks(cs[0].regions, themes, order))] + LinkCards(cs[1..], themes, order)
  }

  function LinkArchives(as_: seq<Archive>, themes: set<string>, order: seq<string>): (r: seq<Archive>)
    ensures |r| == |as_|
    ensures forall i :: 0 <= i < |as_| ==> r[i] == as_[i].(cards := LinkCards(as_[i].cards, themes, order))
  {
    if |as_| == 0 then [] else [as_[0].(cards := LinkCards(as_[0].cards, themes, order))] + LinkArchives(as_[1..], themes, order)
  }

  /** `_add_vibe_links`, the set `vibe_themes` iterated in the order `order`. */
  function AddVibeLinks(d: Document, order: seq<string>): Document {
    d.(archives := LinkArchives(d.archives, Themes(d), order))
  }

  /** `order` lists the members of `themes`, each once. */
  ghost predicate Enumerates(order: seq<string>, themes: set<string>) {
    && (forall t :: t in order <==> t in themes)
    && (forall i, j :: 0 <= i < j < |order| ==> order[i] != order[j])
  }

  /** Whether a region gets a link does not depend on the iteration order. */
  lemma LinkExistsAnyOrder(content: string, themes: set<string>, o1: seq<string>, o2: seq<string>)
    requires Enumerates(o1, themes) && Enumerates(o2, themes)
    ensures RegionLink(content, themes, o1).Some? <==> RegionLink(content, themes, o2).Some?
  {
    if RegionLink(content, themes, o1).Some? {
      var t := RegionLink(content, themes, o1).value;
      assert t in o2;
    }
    if RegionLink(content, themes, o2).Some? {
      var t := RegionLink(content, themes, o2).value;
      assert t in o1;
    }
  }

  /** So the number of links a card gets is the same for every iteration
      order, and each names a theme that occurs in its region. */
  lemma {:induction false} RegionLinksAnyOrder(rs: seq<Region>, themes: set<string>, o1: seq<string>, o2: seq<string>)
    requires Enumerates(o1, themes) && Enumerates(o2, themes)
    ensures |RegionLinks(rs, themes, o1)| == |RegionLinks(rs, themes, o2)|
    ensures |RegionLinks(rs, themes, o1)| <= |rs|
  {
    if |rs| > 0 {
      LinkExistsAnyOrder(rs[0].content, themes, o1, o2);
      RegionLinksAnyOrder(rs[1..], themes, o1, o2);
    }
  }

  /** Every link label names a theme of the set that occurs in one of the
      card's regions. */
  lemma {:induction false} RegionLinksSound(rs: seq<Region>, themes: set<string>, order: seq<string>)
    ensures forall l :: l in RegionLinks(rs, themes, order) ==>
      exists t :: t in themes && l == LinkLabel(t) && exists i :: 0 <= i < |rs| && Contains(LowerStr(rs[i].content), LowerStr(t))
  {
    if |rs| > 0 {
      RegionLinksSound(rs[1..], themes, order);
      forall l | l in RegionLinks(rs, themes, order)
        ensures exists t :: t in themes && l == LinkLabel(t) && exists i :: 0 <= i < |rs| && Contains(LowerStr(rs[i].content), LowerStr(t))
      {
        var head := match RegionLink(rs[0].content, themes, order) case Some(t) => [LinkLabel(t)] case None => [];
        assert RegionLinks(rs, themes, order) == head + RegionLinks(rs[1..], themes, order);
        if l in head {
          var t := RegionLink(rs[0].content, themes, order).value;
          assert Contains(LowerStr(rs[0].content), LowerStr(t));
        } else {
          var t :| t in themes && l == LinkLabel(t) && exists i :: 0 <= i < |rs[1..]| && Contains(LowerStr(rs[1..][i].content), LowerStr(t));
          var i :| 0 <= i < |rs[1..]| && Contains(LowerStr(rs[1..][i].content), LowerStr(t));
          assert rs[i + 1] == rs[1..][i];
        }
      }
    }
  }

  // ---------------------------------------------------------------------
  // The pass (`process`)
  // ---------------------------------------------------------------------

  /** `process`, with the theme set iterated in the order `order`. A document
      without archives comes back as it is. */
  function Process(d: Document, order: seq<string>): Document {
    if |d.archives| == 0 then d
    else
      var arcs := ExtractArchives(d.archives);
      var gen := Generated(arcs);
      var va := if |gen| > 0 then
          Some(VibeArchive("自动生成注卡", gen, [], "基于" + NatToString(|AllVibes(arcs)|) + "个注卡自动生成"))
        else d.vibeArchive;
      AddVibeLinks(Document(d.title, arcs, va), order)
  }

  /** The pass keeps the archives, their names and their card themes, adds
      a vibe archive exactly when some annotation was found, and then holds
      one generated card per annotation. */
  lemma ProcessShape(d: Document, order: seq<string>)
    requires |d.archives| > 0
    ensures |Process(d, order).archives| == |d.archives|
    ensures forall i :: 0 <= i < |d.archives| ==>
      Process(d, order).archives[i].name == d.archives[i].name
      && |Process(d, order).archives[i].cards| == |d.archives[i].cards|
    ensures |AllVibes(ExtractArchives(d.archives))| > 0 ==>
      Process(d, order).vibeArchive.Some? && |Process(d, order).vibeArchive.value.cards| == |AllVibes(ExtractArchives(d.archives))|
    ensures |AllVibes(ExtractArchives(d.archives))| == 0 ==> Process(d, order).vibeArchive == d.vibeArchive
  {
    GeneratedCount(ExtractArchives(d.archives));
  }
}
