/** The syntax tree the parser builds and the dict projections (`to_dict`)
    the renderer consumes. Where the parser passes a field the node classes do
    not declare (`MainCard.metadata`, `VibeCard.line_number`,
    `VibeArchive.description`) the datatype carries it, so every node holds
    the union of the fields the core actually uses. */
module Ast {
  import opened Wrappers
  import opened Values

  /** An inline annotation `` `content`[annotation] ``. The parser never
      supplies `id`, so it is 0 throughout the model. */
  datatype VibeCard = VibeCard(id: int, content: string, annotation: string, sourceCard: string, lineNumber: int)

  datatype Label = Label(symbol: string, content: seq<string>, labelType: string)

  datatype InlineExplanation = InlineExplanation(line: string, content: string)

  datatype ListItem = ListItem(content: string, vibeCards: seq<VibeCard>, lineNumber: int)

  datatype RemList = RemList(listType: string, items: seq<ListItem>, category: string)

  datatype CodeBlock = CodeBlock(language: string, content: string)

  /** A named section of a card. `inlineExplanations` is the source's
      `{line: explanation}` dict, its entries in insertion order. */
  datatype Region = Region(
    name: string,
    content: string,
    lines: seq<string>,
    vibeCards: seq<VibeCard>,
    inlineExplanations: seq<(int, InlineExplanation)>,
    lists: seq<RemList>,
    codeBlocks: seq<CodeBlock>)

  datatype MainCard = MainCard(
    theme: string,
    labels: seq<Label>,
    regions: seq<Region>,
    vibeCards: seq<VibeCard>,
    metadata: map<string, Value>)

  datatype VibeArchive = VibeArchive(name: string, cards: seq<MainCard>, sourceLines: seq<string>, description: string)

  datatype Archive = Archive(name: string, cards: seq<MainCard>, description: string)

  datatype Document = Document(title: string, archives: seq<Archive>, vibeArchive: Option<VibeArchive>)

  // ---------------------------------------------------------------------
  // Constructors with the dataclass defaults
  // ---------------------------------------------------------------------

  /** `Region(name, content, lines)` with every other list left at its empty default. */
  function NewRegion(name: string, content: string, lines: seq<string>): Region {
    Region(name, content, lines, [], [], [], [])
  }

  /** `Rem_List(list_type, items, category)` followed by `__post_init__`. */
  function NewRemList(listType: string, items: seq<ListItem>, category: string): (r: RemList)
    ensures r.listType == listType && r.items == items
    ensures listType == "ul" || listType == "ol" ==> r.category == "unordered"
    ensures listType != "ul" && listType != "ol" ==> r.category == category
  {
    var c := if listType == "ul" then "unordered" else if listType == "ol" then "unordered" else category;
    RemList(listType, items, c)
  }

  // ---------------------------------------------------------------------
  // to_dict projections
  // ---------------------------------------------------------------------

  function S(name: string, v: Value): Entry {
    Entry(KStr(name), v)
  }

  function VibeCardToDict(v: VibeCard): Value {
    VDict([S("id", VInt(v.id)), S("content", VStr(v.content)), S("annotation", VStr(v.annotation)),
           S("source_card", VStr(v.sourceCard))])
  }

  function LabelToDict(l: Label): Value {
    VDict([S("symbol", VStr(l.symbol)), S("content", StrList(l.content)), S("type", VStr(l.labelType))])
  }

  function InlineToDict(e: InlineExplanation): Value {
    VDict([S("line", VStr(e.line)), S("content", VStr(e.content))])
  }

  function ListItemToDict(it: ListItem): Value {
    VDict([S("content", VStr(it.content)), S("vibe_cards", VList(Map(VibeCardToDict, it.vibeCards))),
           S("line_number", VInt(it.lineNumber))])
  }

  function ItemContent(it: ListItem): Value {
    VStr(it.content)
  }

  function RemListToDict(l: RemList): Value {
    VDict([S("list_type", VStr(l.listType)), S("category", VStr(l.category)),
           S("items", VList(Map(ListItemToDict, l.items))), S("lines", VList(Map(ItemContent, l.items)))])
  }

  function CodeBlockToDict(c: CodeBlock): Value {
    VDict([S("language", VStr(c.language)), S("content", VStr(c.content))])
  }

  function InlineEntry(p: (int, InlineExplanation)): Entry {
    Entry(KInt(p.0), InlineToDict(p.1))
  }

  function RegionToDict(r: Region): Value {
    VDict([S("name", VStr(r.name)), S("content", VStr(r.content)), S("lines", StrList(r.lines)),
           S("vibe_cards", VList(Map(VibeCardToDict, r.vibeCards))),
           S("inline_explanations", VDict(Map(InlineEntry, r.inlineExplanations))),
           S("lists", VList(Map(RemListToDict, r.lists))),
           S("code_blocks", VList(Map(CodeBlockToDict, r.codeBlocks)))])
  }

  function MainCardToDict(c: MainCard): Value {
    VDict([S("theme", VStr(c.theme)), S("labels", VList(Map(LabelToDict, c.labels))),
           S("regions", VList(Map(RegionToDict, c.regions))),
           S("vibe_cards", VList(Map(VibeCardToDict, c.vibeCards)))])
  }

  function VibeArchiveToDict(a: VibeArchive): Value {
    VDict([S("name", VStr(a.name)), S("cards", VList(Map(MainCardToDict, a.cards))),
           S("sources_lines", StrList(a.sourceLines))])
  }

  function ArchiveToDict(a: Archive): Value {
    VDict([S("name", VStr(a.name)), S("cards", VList(Map(MainCardToDict, a.cards))),
           S("description", VStr(a.description))])
  }

  function DocumentToDict(d: Document): Value {
    VDict([S("title", VStr(d.title)), S("archives", VList(Map(ArchiveToDict, d.archives))),
           S("vibe_archive", match d.vibeArchive case Some(va) => VibeArchiveToDict(va) case None => VNone)])
  }

  // ---------------------------------------------------------------------
  // What a projection keeps: each node with the fields `to_dict` drops
  // reset to their defaults
  // ---------------------------------------------------------------------

  function ExportVibe(v: VibeCard): VibeCard {
    v.(lineNumber := 0)
  }

  function ExportItem(it: ListItem): ListItem {
    it.(vibeCards := Map(ExportVibe, it.vibeCards))
  }

  function ExportList(l: RemList): RemList {
    l.(items := Map(ExportItem, l.items))
  }

  function ExportRegion(r: Region): Region {
    r.(vibeCards := Map(ExportVibe, r.vibeCards), lists := Map(ExportList, r.lists))
  }

  function ExportCard(c: MainCard): MainCard {
    c.(regions := Map(ExportRegion, c.regions), vibeCards := Map(ExportVibe, c.vibeCards), metadata := map[])
  }

  function ExportVibeArchive(a: VibeArchive): VibeArchive {
    a.(cards := Map(ExportCard, a.cards), description := "")
  }

  function ExportArchive(a: Archive): Archive {
    a.(cards := Map(ExportCard, a.cards))
  }

  function ExportDocument(d: Document): Document {
    d.(archives := Map(ExportArchive, d.archives),
       vibeArchive := match d.vibeArchive case Some(va) => Some(ExportVibeArchive(va)) case None => None)
  }

  // ---------------------------------------------------------------------
  // Readers of the projections
  // ---------------------------------------------------------------------

  function Str(v: Value, name: string): Option<string> {
    match Field(v, name) case Some(VStr(s)) => Some(s) case _ => None
  }

  function Int(v: Value, name: string): Option<int> {
    match Field(v, name) case Some(VInt(i)) => Some(i) case _ => None
  }

  function Strs(v: Value, name: string): Option<seq<string>> {
    match Field(v, name) case Some(l) => AsStrList(l) case None => None
  }

  function Items(v: Value, name: string): Option<seq<Value>> {
    match Field(v, name) case Some(VList(xs)) => Some(xs) case _ => None
  }

  function VibeCardFromDict(v: Value): Option<VibeCard> {
    match (Int(v, "id"), Str(v, "content"), Str(v, "annotation"), Str(v, "source_card"))
    case (Some(id), Some(c), Some(a), Some(sc)) => Some(VibeCard(id, c, a, sc, 0))
    case _ => None
  }

  function LabelFromDict(v: Value): Option<Label> {
    match (Str(v, "symbol"), Strs(v, "content"), Str(v, "type"))
    case (Some(sy), Some(c), Some(t)) => Some(Label(sy, c, t))
    case _ => None
  }

  function InlineFromDict(v: Value): Option<InlineExplanation> {
    match (Str(v, "line"), Str(v, "content"))
    case (Some(l), Some(c)) => Some(InlineExplanation(l, c))
    case _ => None
  }

  function ListItemFromDict(v: Value): Option<ListItem> {
    match (Str(v, "content"), Items(v, "vibe_cards"), Int(v, "line_number"))
    case (Some(c), Some(vs), Some(n)) =>
      (match DecodeAll(VibeCardFromDict, vs) case Some(cards) => Some(ListItem(c, cards, n)) case None => None)
    case _ => None
  }

  function RemListFromDict(v: Value): Option<RemList> {
    match (Str(v, "list_type"), Str(v, "category"), Items(v, "items"))
    case (Some(t), Some(c), Some(its)) =>
      (match DecodeAll(ListItemFromDict, its) case Some(items) => Some(RemList(t, items, c)) case None => None)
    case _ => None
  }

  function CodeBlockFromDict(v: Value): Option<CodeBlock> {
    match (Str(v, "language"), Str(v, "content"))
    case (Some(l), Some(c)) => Some(CodeBlock(l, c))
    case _ => None
  }

  function InlineFromEntry(e: Entry): Option<(int, InlineExplanation)> {
    match (e.key, InlineFromDict(e.val))
    case (KInt(n), Some(x)) => Some((n, x))
    case _ => None
  }

  function InlineEntries(v: Value): Option<seq<(int, InlineExplanation)>> {
    match Field(v, "inline_explanations")
    case Some(VDict(es)) => DecodeAll(InlineFromEntry, es)
    case _ => None
  }

  function RegionFromDict(v: Value): Option<Region> {
    match (Str(v, "name"), Str(v, "content"), Strs(v, "lines"), Items(v, "vibe_cards"),
           InlineEntries(v), Items(v, "lists"), Items(v, "code_blocks"))
    case (Some(n), Some(c), Some(ls), Some(vs), Some(ie), Some(lsts), Some(cbs)) =>
      (match (DecodeAll(VibeCardFromDict, vs), DecodeAll(RemListFromDict, lsts), DecodeAll(CodeBlockFromDict, cbs))
       case (Some(cards), Some(lists), Some(blocks)) => Some(Region(n, c, ls, cards, ie, lists, blocks))
       case _ => None)
    case _ => None
  }

  function MainCardFromDict(v: Value): Option<MainCard> {
    match (Str(v, "theme"), Items(v, "labels"), Items(v, "regions"), Items(v, "vibe_cards"))
    case (Some(t), Some(lbs), Some(rgs), Some(vs)) =>
      (match (DecodeAll(LabelFromDict, lbs), DecodeAll(RegionFromDict, rgs), DecodeAll(VibeCardFromDict, vs))
       case (Some(labels), Some(regions), Some(cards)) => Some(MainCard(t, labels, regions, cards, map[]))
       case _ => None)
    case _ => None
  }

  function VibeArchiveFromDict(v: Value): Option<VibeArchive> {
    match (Str(v, "name"), Items(v, "cards"), Strs(v, "sources_lines"))
    case (Some(n), Some(cs), Some(sl)) =>
      (match DecodeAll(MainCardFromDict, cs) case Some(cards) => Some(VibeArchive(n, cards, sl, "")) case None => None)
    case _ => None
  }

  function ArchiveFromDict(v: Value): Option<Archive> {
    match (Str(v, "name"), Items(v, "cards"), Str(v, "description"))
    case (Some(n), Some(cs), Some(d)) =>
      (match DecodeAll(MainCardFromDict, cs) case Some(cards) => Some(Archive(n, cards, d)) case None => None)
    case _ => None
  }

  function DocumentFromDict(v: Value): Option<Document> {
    match (Str(v, "title"), Items(v, "archives"), Field(v, "vibe_archive"))
    case (Some(t), Some(arcs), Some(va)) =>
      (match DecodeAll(ArchiveFromDict, arcs)
       case None => None
       case Some(archives) =>
         if va == VNone then Some(Document(t, archives, None))
         else match VibeArchiveFromDict(va)
           case Some(x) => Some(Document(t, archives, Some(x)))
           case None => None)
    case _ => None
  }

  // ---------------------------------------------------------------------
  // Round trips: a projection keeps every field it exports
  // ---------------------------------------------------------------------

  /** Reading key `name` of a dict finds the entry at position `i` when no
      earlier entry carries that key. */
  lemma At(v: Value, name: string, i: nat)
    requires v.VDict? && i < |v.entries| && v.entries[i].key == KStr(name)
    requires forall j :: 0 <= j < i ==> v.entries[j].key != KStr(name)
    ensures Field(v, name) == Some(v.entries[i].val)
  {
    GetFirst(v.entries, KStr(name), i);
  }

  lemma VibeCardRoundTrip(v: VibeCard)
    ensures VibeCardFromDict(VibeCardToDict(v)) == Some(ExportVibe(v))
  {
    var d := VibeCardToDict(v);
    At(d, "id", 0);
    At(d, "content", 1);
    At(d, "annotation", 2);
    At(d, "source_card", 3);
  }

  lemma LabelRoundTrip(l: Label)
    ensures LabelFromDict(LabelToDict(l)) == Some(l)
  {
    var d := LabelToDict(l);
    At(d, "symbol", 0);
    At(d, "content", 1);
    At(d, "type", 2);
    StrListRoundTrip(l.content);
  }

  lemma VibeCardsRoundTrip(vs: seq<VibeCard>)
    ensures DecodeAll(VibeCardFromDict, Map(VibeCardToDict, vs)) == Some(Map(ExportVibe, vs))
  {
    forall x | x in vs ensures VibeCardFromDict(VibeCardToDict(x)) == Some(ExportVibe(x)) {
      VibeCardRoundTrip(x);
    }
    DecodeAllMap(VibeCardToDict, VibeCardFromDict, ExportVibe, vs);
  }

  lemma ListItemRoundTrip(it: ListItem)
    ensures ListItemFromDict(ListItemToDict(it)) == Some(ExportItem(it))
  {
    var d := ListItemToDict(it);
    At(d, "content", 0);
    At(d, "vibe_cards", 1);
    At(d, "line_number", 2);
    VibeCardsRoundTrip(it.vibeCards);
  }

  lemma RemListRoundTrip(l: RemList)
    ensures RemListFromDict(RemListToDict(l)) == Some(ExportList(l))
  {
    var d := RemListToDict(l);
    At(d, "list_type", 0);
    At(d, "category", 1);
    At(d, "items", 2);
    forall x | x in l.items ensures ListItemFromDict(ListItemToDict(x)) == Some(ExportItem(x)) {
      ListItemRoundTrip(x);
    }
    DecodeAllMap(ListItemToDict, ListItemFromDict, ExportItem, l.items);
  }

  function Same<T>(x: T): T {
    x
  }

  lemma {:induction false} MapSame<T>(xs: seq<T>)
    ensures Map(Same, xs) == xs
  {
    if |xs| > 0 {
      MapSame(xs[1..]);
      assert Map(Same, xs) == [xs[0]] + Map(Same, xs[1..]);
    }
  }

  lemma CodeBlocksRoundTrip(cs: seq<CodeBlock>)
    ensures DecodeAll(CodeBlockFromDict, Map(CodeBlockToDict, cs)) == Some(cs)
  {
    forall x | x in cs ensures CodeBlockFromDict(CodeBlockToDict(x)) == Some(Same(x)) {
      At(CodeBlockToDict(x), "language", 0);
      At(CodeBlockToDict(x), "content", 1);
    }
    DecodeAllMap(CodeBlockToDict, CodeBlockFromDict, Same, cs);
    MapSame(cs);
  }

  lemma InlinesRoundTrip(es: seq<(int, InlineExplanation)>)
    ensures DecodeAll(InlineFromEntry, Map(InlineEntry, es)) == Some(es)
  {
    forall x | x in es ensures InlineFromEntry(InlineEntry(x)) == Some(Same(x)) {
      At(InlineToDict(x.1), "line", 0);
      At(InlineToDict(x.1), "content", 1);
    }
    DecodeAllMap(InlineEntry, InlineFromEntry, Same, es);
    MapSame(es);
  }

  lemma RemListsRoundTrip(ls: seq<RemList>)
    ensures DecodeAll(RemListFromDict, Map(RemListToDict, ls)) == Some(Map(ExportList, ls))
  {
    forall x | x in ls ensures RemListFromDict(RemListToDict(x)) == Some(ExportList(x)) {
      RemListRoundTrip(x);
    }
    DecodeAllMap(RemListToDict, RemListFromDict, ExportList, ls);
  }

  /** The fields of a region's dictionary read back as written. */
  lemma RegionTextFields(r: Region)
    ensures var d := RegionToDict(r);
      Str(d, "name") == Some(r.name) && Str(d, "content") == Some(r.content) && Strs(d, "lines") == Some(r.lines)
  {
    var d := RegionToDict(r);
    At(d, "name", 0);
    At(d, "content", 1);
    At(d, "lines", 2);
    StrListRoundTrip(r.lines);
  }

  lemma RegionCardFields(r: Region)
    ensures var d := RegionToDict(r);
      Items(d, "vibe_cards") == Some(Map(VibeCardToDict, r.vibeCards)) && InlineEntries(d) == Some(r.inlineExplanations)
  {
    var d := RegionToDict(r);
    At(d, "vibe_cards", 3);
    At(d, "inline_explanations", 4);
    InlinesRoundTrip(r.inlineExplanations);
  }

  lemma RegionBlockFields(r: Region)
    ensures var d := RegionToDict(r);
      Items(d, "lists") == Some(Map(RemListToDict, r.lists)) && Items(d, "code_blocks") == Some(Map(CodeBlockToDict, r.codeBlocks))
  {
    var d := RegionToDict(r);
    At(d, "lists", 5);
    At(d, "code_blocks", 6);
  }

  lemma RegionRoundTrip(r: Region)
    ensures RegionFromDict(RegionToDict(r)) == Some(ExportRegion(r))
  {
    RegionTextFields(r);
    RegionCardFields(r);
    RegionBlockFields(r);
    VibeCardsRoundTrip(r.vibeCards);
    RemListsRoundTrip(r.lists);
    CodeBlocksRoundTrip(r.codeBlocks);
  }

  lemma LabelsRoundTrip(ls: seq<Label>)
    ensures DecodeAll(LabelFromDict, Map(LabelToDict, ls)) == Some(ls)
  {
    forall x | x in ls ensures LabelFromDict(LabelToDict(x)) == Some(Same(x)) {
      LabelRoundTrip(x);
    }
    DecodeAllMap(LabelToDict, LabelFromDict, Same, ls);
    MapSame(ls);
  }

  lemma RegionsRoundTrip(rs: seq<Region>)
    ensures DecodeAll(RegionFromDict, Map(RegionToDict, rs)) == Some(Map(ExportRegion, rs))
  {
    forall x | x in rs ensures RegionFromDict(RegionToDict(x)) == Some(ExportRegion(x)) {
      RegionRoundTrip(x);
    }
    DecodeAllMap(RegionToDict, RegionFromDict, ExportRegion, rs);
  }

  lemma MainCardRoundTrip(c: MainCard)
    ensures MainCardFromDict(MainCardToDict(c)) == Some(ExportCard(c))
  {
    var d := MainCardToDict(c);
    At(d, "theme", 0);
    At(d, "labels", 1);
    At(d, "regions", 2);
    At(d, "vibe_cards", 3);
    LabelsRoundTrip(c.labels);
    RegionsRoundTrip(c.regions);
    VibeCardsRoundTrip(c.vibeCards);
  }

  lemma MainCardsRoundTrip(cs: seq<MainCard>)
    ensures DecodeAll(MainCardFromDict, Map(MainCardToDict, cs)) == Some(Map(ExportCard, cs))
  {
    forall x | x in cs ensures MainCardFromDict(MainCardToDict(x)) == Some(ExportCard(x)) {
      MainCardRoundTrip(x);
    }
    DecodeAllMap(MainCardToDict, MainCardFromDict, ExportCard, cs);
  }

  lemma ArchiveRoundTrip(a: Archive)
    ensures ArchiveFromDict(ArchiveToDict(a)) == Some(ExportArchive(a))
  {
    var d := ArchiveToDict(a);
    At(d, "name", 0);
    At(d, "cards", 1);
    At(d, "description", 2);
    MainCardsRoundTrip(a.cards);
  }

  lemma VibeArchiveRoundTrip(a: VibeArchive)
    ensures VibeArchiveFromDict(VibeArchiveToDict(a)) == Some(ExportVibeArchive(a))
  {
    var d := VibeArchiveToDict(a);
    At(d, "name", 0);
    At(d, "cards", 1);
    At(d, "sources_lines", 2);
    MainCardsRoundTrip(a.cards);
    StrListRoundTrip(a.sourceLines);
  }

  /** `Document.to_dict` loses nothing but the fields the node projections
      drop; 'vibe_archive' is None exactly when there is no vibe archive. */
  lemma DocumentRoundTrip(d: Document)
    ensures DocumentFromDict(DocumentToDict(d)) == Some(ExportDocument(d))
    ensures Field(DocumentToDict(d), "vibe_archive") == Some(VNone) <==> d.vibeArchive.None?
  {
    var v := DocumentToDict(d);
    At(v, "title", 0);
    At(v, "archives", 1);
    At(v, "vibe_archive", 2);
    forall x | x in d.archives ensures ArchiveFromDict(ArchiveToDict(x)) == Some(ExportArchive(x)) {
      ArchiveRoundTrip(x);
    }
    DecodeAllMap(ArchiveToDict, ArchiveFromDict, ExportArchive, d.archives);
    if d.vibeArchive.Some? {
      VibeArchiveRoundTrip(d.vibeArchive.value);
    }
  }

  /** 'lines' of a list projection are the items' contents: as many as
      there are items, in the same order. */
  lemma RemListLinesMatchItems(l: RemList)
    ensures Items(RemListToDict(l), "items").Some? && Items(RemListToDict(l), "lines").Some?
    ensures |Items(RemListToDict(l), "items").value| == |Items(RemListToDict(l), "lines").value| == |l.items|
    ensures forall i :: 0 <= i < |l.items| ==>
      Field(Items(RemListToDict(l), "items").value[i], "content") == Some(Items(RemListToDict(l), "lines").value[i])
  {
    var d := RemListToDict(l);
    At(d, "items", 2);
    At(d, "lines", 3);
    forall i | 0 <= i < |l.items|
      ensures Field(Items(d, "items").value[i], "content") == Some(Items(d, "lines").value[i])
    {
      At(ListItemToDict(l.items[i]), "content", 0);
    }
  }

  /** A region made with the defaults projects empty vibe-card, list and
      code-block lists, an empty explanation dict, and its lines as given. */
  lemma NewRegionIsEmpty(name: string, content: string, lines: seq<string>)
    ensures Items(RegionToDict(NewRegion(name, content, lines)), "vibe_cards") == Some([])
    ensures Items(RegionToDict(NewRegion(name, content, lines)), "lists") == Some([])
    ensures Items(RegionToDict(NewRegion(name, content, lines)), "code_blocks") == Some([])
    ensures Field(RegionToDict(NewRegion(name, content, lines)), "inline_explanations") == Some(VDict([]))
    ensures Strs(RegionToDict(NewRegion(name, content, lines)), "lines") == Some(lines)
  {
    var d := RegionToDict(NewRegion(name, content, lines));
    At(d, "lines", 2);
    At(d, "vibe_cards", 3);
    At(d, "inline_explanations", 4);
    At(d, "lists", 5);
    At(d, "code_blocks", 6);
    StrListRoundTrip(lines);
  }
}
