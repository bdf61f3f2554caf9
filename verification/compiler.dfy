/** The compiler's own passes over a parsed document: structural validation
    (`_validate_ast_structure`), whole-word references from main cards to
    generated cards (`_enhance_vibe_links`, `_find_vibe_references`) and the
    counting statistics (`_calculate_vibe_stats`, `_calculate_document_stats`). */
module Compiler {
  import opened Wrappers
  import opened Text
  import opened Patterns
  import opened Values
  import opened Ast
  import Linker

  // ---------------------------------------------------------------------
  // Validation
  // ---------------------------------------------------------------------

  const NoArchivesError := "文档中没有归档"
  const BlankThemeError := "卡片主题不能为空"

  /** `not card.theme.strip()`. */
  predicate Blank(c: MainCard) {
    |Strip(c.theme)| == 0
  }

  predicate HasBlank(cs: seq<MainCard>) {
    exists j :: 0 <= j < |cs| && Blank(cs[j])
  }

  /** What validation reports: the warnings printed, in order, and the
      message raised, if any (the warnings printed before a raise stay printed). */
  datatype Checked = Checked(warnings: seq<string>, error: Option<string>)

  /** Reference definition: the names of the archives without cards, in
      document order, duplicates kept. */
  function EmptyNames(as_: seq<Archive>): (ns: seq<string>)
    ensures |ns| <= |as_|
    ensures forall n :: n in ns <==> exists i :: 0 <= i < |as_| && |as_[i].cards| == 0 && as_[i].name == n
  {
    if |as_| == 0 then []
    else
      var pre := as_[..|as_| - 1];
      assert forall i :: 0 <= i < |pre| ==> pre[i] == as_[i];
      EmptyNames(pre) + (if |as_[|as_| - 1].cards| == 0 then [as_[|as_| - 1].name] else [])
  }

  /** The loop over the archives from index `i`, with the warnings printed so
      far: an archive without cards prints its warning, then its cards are
      checked and the first blank theme raises. */
  function CheckFrom(as_: seq<Archive>, i: nat, printed: seq<string>): (r: Checked)
    requires i <= |as_|
    ensures |printed| <= |r.warnings| <= |printed| + |as_| - i
    decreases |as_| - i
  {
    if i == |as_| then Checked(printed, None)
    else
      var printed' := printed + (if |as_[i].cards| == 0 then [as_[i].name] else []);
      if HasBlank(as_[i].cards) then Checked(printed', Some(BlankThemeError))
      else CheckFrom(as_, i + 1, printed')
  }

  /** The first archive from index `i` holding a blank theme, or `|as_|`
      when there is none. */
  function FirstBlank(as_: seq<Archive>, i: nat): (k: nat)
    requires i <= |as_|
    ensures i <= k <= |as_|
    ensures forall j :: i <= j < k ==> !HasBlank(as_[j].cards)
    ensures k < |as_| ==> HasBlank(as_[k].cards)
    decreases |as_| - i
  {
    if i == |as_| || HasBlank(as_[i].cards) then i else FirstBlank(as_, i + 1)
  }

  /** One more archive adds its warning, if it has no cards, at the end. */
  lemma EmptyNamesStep(as_: seq<Archive>, i: nat)
    requires i < |as_|
    ensures EmptyNames(as_[..i + 1]) == EmptyNames(as_[..i]) + (if |as_[i].cards| == 0 then [as_[i].name] else [])
  {
    assert as_[..i + 1][..i] == as_[..i];
  }

  /** From index `i`, with the warnings of the archives before it printed,
      the loop raises exactly when an archive from `i` on holds a blank theme,
      and has then printed the warnings of the empty archives before that one. */
  lemma {:induction false} CheckFromSound(as_: seq<Archive>, i: nat, printed: seq<string>)
    requires i <= |as_| && printed == EmptyNames(as_[..i])
    ensures CheckFrom(as_, i, printed).error == if FirstBlank(as_, i) < |as_| then Some(BlankThemeError) else None
    ensures CheckFrom(as_, i, printed).warnings == EmptyNames(as_[..FirstBlank(as_, i)])
    decreases |as_| - i
  {
    if i < |as_| {
      EmptyNamesStep(as_, i);
      var printed' := printed + (if |as_[i].cards| == 0 then [as_[i].name] else []);
      if !HasBlank(as_[i].cards) {
        CheckFromSound(as_, i + 1, printed');
      }
    }
  }

  /** `_validate_ast_structure`'s loop over the archives: with no blank theme
      it prints exactly the warnings of the empty archives, in order;
      otherwise it raises at the first archive holding a blank theme, having
      printed the warnings of the empty archives before it. */
  function CheckArchives(as_: seq<Archive>): (r: Checked)
    ensures r.error.None? <==> forall i :: 0 <= i < |as_| ==> !HasBlank(as_[i].cards)
    ensures r.error.None? ==> r.warnings == EmptyNames(as_)
    ensures r.error.Some? ==> r.error.value == BlankThemeError && r.warnings == EmptyNames(as_[..FirstBlank(as_, 0)])
  {
    assert as_[..0] == [] && as_[..|as_|] == as_;
    CheckFromSound(as_, 0, []);
    CheckFrom(as_, 0, [])
  }

  /** `_validate_ast_structure`: no archives raises at once; otherwise the
      archives are checked in order. */
  function Validate(d: Document): (r: Checked)
    ensures r.error.Some? <==> |d.archives| == 0 || exists i, j :: 0 <= i < |d.archives| && 0 <= j < |d.archives[i].cards| && Blank(d.archives[i].cards[j])
    ensures r.error.Some? ==> r.error.value == if |d.archives| == 0 then NoArchivesError else BlankThemeError
    ensures |d.archives| == 0 ==> r.warnings == []
    ensures r.error.None? ==> r.warnings == EmptyNames(d.archives)
    ensures r.error.Some? && |d.archives| > 0 ==> r.warnings == EmptyNames(d.archives[..FirstBlank(d.archives, 0)])
  {
    if |d.archives| == 0 then Checked([], Some(NoArchivesError)) else CheckArchives(d.archives)
  }

  // ---------------------------------------------------------------------
  // References
  // ---------------------------------------------------------------------

  /** `re.search(r'\b' + re.escape(theme) + r'\b', content, re.IGNORECASE)`. */
  predicate Mentions(content: string, theme: string) {
    Search(Of(Word(theme)), content).Some?
  }

  /** The theme occurs in the content as a whole word, ignoring case,
      starting at index `i`. */
  predicate WholeWordAt(content: string, theme: string, i: nat) {
    && i + |theme| <= |content|
    && Boundary(content, i) && Boundary(content, i + |theme|)
    && EqualIgnoringCase(content[i..i + |theme|], theme)
  }

  /** The search finds the theme exactly when it occurs as a whole word
      somewhere in the content. */
  lemma MentionsWholeWord(content: string, theme: string)
    ensures Mentions(content, theme) <==> exists i: nat :: WholeWordAt(content, theme, i)
  {
    var f := Of(Word(theme));
    var r := SearchFrom(f, content, 0);
    if r.Some? {
      var i := r.value.start;
      assert f(content, i) == WordAt(content, i, theme);
      assert WholeWordAt(content, theme, i);
    }
    forall i: nat | WholeWordAt(content, theme, i) ensures Mentions(content, theme) {
      assert f(content, i) == WordAt(content, i, theme);
    }
  }

  /** The test `_find_vibe_references` applies to each theme of the set. */
  function Refers(content: string, themes: set<string>): string -> bool {
    (t: string) => t in themes && Mentions(content, t)
  }

  /** `_find_vibe_references`, the theme set iterated in the order `order`:
      the themes the content mentions. */
  function FindRefs(content: string, themes: set<string>, order: seq<string>): (r: seq<string>)
    ensures forall t :: t in r <==> t in order && t in themes && Mentions(content, t)
    ensures |r| <= |order|
  {
    Filter(Refers(content, themes), order)
  }

  /** No theme is reported twice when the order lists each theme once. */
  lemma FindRefsDistinct(content: string, themes: set<string>, order: seq<string>)
    requires Distinct(order)
    ensures Distinct(FindRefs(content, themes, order))
  {
    FilterDistinct(Refers(content, themes), order);
  }

  /** Without themes nothing is referred to. */
  lemma FindRefsNone(content: string, order: seq<string>)
    ensures FindRefs(content, {}, order) == []
  {
    FilterNone(Refers(content, {}), order);
  }

  // ---------------------------------------------------------------------
  // Reference labels
  // ---------------------------------------------------------------------

  /** The reference labels a card's regions call for, region by region. */
  function CardRefs(rs: seq<Region>, themes: set<string>, order: seq<string>): seq<Label> {
    if |rs| == 0 then [] else Map(Linker.LinkLabel, FindRefs(rs[0].content, themes, order)) + CardRefs(rs[1..], themes, order)
  }

  /** Some region of the list mentions the theme. */
  predicate MentionedIn(rs: seq<Region>, t: string) {
    exists k :: 0 <= k < |rs| && Mentions(rs[k].content, t)
  }

  /** A theme's reference label names that theme alone. */
  lemma LinkLabelInjective(t: string, t': string)
    requires Linker.LinkLabel(t) == Linker.LinkLabel(t')
    ensures t == t'
  {
    assert ("#" + t)[1..] == t && ("#" + t')[1..] == t';
  }

  /** The labels one region calls for are those of the themes it mentions. */
  lemma RegionRefsMembers(content: string, themes: set<string>, order: seq<string>, t: string)
    ensures Linker.LinkLabel(t) in Map(Linker.LinkLabel, FindRefs(content, themes, order)) <==> t in order && t in themes && Mentions(content, t)
  {
    var found := FindRefs(content, themes, order);
    var here := Map(Linker.LinkLabel, found);
    if Linker.LinkLabel(t) in here {
      var p :| 0 <= p < |here| && here[p] == Linker.LinkLabel(t);
      LinkLabelInjective(t, found[p]);
      assert found[p] in found;
    }
    if t in found {
      var p :| 0 <= p < |found| && found[p] == t;
      assert here[p] == Linker.LinkLabel(t);
    }
  }

  /** A card's regions call for a theme's label exactly when the theme is
      in the set and the order and some region mentions it. */
  lemma {:induction false} CardRefsMembers(rs: seq<Region>, themes: set<string>, order: seq<string>, t: string)
    ensures Linker.LinkLabel(t) in CardRefs(rs, themes, order) <==> t in order && t in themes && MentionedIn(rs, t)
  {
    if |rs| > 0 {
      CardRefsMembers(rs[1..], themes, order, t);
      RegionRefsMembers(rs[0].content, themes, order, t);
      if MentionedIn(rs, t) && !Mentions(rs[0].content, t) {
        var k :| 0 <= k < |rs| && Mentions(rs[k].content, t);
        assert rs[1..][k - 1] == rs[k];
      }
      if MentionedIn(rs[1..], t) {
        var k :| 0 <= k < |rs[1..]| && Mentions(rs[1..][k].content, t);
        assert rs[1..][k] == rs[k + 1];
      }
    }
  }

  /** Every label a card's regions call for is some theme's reference label. */
  lemma {:induction false} CardRefsAreLinks(rs: seq<Region>, themes: set<string>, order: seq<string>, l: Label)
    requires l in CardRefs(rs, themes, order)
    ensures exists t :: l == Linker.LinkLabel(t)
  {
    var here := Map(Linker.LinkLabel, FindRefs(rs[0].content, themes, order));
    if l in here {
      var p :| 0 <= p < |here| && here[p] == l;
    } else {
      CardRefsAreLinks(rs[1..], themes, order, l);
    }
  }

  /** `if label not in card.labels: card.labels.append(label)`, for each
      label in turn. */
  function AddMissing(ls: seq<Label>, xs: seq<Label>): (r: seq<Label>)
    ensures ls <= r
    ensures forall l :: l in r <==> l in ls || l in xs
    decreases |xs|
  {
    if |xs| == 0 then ls
    else
      var next := if xs[0] in ls then ls else ls + [xs[0]];
      var r := AddMissing(next, xs[1..]);
      assert forall l :: l in xs <==> l == xs[0] || l in xs[1..];
      r
  }

  /** Labels already present are never appended again. */
  lemma {:induction false} AddMissingPresent(ls: seq<Label>, xs: seq<Label>)
    requires forall x :: x in xs ==> x in ls
    ensures AddMissing(ls, xs) == ls
    decreases |xs|
  {
    if |xs| > 0 {
      assert xs[0] in xs;
      assert forall x :: x in xs[1..] ==> x in xs;
      AddMissingPresent(ls, xs[1..]);
    }
  }

  /** A label list without repeats stays without repeats. */
  lemma {:induction false} AddMissingDistinct(ls: seq<Label>, xs: seq<Label>)
    requires Distinct(ls)
    ensures Distinct(AddMissing(ls, xs))
    decreases |xs|
  {
    if |xs| > 0 {
      if xs[0] in ls {
        assert AddMissing(ls, xs) == AddMissing(ls, xs[1..]);
        AddMissingDistinct(ls, xs[1..]);
      } else {
        var next := ls + [xs[0]];
        forall i, j | 0 <= i < j < |next| ensures next[i] != next[j] {
          assert next[i] == ls[i];
          if j == |ls| {
            assert ls[i] in ls;
          } else {
            assert next[j] == ls[j];
          }
        }
        assert AddMissing(ls, xs) == AddMissing(next, xs[1..]);
        AddMissingDistinct(next, xs[1..]);
      }
    }
  }

  function EnhanceCard(c: MainCard, themes: set<string>, order: seq<string>): MainCard {
    c.(labels := AddMissing(c.labels, CardRefs(c.regions, themes, order)))
  }

  function EnhanceCards(cs: seq<MainCard>, themes: set<string>, order: seq<string>): (r: seq<MainCard>)
    ensures |r| == |cs| && forall i :: 0 <= i < |cs| ==> r[i] == EnhanceCard(cs[i], themes, order)
  {
    if |cs| == 0 then [] else [EnhanceCard(cs[0], themes, order)] + EnhanceCards(cs[1..], themes, order)
  }

  function EnhanceArchives(as_: seq<Archive>, themes: set<string>, order: seq<string>): (r: seq<Archive>)
    ensures |r| == |as_| && forall i :: 0 <= i < |as_| ==> r[i] == as_[i].(cards := EnhanceCards(as_[i].cards, themes, order))
  {
    if |as_| == 0 then [] else [as_[0].(cards := EnhanceCards(as_[0].cards, themes, order))] + EnhanceArchives(as_[1..], themes, order)
  }

  /** `_enhance_vibe_links` as intended, the theme set iterated in the order
      `order`: every main card gains the reference labels its regions call
      for that it does not already carry. */
  function Enhance(d: Document, order: seq<string>): Document {
    d.(archives := EnhanceArchives(d.archives, Linker.Themes(d), order))
  }

  /** The pass only appends labels: archives, cards, their themes, regions
      and annotations, and the generated archive stay as they are, and each
      card's labels keep their order and come first. */
  lemma EnhanceOnlyAppends(d: Document, order: seq<string>)
    ensures var e := Enhance(d, order);
      && e.title == d.title && e.vibeArchive == d.vibeArchive && |e.archives| == |d.archives|
      && forall i :: 0 <= i < |d.archives| ==>
        && e.archives[i].name == d.archives[i].name && e.archives[i].description == d.archives[i].description
        && |e.archives[i].cards| == |d.archives[i].cards|
        && forall j :: 0 <= j < |d.archives[i].cards| ==>
          var c, c' := d.archives[i].cards[j], e.archives[i].cards[j];
          c'.theme == c.theme && c'.regions == c.regions && c'.vibeCards == c.vibeCards && c'.metadata == c.metadata
          && c.labels <= c'.labels
  {
  }

  /** A card ends up carrying a theme's reference label exactly when it
      already did or the theme is a generated card's (lower-cased) theme,
      listed in the iteration order, that one of its regions mentions. */
  lemma EnhanceLinks(d: Document, order: seq<string>, i: nat, j: nat, t: string)
    requires i < |d.archives| && j < |d.archives[i].cards|
    ensures var c, c' := d.archives[i].cards[j], Enhance(d, order).archives[i].cards[j];
      Linker.LinkLabel(t) in c'.labels <==>
        || Linker.LinkLabel(t) in c.labels
        || (t in order && t in Linker.Themes(d) && MentionedIn(c.regions, t))
  {
    var c := d.archives[i].cards[j];
    CardRefsMembers(c.regions, Linker.Themes(d), order, t);
  }

  /** Running the pass twice adds nothing the first run did not. */
  lemma EnhanceIdempotent(d: Document, order: seq<string>)
    ensures Enhance(Enhance(d, order), order) == Enhance(d, order)
  {
    var e := Enhance(d, order);
    var themes := Linker.Themes(d);
    assert Linker.Themes(e) == themes;
    forall i | 0 <= i < |d.archives|
      ensures EnhanceCards(e.archives[i].cards, themes, order) == e.archives[i].cards
    {
      EnhanceCardsTwice(d.archives[i].cards, themes, order);
    }
  }

  /** A list of cards enhanced twice with the same themes is the list
      enhanced once. */
  lemma EnhanceCardsTwice(cs: seq<MainCard>, themes: set<string>, order: seq<string>)
    ensures var once := EnhanceCards(cs, themes, order); EnhanceCards(once, themes, order) == once
  {
    var once := EnhanceCards(cs, themes, order);
    forall j | 0 <= j < |cs|
      ensures EnhanceCard(once[j], themes, order) == once[j]
    {
      var refs := CardRefs(cs[j].regions, themes, order);
      AddMissingPresent(AddMissing(cs[j].labels, refs), refs);
    }
  }

  /** Without a generated archive there is nothing to refer to, and the
      document comes back as it was. */
  lemma EnhanceWithoutVibeArchive(d: Document, order: seq<string>)
    requires d.vibeArchive.None?
    ensures Enhance(d, order) == d
  {
    forall i | 0 <= i < |d.archives|
      ensures EnhanceCards(d.archives[i].cards, {}, order) == d.archives[i].cards
    {
      var cs := d.archives[i].cards;
      forall j | 0 <= j < |cs|
        ensures EnhanceCard(cs[j], {}, order) == cs[j]
      {
        NoRefs(cs[j].regions, order);
        AddMissingPresent(cs[j].labels, []);
      }
    }
  }

  lemma {:induction false} NoRefs(rs: seq<Region>, order: seq<string>)
    ensures CardRefs(rs, {}, order) == []
  {
    if |rs| > 0 {
      NoRefs(rs[1..], order);
      FindRefsNone(rs[0].content, order);
    }
  }

  /** `_enhance_vibe_links` as written: the label is built with the keyword
      `type=`, which `Label` does not declare, so the first reference found
      raises TypeError before anything is appended. */
  function WrittenEnhance(d: Document, order: seq<string>): (r: Result<Document, string>)
    ensures r.Success? ==> r.value == d
  {
    if exists i, j :: 0 <= i < |d.archives| && 0 <= j < |d.archives[i].cards|
        && |CardRefs(d.archives[i].cards[j].regions, Linker.Themes(d), order)| > 0
    then Failure("TypeError")
    else Success(d)
  }

  /** `_process_vibe_cards` as written: the annotation pass, then the
      reference pass, whose exception is caught and reported, leaving the
      annotated document. */
  function WrittenProcessVibes(d: Document, order: seq<string>): Document {
    var linked := Linker.Process(d, order);
    match WrittenEnhance(linked, order)
    case Success(e) => e
    case Failure(_) => linked
  }

  /** As written, the reference pass never adds a label: either there is no
      reference to add, or building the first one raises. */
  lemma WrittenEnhanceNeverLinks(d: Document, order: seq<string>)
    ensures WrittenProcessVibes(d, order) == Linker.Process(d, order)
  {
  }

  /** Whereas when a card's region mentions a generated card's theme, the
      intended pass gives that card the reference label and the written one
      raises. */
  lemma WrittenEnhanceRaises(d: Document, order: seq<string>, i: nat, j: nat, k: nat, t: string)
    requires i < |d.archives| && j < |d.archives[i].cards| && k < |d.archives[i].cards[j].regions|
    requires t in order && t in Linker.Themes(d) && Mentions(d.archives[i].cards[j].regions[k].content, t)
    ensures WrittenEnhance(d, order).Failure?
    ensures Linker.LinkLabel(t) in Enhance(d, order).archives[i].cards[j].labels
  {
    var c := d.archives[i].cards[j];
    CardRefsMembers(c.regions, Linker.Themes(d), order, t);
    assert Linker.LinkLabel(t) in CardRefs(c.regions, Linker.Themes(d), order);
  }

  /** `_process_vibe_cards` as intended. */
  function ProcessVibes(d: Document, order: seq<string>): Document {
    Enhance(Linker.Process(d, order), order)
  }

  // ---------------------------------------------------------------------
  // Statistics
  // ---------------------------------------------------------------------

  /** `sum(f(x) for x in xs)`. */
  function Sum<T>(f: T -> nat, xs: seq<T>): nat {
    if |xs| == 0 then 0 else f(xs[0]) + Sum(f, xs[1..])
  }

  lemma {:induction false} SumSnoc<T>(f: T -> nat, xs: seq<T>, x: T)
    ensures Sum(f, xs + [x]) == Sum(f, xs) + f(x)
  {
    if |xs| > 0 {
      assert (xs + [x])[1..] == xs[1..] + [x];
      SumSnoc(f, xs[1..], x);
    }
  }

  /** Extending a prefix by one element adds that element's count. */
  lemma SumPrefix<T>(f: T -> nat, xs: seq<T>, i: nat)
    requires i < |xs|
    ensures Sum(f, xs[..i + 1]) == Sum(f, xs[..i]) + f(xs[i])
  {
    assert xs[..i + 1] == xs[..i] + [xs[i]];
    SumSnoc(f, xs[..i], xs[i]);
  }

  function RegionVibes(r: Region): nat { |r.vibeCards| }
  function CardVibeCount(c: MainCard): nat { |c.vibeCards| + Sum(RegionVibes, c.regions) }
  function ArchiveVibes(a: Archive): nat { Sum(CardVibeCount, a.cards) }
  function CardCount(a: Archive): nat { |a.cards| }
  function RegionCount(c: MainCard): nat { |c.regions| }
  function LabelCount(c: MainCard): nat { |c.labels| }
  function ArchiveRegions(a: Archive): nat { Sum(RegionCount, a.cards) }
  function ArchiveLabels(a: Archive): nat { Sum(LabelCount, a.cards) }

  datatype VibeStats = VibeStats(totalVibes: nat, generatedCards: nat, vibeLinks: nat)

  datatype DocStats = DocStats(totalArchives: nat, totalCards: nat, totalRegions: nat, totalLabels: nat, vibes: VibeStats)

  /** The cards the annotation pass generated, or 0 without a generated archive. */
  function GeneratedCards(d: Document): nat {
    match d.vibeArchive case Some(va) => |va.cards| case None => 0
  }

  /** `_calculate_vibe_stats`: every annotation of a main card, whether
      recorded on the card or on one of its regions, and the generated cards. */
  method CalculateVibeStats(d: Document) returns (s: VibeStats)
    ensures s.totalVibes == Sum(ArchiveVibes, d.archives)
    ensures s.generatedCards == GeneratedCards(d)
    ensures s.vibeLinks == 0
  {
    var total := 0;
    var i := 0;
    while i < |d.archives|
      invariant i <= |d.archives|
      invariant total == Sum(ArchiveVibes, d.archives[..i])
    {
      var cards := d.archives[i].cards;
      var j := 0;
      while j < |cards|
        invariant j <= |cards|
        invariant total == Sum(ArchiveVibes, d.archives[..i]) + Sum(CardVibeCount, cards[..j])
      {
        var base := total;
        total := total + |cards[j].vibeCards|;
        var regions := cards[j].regions;
        var k := 0;
        while k < |regions|
          invariant k <= |regions|
          invariant total == base + |cards[j].vibeCards| + Sum(RegionVibes, regions[..k])
        {
          total := total + |regions[k].vibeCards|;
          SumPrefix(RegionVibes, regions, k);
          k := k + 1;
        }
        assert regions[..k] == regions;
        SumPrefix(CardVibeCount, cards, j);
        j := j + 1;
      }
      assert cards[..j] == cards;
      SumPrefix(ArchiveVibes, d.archives, i);
      i := i + 1;
    }
    assert d.archives[..i] == d.archives;
    var generated := 0;
    if d.vibeArchive.Some? {
      generated := |d.vibeArchive.value.cards|;
    }
    s := VibeStats(total, generated, 0);
  }

  /** `_calculate_document_stats`: the archives, and the cards, regions and
      labels of every main card, followed by the annotation statistics. */
  method CalculateDocumentStats(d: Document) returns (s: DocStats)
    ensures s.totalArchives == |d.archives|
    ensures s.totalCards == Sum(CardCount, d.archives)
    ensures s.totalRegions == Sum(ArchiveRegions, d.archives)
    ensures s.totalLabels == Sum(ArchiveLabels, d.archives)
    ensures s.vibes.totalVibes == Sum(ArchiveVibes, d.archives) && s.vibes.generatedCards == GeneratedCards(d)
  {
    var cards := 0;
    var i := 0;
    while i < |d.archives|
      invariant i <= |d.archives|
      invariant cards == Sum(CardCount, d.archives[..i])
    {
      cards := cards + |d.archives[i].cards|;
      SumPrefix(CardCount, d.archives, i);
      i := i + 1;
    }
    assert d.archives[..i] == d.archives;
    var regions, labels := 0, 0;
    i := 0;
    while i < |d.archives|
      invariant i <= |d.archives|
      invariant regions == Sum(ArchiveRegions, d.archives[..i])
      invariant labels == Sum(ArchiveLabels, d.archives[..i])
    {
      var cs := d.archives[i].cards;
      var j := 0;
      while j < |cs|
        invariant j <= |cs|
        invariant regions == Sum(ArchiveRegions, d.archives[..i]) + Sum(RegionCount, cs[..j])
        invariant labels == Sum(ArchiveLabels, d.archives[..i]) + Sum(LabelCount, cs[..j])
      {
        regions := regions + |cs[j].regions|;
        labels := labels + |cs[j].labels|;
        SumPrefix(RegionCount, cs, j);
        SumPrefix(LabelCount, cs, j);
        j := j + 1;
      }
      assert cs[..j] == cs;
      SumPrefix(ArchiveRegions, d.archives, i);
      SumPrefix(ArchiveLabels, d.archives, i);
      i := i + 1;
    }
    assert d.archives[..i] == d.archives;
    var vibes := CalculateVibeStats(d);
    s := DocStats(|d.archives|, cards, regions, labels, vibes);
  }

  /** The reference pass changes no count but the labels', which can only grow. */
  lemma EnhanceKeepsCounts(d: Document, order: seq<string>)
    ensures var e := Enhance(d, order);
      && Sum(CardCount, e.archives) == Sum(CardCount, d.archives)
      && Sum(ArchiveRegions, e.archives) == Sum(ArchiveRegions, d.archives)
      && Sum(ArchiveVibes, e.archives) == Sum(ArchiveVibes, d.archives)
      && Sum(ArchiveLabels, e.archives) >= Sum(ArchiveLabels, d.archives)
      && GeneratedCards(e) == GeneratedCards(d)
  {
    var e := Enhance(d, order);
    EnhanceOnlyAppends(d, order);
    SumsAgree(d.archives, e.archives);
  }

  /** Two archive lists that agree card by card on everything but labels,
      whose labels only grow, have the same counts and no fewer labels. */
  lemma {:induction false} SumsAgree(as_: seq<Archive>, bs: seq<Archive>)
    requires |as_| == |bs|
    requires forall i :: 0 <= i < |as_| ==> (
      && |as_[i].cards| == |bs[i].cards|
      && forall j :: 0 <= j < |as_[i].cards| ==>
        var c, c' := as_[i].cards[j], bs[i].cards[j];
        c'.regions == c.regions && c'.vibeCards == c.vibeCards && c.labels <= c'.labels)
    ensures Sum(CardCount, bs) == Sum(CardCount, as_)
    ensures Sum(ArchiveRegions, bs) == Sum(ArchiveRegions, as_)
    ensures Sum(ArchiveVibes, bs) == Sum(ArchiveVibes, as_)
    ensures Sum(ArchiveLabels, bs) >= Sum(ArchiveLabels, as_)
  {
    if |as_| > 0 {
      SumsAgree(as_[1..], bs[1..]);
      CardSumsAgree(as_[0].cards, bs[0].cards);
    }
  }

  lemma {:induction false} CardSumsAgree(cs: seq<MainCard>, ds: seq<MainCard>)
    requires |cs| == |ds|
    requires forall j :: 0 <= j < |cs| ==> ds[j].regions == cs[j].regions && ds[j].vibeCards == cs[j].vibeCards && cs[j].labels <= ds[j].labels
    ensures Sum(RegionCount, ds) == Sum(RegionCount, cs)
    ensures Sum(CardVibeCount, ds) == Sum(CardVibeCount, cs)
    ensures Sum(LabelCount, ds) >= Sum(LabelCount, cs)
  {
    if |cs| > 0 {
      CardSumsAgree(cs[1..], ds[1..]);
    }
  }
}
