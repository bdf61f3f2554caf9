/** The line-driven parser (`RemUpParser`). It does not read the tokenizer's
    output: each line is stripped and matched against the parser's own
    patterns, and a handler moves an explicit parse state. The parse is a
    fold of `Step` over the lines, followed by the annotation pass.

    The source keeps the open archive, card and region as objects that are
    also reachable from the archive list, and mutates them in place. Here the
    open card is always the last card of the open archive and the open
    region the last region of that card (only the handlers that open them
    append cards and regions), so the state records whether they are open
    and where the open archive is: at a position of the list, or not listed
    because an equal archive was already there (`not in` compares values). */
module Parser {
  import opened Wrappers
  import opened Text
  import opened Patterns
  import opened Values
  import opened Ast
  import Lexer
  import Linker

  // ---------------------------------------------------------------------
  // Patterns (`PATTERNS`), applied with `re.match` to a stripped line
  // ---------------------------------------------------------------------

  /** The capture groups of a line pattern. */
  datatype Groups = Groups(g1: string, g2: string)

  /** The line patterns, by the name the source gives each. */
  datatype LinePattern =
    | ArchiveLine | CardStartLine | CardEndLine | LabelLine | RegionLine | VibeCardLine
    | InlineLine | CommentLine | CodeStartLine | CodeEndLine | EmptyLine

  function Name(p: LinePattern): string {
    match p
    case ArchiveLine => "archive"
    case CardStartLine => "card_start"
    case CardEndLine => "card_end"
    case LabelLine => "label"
    case RegionLine => "region"
    case VibeCardLine => "vibe_card"
    case InlineLine => "inline_explanation"
    case CommentLine => "comment"
    case CodeStartLine => "code_block_start"
    case CodeEndLine => "code_block_end"
    case EmptyLine => "empty_line"
  }

  /** The patterns in the order the dispatch loop tries them (the order of
      the pattern table). */
  const PatternOrder: seq<LinePattern> := [ArchiveLine, CardStartLine, CardEndLine, LabelLine, RegionLine,
    VibeCardLine, InlineLine, CommentLine, CodeStartLine, CodeEndLine, EmptyLine]

  /** `^\s*#`. */
  predicate IsComment(l: string) {
    var t := LStrip(l);
    |t| > 0 && t[0] == '#'
  }

  /** `^---\s*(\w+)\s*$`. */
  function RegionMatch(l: string): (r: Option<string>)
    ensures r.Some? ==> |r.value| > 0 && Lexer.AllWord(r.value)
  {
    if |l| >= 3 && l[..3] == "---" then
      var k := SkipSpaces(l, 3);
      var e := WordEnd(l, k);
      if e > k && AllSpace(l[e..]) then Some(l[k..e]) else None
    else None
  }

  /** Where the run of word characters starting at `k` ends. */
  function WordEnd(l: string, k: nat): (e: nat)
    requires k <= |l|
    ensures k <= e <= |l| && Lexer.AllWord(l[k..e]) && (e < |l| ==> !IsWordChar(l[e]))
    decreases |l| - k
  {
    if k < |l| && IsWordChar(l[k]) then
      var e := WordEnd(l, k + 1);
      assert l[k..e] == [l[k]] + l[k + 1..e];
      e
    else k
  }

  /** `^\(([^:]+):\s*([^)]+)\)\s*$`: the first group runs to the first ':'; the
      second from the whitespace after it to the first ')', keeping one
      character when only whitespace lies between; after the ')' only
      whitespace may follow. */
  function LabelMatch(l: string): (r: Option<Groups>)
    ensures r.Some? ==> |r.value.g1| > 0 && ':' !in r.value.g1 && |r.value.g2| > 0 && ')' !in r.value.g2
  {
    if |l| >= 1 && l[0] == '(' then
      match FirstFrom(l, 1, {':'})
      case Some(c) =>
        if c >= 2 then
          match FirstFrom(l, c + 1, {')'})
          case Some(q) =>
            if q > c + 1 && AllSpace(l[q + 1..]) then
              var b := l[c + 1..q];
              NoStopBetween(l, 1, c, {':'});
              NoStopBetween(l, c + 1, q, {')'});
              Some(Groups(l[1..c], LabelTail(b)))
            else None
          case None => None
        else None
      case None => None
    else None
  }

  /** The second group of a label, from the text between ':' and ')': it
      starts after the leading whitespace, but keeps the last character when
      the text is all whitespace. */
  function LabelTail(b: string): (g: string)
    requires |b| > 0
    ensures |g| > 0 && forall x :: x in g ==> x in b
  {
    if AllSpace(b) then b[|b| - 1..] else b[LeadCount(b)..]
  }

  /** `^```\s*$`. */
  predicate FenceClose(l: string) {
    |l| >= 3 && l[..3] == "```" && AllSpace(l[3..])
  }

  function Opt(r: Option<string>): Option<Groups> {
    match r case Some(g) => Some(Groups(g, "")) case None => None
  }

  function Flag(b: bool): Option<Groups> {
    if b then Some(Groups("", "")) else None
  }

  /** The groups of pattern `p` matched at the start of a stripped line. The
      archive, card and fence patterns are the tokenizer's without its
      leading `\s*`, which makes no difference on a stripped line. */
  function MatchPattern(p: LinePattern, l: string): Option<Groups> {
    match p
    case ArchiveLine => Opt(Lexer.ArchiveHead(l))
    case CardStartLine => Opt(Lexer.CardHead(l))
    case CardEndLine => Flag(Lexer.IsCardClose(l))
    case LabelLine => LabelMatch(l)
    case RegionLine => Opt(RegionMatch(l))
    case VibeCardLine => Flag(VibeAt(l, 0, true).Some?)
    case InlineLine => Flag(AsideAt(l, 0).Some?)
    case CommentLine => Flag(IsComment(l))
    case CodeStartLine => Opt(Lexer.FenceLang(l))
    case CodeEndLine => Flag(FenceClose(l))
    case EmptyLine => Flag(AllSpace(l))
  }

  /** A matcher: the groups of a pattern matched on a line, if it matches. */
  type Matcher = (LinePattern, string) -> Option<Groups>

  /** The first pattern, from position `k` of the order on, that `m`
      matches on `l`: its position and groups. */
  function FirstIn(m: Matcher, l: string, k: nat): (r: Option<(nat, Groups)>)
    requires k <= |PatternOrder|
    ensures r.Some? ==> k <= r.value.0 < |PatternOrder|
    decreases |PatternOrder| - k
  {
    if k == |PatternOrder| then None
    else
      match m(PatternOrder[k], l)
      case Some(g) => Some((k, g))
      case None => FirstIn(m, l, k + 1)
  }

  /** The hit is a pattern that matches, and no pattern tried before it
      matches; with no hit, no pattern matches. */
  lemma {:induction false} FirstInFirst(m: Matcher, l: string, k: nat)
    requires k <= |PatternOrder|
    ensures var r := FirstIn(m, l, k);
      && (r.Some? ==> m(PatternOrder[r.value.0], l) == Some(r.value.1))
      && (r.Some? ==> forall j :: k <= j < r.value.0 ==> m(PatternOrder[j], l).None?)
      && (r.None? ==> forall j :: k <= j < |PatternOrder| ==> m(PatternOrder[j], l).None?)
    decreases |PatternOrder| - k
  {
    if k < |PatternOrder| && m(PatternOrder[k], l).None? {
      FirstInFirst(m, l, k + 1);
    }
  }

  /** Conversely, a pattern that matches after patterns that all fail is
      the hit. */
  lemma {:induction false} FirstInAt(m: Matcher, l: string, k: nat, j: nat)
    requires k <= j < |PatternOrder| && m(PatternOrder[j], l).Some?
    requires forall i :: k <= i < j ==> m(PatternOrder[i], l).None?
    ensures FirstIn(m, l, k) == Some((j, m(PatternOrder[j], l).value))
    decreases j - k
  {
    if k < j {
      FirstInAt(m, l, k + 1, j);
    }
  }

  // ---------------------------------------------------------------------
  // Dispatch (`_process_line`)
  // ---------------------------------------------------------------------

  datatype Handler = ArchiveStart | CardStart | CardEnd | LabelHandler | RegionStart | CodeBlockStart | Default

  /** The handler each pattern is meant to reach; the patterns without a
      handler of their own fall back to `_process_default`. */
  function Intended(p: LinePattern): Handler {
    match p
    case ArchiveLine => ArchiveStart
    case CardStartLine => CardStart
    case CardEndLine => CardEnd
    case LabelLine => LabelHandler
    case RegionLine => RegionStart
    case CodeStartLine => CodeBlockStart
    case _ => Default
  }

  /** The methods of `RemUpParser` by name, with the number of arguments each
      takes after `self`. */
  const Methods: map<string, nat> := map[
    "_process_archive_start" := 3, "_extract_archive_description" := 2, "_process_card_start" := 3,
    "_process_card_end" := 2, "_process_region_start" := 3, "_process_label" := 3,
    "_process_code_block_start" := 3, "_process_code_block_line" := 3, "_process_code_block_end" := 2,
    "_process_line" := 3, "_extract_vibe_cards_from_line" := 3, "_extract_card_metadata" := 2,
    "_determine_label_type" := 1, "_process_default" := 3]

  /** What the dispatch loop does as written: it looks up
      `_process_<pattern name>` and calls it with three arguments, or falls
      back to `_process_default` when no such method exists. */
  datatype Call = Invoke(name: string) | Fallback | ArityError(name: string)

  function WrittenCall(p: LinePattern): Call {
    var m := "_process_" + Name(p);
    if m !in Methods then Fallback
    else if Methods[m] == 3 then Invoke(m)
    else ArityError(m)
  }

  /** The handler behind a method the lookup finds. */
  function HandlerOf(m: string): Handler {
    if m == "_process_archive_start" then ArchiveStart
    else if m == "_process_card_start" then CardStart
    else if m == "_process_card_end" then CardEnd
    else if m == "_process_label" then LabelHandler
    else if m == "_process_region_start" then RegionStart
    else if m == "_process_code_block_start" then CodeBlockStart
    else Default
  }

  /** As written, the lookup misses the archive and region handlers (they are
      named `_start`), so those lines fall through to the default handler; it
      finds `_process_card_end` but calls it with one argument too many,
      which raises. */
  lemma WrittenDispatchMisses()
    ensures WrittenCall(ArchiveLine) == Fallback && Intended(ArchiveLine) == ArchiveStart
    ensures WrittenCall(RegionLine) == Fallback && Intended(RegionLine) == RegionStart
    ensures WrittenCall(CardEndLine) == ArityError("_process_card_end") && Intended(CardEndLine) == CardEnd
  {
    assert "_process_" + "archive" == "_process_archive" && "_process_archive" !in Methods;
    assert "_process_" + "region" == "_process_region" && "_process_region" !in Methods;
    assert "_process_" + "card_end" == "_process_card_end";
  }

  /** The card, label and fence-opening patterns reach their handlers. */
  lemma WrittenDispatchFinds(p: LinePattern)
    requires p == CardStartLine || p == LabelLine || p == CodeStartLine
    ensures WrittenCall(p).Invoke?
    ensures HandlerOf(WrittenCall(p).name) == Intended(p) != Default
  {
    if p == CardStartLine {
      WrittenFinds(p, "_process_card_start");
    } else if p == LabelLine {
      WrittenFinds(p, "_process_label");
    } else {
      WrittenFinds(p, "_process_code_block_start");
    }
  }

  /** The pattern's method name is the one the lookup finds. */
  lemma WrittenFinds(p: LinePattern, m: string)
    requires m == "_process_" + Name(p) && m in Methods && Methods[m] == 3
    ensures WrittenCall(p) == Invoke(m)
  {
  }

  /** The patterns without a handler of their own fall back to the default
      one, as meant. With `WrittenDispatchMisses`, `WrittenDispatchFinds` and
      `FenceCloseShadowed` (`code_block_end` is never the first to match),
      this covers every pattern. */
  lemma WrittenDispatchFallsBack(p: LinePattern)
    requires p == VibeCardLine || p == InlineLine || p == CommentLine || p == EmptyLine
    ensures WrittenCall(p) == Fallback && Intended(p) == Default
  {
    if p == VibeCardLine {
      VibeCardFallsBack();
    } else if p == InlineLine {
      InlineFallsBack();
    } else if p == CommentLine {
      CommentFallsBack();
    } else {
      EmptyFallsBack();
    }
  }

  /** A method name the lookup does not know falls back to the default handler. */
  lemma WrittenMisses(p: LinePattern, m: string)
    requires m == "_process_" + Name(p) && m !in Methods
    ensures WrittenCall(p) == Fallback
  {
  }

  lemma VibeCardFallsBack()
    ensures WrittenCall(VibeCardLine) == Fallback
  {
    WrittenMisses(VibeCardLine, "_process_vibe_card");
  }

  lemma InlineFallsBack()
    ensures WrittenCall(InlineLine) == Fallback
  {
    WrittenMisses(InlineLine, "_process_inline_explanation");
  }

  lemma CommentFallsBack()
    ensures WrittenCall(CommentLine) == Fallback
  {
    WrittenMisses(CommentLine, "_process_comment");
  }

  lemma EmptyFallsBack()
    ensures WrittenCall(EmptyLine) == Fallback
  {
    WrittenMisses(EmptyLine, "_process_empty_line");
  }

  /** A closing fence also matches the opening-fence pattern, which is tried
      first, so outside a code block it opens a block. */
  lemma FenceCloseShadowed(l: string)
    requires Stripped(l) && FenceClose(l)
    ensures MatchPattern(CodeStartLine, l) == Some(Groups("", ""))
  {
    assert l == "```";
    StripOfStripped(l);
    assert SkipSpaces(l, 3) == 3;
  }

  // ---------------------------------------------------------------------
  // The parse state (`ParseState` plus the parser's archive list)
  // ---------------------------------------------------------------------

  /** Where the open archive (`current_archive`) is. */
  datatype Cursor = NoArchive | Registered(index: nat) | Detached(archive: Archive)

  /** What the source logs as a warning. */
  datatype Warning = RegionOutsideCard(line: nat) | LabelOutsideCard(line: nat) | CardWithoutRegions(theme: string)

  datatype PState = PState(
    archives: seq<Archive>,
    cursor: Cursor,
    inCard: bool,
    inRegion: bool,
    lineNum: nat,
    inCode: bool,
    lang: string,
    buf: seq<string>,
    warnings: seq<Warning>)

  const Init := PState([], NoArchive, false, false, 0, false, "", [], [])

  const DefaultArchiveName := "默认归档"

  predicate CursorOk(st: PState) {
    st.cursor.Registered? ==> st.cursor.index < |st.archives|
  }

  /** The open archive. */
  function Arc(st: PState): Archive
    requires CursorOk(st) && !st.cursor.NoArchive?
  {
    match st.cursor
    case Registered(i) => st.archives[i]
    case Detached(a) => a
  }

  function Last<T>(xs: seq<T>): T
    requires |xs| > 0
  {
    xs[|xs| - 1]
  }

  /** `xs` with its last element replaced. */
  function SetLast<T>(xs: seq<T>, x: T): (r: seq<T>)
    requires |xs| > 0
    ensures |r| == |xs| && Last(r) == x
    ensures forall i :: 0 <= i < |xs| - 1 ==> r[i] == xs[i]
  {
    xs[..|xs| - 1] + [x]
  }

  /** What holds in every state the parse reaches: the open card and region
      exist, and an archive was registered before any card could open. */
  predicate Valid(st: PState) {
    && CursorOk(st)
    && (st.cursor.NoArchive? ==> |st.archives| == 0 && !st.inCard)
    && (!st.cursor.NoArchive? ==> |st.archives| > 0)
    && (st.inCard ==> !st.cursor.NoArchive? && |Arc(st).cards| > 0)
    && (st.inRegion ==> st.inCard && |Last(Arc(st).cards).regions| > 0)
  }

  /** A state the parse can reach. */
  type VState = st: PState | Valid(st) witness Init

  /** The open card: the last card of the open archive. */
  function Card(st: PState): MainCard
    requires Valid(st) && st.inCard
  {
    Last(Arc(st).cards)
  }

  /** The open region: the last region of the open card. */
  function CurRegion(st: PState): Region
    requires Valid(st) && st.inRegion
  {
    Last(Card(st).regions)
  }

  /** The open archive replaced by `a`, wherever it is kept. */
  function SetArc(st: PState, a: Archive): (r: PState)
    requires CursorOk(st) && !st.cursor.NoArchive?
    ensures CursorOk(r) && !r.cursor.NoArchive? && Arc(r) == a && |r.archives| == |st.archives|
    ensures r.cursor.Registered? == st.cursor.Registered? && (st.cursor.Registered? ==> r.cursor == st.cursor)
    ensures forall i :: 0 <= i < |st.archives| && st.cursor != Registered(i) ==> r.archives[i] == st.archives[i]
    ensures r == st.(archives := r.archives, cursor := r.cursor)
  {
    match st.cursor
    case Registered(i) => st.(archives := st.archives[i := a])
    case Detached(_) => st.(cursor := Detached(a))
  }

  /** The open card replaced by `c`. */
  function SetCard(st: PState, c: MainCard): (r: PState)
    requires Valid(st) && st.inCard
    requires st.inRegion ==> |c.regions| > 0
    ensures Valid(r) && r.inCard && Card(r) == c
    ensures Arc(r).cards == SetLast(Arc(st).cards, c)
    ensures |r.archives| == |st.archives| && r.cursor.Registered? == st.cursor.Registered?
    ensures r == st.(archives := r.archives, cursor := r.cursor)
  {
    var a := Arc(st);
    SetArc(st, a.(cards := SetLast(a.cards, c)))
  }

  /** The open region replaced by `x`. */
  function SetRegion(st: PState, x: Region): (r: PState)
    requires Valid(st) && st.inRegion
    ensures Valid(r) && r.inRegion && CurRegion(r) == x
    ensures Card(r) == Card(st).(regions := SetLast(Card(st).regions, x))
    ensures |r.archives| == |st.archives| && r.cursor.Registered? == st.cursor.Registered?
    ensures r == st.(archives := r.archives, cursor := r.cursor)
  {
    var c := Card(st);
    SetCard(st, c.(regions := SetLast(c.regions, x)))
  }

  /** `a` becomes the open archive: listed at the end, unless an equal
      archive is listed already. */
  function Register(st: PState, a: Archive): (r: PState)
    requires CursorOk(st)
    ensures CursorOk(r) && !r.cursor.NoArchive? && Arc(r) == a && a in r.archives
    ensures r.archives == if a in st.archives then st.archives else st.archives + [a]
  {
    if a in st.archives then st.(cursor := Detached(a))
    else st.(archives := st.archives + [a], cursor := Registered(|st.archives|))
  }

  /** The guard run before the open archive is left: an unlisted archive
      that holds cards is listed, unless an equal one already is. A listed
      archive is always `in` the list, being the very object. */
  function Retired(st: PState): (r: seq<Archive>)
    ensures st.archives <= r && |r| <= |st.archives| + 1
  {
    match st.cursor
    case Detached(a) => if |a.cards| > 0 && a !in st.archives then st.archives + [a] else st.archives
    case _ => st.archives
  }

  // ---------------------------------------------------------------------
  // Look-ahead: the comments after an archive or card line
  // ---------------------------------------------------------------------

  /** `re.sub(r'^\s*#\s*', '', l)` on a comment line. */
  function CommentText(l: string): string
    requires IsComment(l)
  {
    LStrip(LStrip(l)[1..])
  }

  /** The texts of the comment lines that follow, up to the first line that
      is not a comment. */
  function CommentTexts(rest: seq<string>): seq<string> {
    if |rest| == 0 || !IsComment(Strip(rest[0])) then [] else [CommentText(Strip(rest[0]))] + CommentTexts(rest[1..])
  }

  /** The description loop, `acc` being the description so far. */
  function DescFrom(acc: string, rest: seq<string>): string
    decreases |rest|
  {
    if |rest| == 0 || !IsComment(Strip(rest[0])) then acc
    else
      var c := CommentText(Strip(rest[0]));
      DescFrom(if acc != "" then acc + " " + c else c, rest[1..])
  }

  /** `_extract_archive_description` (the second, live definition). */
  function Description(rest: seq<string>): string {
    DescFrom("", rest)
  }

  function DropEmpty(xs: seq<string>): seq<string> {
    if |xs| > 0 && xs[0] == "" then DropEmpty(xs[1..]) else xs
  }

  /** Joining `[a + sep + c] + cs` is joining `[a, c] + cs`. */
  lemma JoinMerge(a: string, c: string, cs: seq<string>, sep: string)
    ensures Join([a + sep + c] + cs, sep) == Join([a] + ([c] + cs), sep)
  {
    var l := [a] + ([c] + cs);
    assert l[1..] == [c] + cs;
    if |cs| > 0 {
      assert ([c] + cs)[1..] == cs;
      assert ([a + sep + c] + cs)[1..] == cs;
      assert Join([a + sep + c] + cs, sep) == (a + sep + c) + sep + Join(cs, sep);
      assert Join(l, sep) == a + sep + (c + sep + Join(cs, sep));
    }
  }

  lemma {:induction false} DescFromJoin(acc: string, rest: seq<string>)
    requires acc != ""
    ensures DescFrom(acc, rest) == Join([acc] + CommentTexts(rest), " ")
    decreases |rest|
  {
    if |rest| > 0 && IsComment(Strip(rest[0])) {
      var c := CommentText(Strip(rest[0]));
      var cs := CommentTexts(rest[1..]);
      assert CommentTexts(rest) == [c] + cs;
      DescFromJoin(acc + " " + c, rest[1..]);
      JoinMerge(acc, c, cs, " ");
    }
  }

  /** The description is the comments that follow, joined by single
      spaces, leaving out the empty ones before the first non-empty one. */
  lemma {:induction false} DescriptionJoins(rest: seq<string>)
    ensures Description(rest) == Join(DropEmpty(CommentTexts(rest)), " ")
  {
    DescEmptyPrefix(rest);
  }

  lemma {:induction false} DescEmptyPrefix(rest: seq<string>)
    ensures DescFrom("", rest) == Join(DropEmpty(CommentTexts(rest)), " ")
  {
    if |rest| > 0 && IsComment(Strip(rest[0])) {
      var c := CommentText(Strip(rest[0]));
      assert CommentTexts(rest) == [c] + CommentTexts(rest[1..]);
      if c == "" {
        DescEmptyPrefix(rest[1..]);
        assert ([c] + CommentTexts(rest[1..]))[1..] == CommentTexts(rest[1..]);
      } else {
        DescFromJoin(c, rest[1..]);
      }
    }
  }

  /** The comment text before and after its first ':', if it has one. */
  function KeyValue(c: string): Option<(string, string)> {
    match FirstFrom(c, 0, {':'})
    case Some(i) => Some((Strip(c[..i]), Strip(c[i + 1..])))
    case None => None
  }

  /** The `key: value` pairs among the given comment texts. */
  function Pairs(texts: seq<string>): seq<(string, string)> {
    if |texts| == 0 then []
    else (match KeyValue(texts[0]) case Some(kv) => [kv] case None => []) + Pairs(texts[1..])
  }

  /** `m[key] = value` for each pair in turn. */
  function PutAll(m: map<string, Value>, ps: seq<(string, string)>): map<string, Value>
    decreases |ps|
  {
    if |ps| == 0 then m else PutAll(m[ps[0].0 := VStr(ps[0].1)], ps[1..])
  }

  /** `_extract_card_metadata`: the pairs of the comment lines that follow,
      read in order. */
  function Metadata(rest: seq<string>): map<string, Value> {
    PutAll(map[], Pairs(CommentTexts(rest)))
  }

  /** The value of the last pair for `k`, if any. */
  function LastValue(ps: seq<(string, string)>, k: string): Option<string> {
    if |ps| == 0 then None
    else if ps[|ps| - 1].0 == k then Some(ps[|ps| - 1].1)
    else LastValue(ps[..|ps| - 1], k)
  }

  lemma {:induction false} LastValueCons(p: (string, string), ps: seq<(string, string)>, k: string)
    ensures LastValue([p] + ps, k) == match LastValue(ps, k) case Some(v) => Some(v) case None => if p.0 == k then Some(p.1) else None
    decreases |ps|
  {
    if |ps| > 0 {
      var init := ps[..|ps| - 1];
      assert ([p] + ps)[..|ps|] == [p] + init;
      LastValueCons(p, init, k);
    } else {
      assert ([p] + ps)[..0] == [];
    }
  }

  lemma {:induction false} PutAllLast(m: map<string, Value>, ps: seq<(string, string)>, k: string)
    ensures k in PutAll(m, ps) <==> LastValue(ps, k).Some? || k in m
    ensures LastValue(ps, k).Some? ==> PutAll(m, ps)[k] == VStr(LastValue(ps, k).value)
    ensures LastValue(ps, k).None? && k in m ==> PutAll(m, ps)[k] == m[k]
    decreases |ps|
  {
    if |ps| > 0 {
      PutAllLast(m[ps[0].0 := VStr(ps[0].1)], ps[1..], k);
      assert [ps[0]] + ps[1..] == ps;
      LastValueCons(ps[0], ps[1..], k);
    }
  }

  /** The metadata holds a key exactly when some following comment has it
      before a ':', with the value of the last such comment, both trimmed. */
  lemma MetadataLast(rest: seq<string>, k: string)
    ensures k in Metadata(rest) <==> LastValue(Pairs(CommentTexts(rest)), k).Some?
    ensures k in Metadata(rest) ==> Metadata(rest)[k] == VStr(LastValue(Pairs(CommentTexts(rest)), k).value)
  {
    PutAllLast(map[], Pairs(CommentTexts(rest)), k);
  }

  // ---------------------------------------------------------------------
  // Handlers
  // ---------------------------------------------------------------------

  /** `_process_archive_start`. */
  function StartArchive(st: PState, name: string, rest: seq<string>): (r: PState)
    requires Valid(st)
    ensures Valid(r)
  {
    var st1 := st.(archives := Retired(st));
    Register(st1, Archive(name, [], Description(rest))).(inCard := false, inRegion := false)
  }

  /** `_process_card_start`: a card opens in the open archive, which is
      first created as the default archive when there is none. */
  function StartCard(st: PState, theme: string, rest: seq<string>): (r: PState)
    requires Valid(st)
    ensures Valid(r)
  {
    var st1 := if st.cursor.NoArchive? then Register(st, Archive(DefaultArchiveName, [], "")) else st;
    var a := Arc(st1);
    SetArc(st1, a.(cards := a.cards + [MainCard(theme, [], [], [], Metadata(rest))])).(inCard := true, inRegion := false)
  }

  /** `_process_card_end`. */
  function EndCard(st: PState): (r: PState)
    requires Valid(st)
    ensures Valid(r)
  {
    if !st.inCard then st
    else
      var w := if |Card(st).regions| == 0 then [CardWithoutRegions(Card(st).theme)] else [];
      st.(inCard := false, inRegion := false, warnings := st.warnings + w)
  }

  /** `_process_region_start`. */
  function StartRegion(st: PState, n: nat, name: string): (r: PState)
    requires Valid(st)
    ensures Valid(r)
  {
    if !st.inCard then st.(warnings := st.warnings + [RegionOutsideCard(n)])
    else
      var c := Card(st);
      SetCard(st, c.(regions := c.regions + [NewRegion(name, "", [])])).(inRegion := true)
  }

  /** `_determine_label_type`. */
  const LabelTypes: map<string, string> := map[
    "!" := "important", "?" := "question", ">" := "reference", "<" := "backlink",
    "i" := "info", "✓" := "completed", "☆" := "star", "▲" := "priority"]

  function LabelType(symbol: string): string {
    if symbol in LabelTypes then LabelTypes[symbol] else "default"
  }

  /** A label is of the default type exactly when its symbol is none of the
      eight known ones, and distinct known symbols give distinct types. */
  lemma LabelTypeDefault(symbol: string, other: string)
    ensures LabelType(symbol) == "default" <==> symbol !in LabelTypes
    ensures symbol in LabelTypes && other in LabelTypes && symbol != other ==> LabelType(symbol) != LabelType(other)
  {
    assert "default" !in LabelTypes.Values;
  }

  /** The label of `(symbol: text)`: the symbol as matched, the items the
      comma-separated pieces of the trimmed text, each trimmed. */
  function MakeLabel(symbol: string, text: string): Label {
    Label(symbol, Map(Strip, Split(Strip(text), ',')), LabelType(symbol))
  }

  /** `_process_label`. */
  function AddLabel(st: PState, n: nat, symbol: string, text: string): (r: PState)
    requires Valid(st)
    ensures Valid(r)
  {
    if !st.inCard then st.(warnings := st.warnings + [LabelOutsideCard(n)])
    else
      var c := Card(st);
      SetCard(st, c.(labels := c.labels + [MakeLabel(symbol, text)]))
  }

  /** `_process_code_block_start`'s language: the language a block opened with groups `g` is recorded under. */
  function LangOf(g: Groups): string {
    if Strip(g.g1) == "" then "text" else Strip(g.g1)
  }

  /** `_process_code_block_start`. */
  function OpenCode(st: PState, g: Groups): PState {
    st.(inCode := true, lang := LangOf(g), buf := [])
  }

  /** The text a closed code block adds to a region's content. */
  function CodeText(content: string, lang: string, body: seq<string>): string {
    var block := "```" + lang + "\n" + Join(body, "\n") + "\n```";
    if content != "" then content + "\n\n" + block else block
  }

  /** `_process_code_block_end`. */
  function CloseCode(st: PState): (r: PState)
    requires Valid(st)
    ensures Valid(r)
  {
    var st1 :=
      if |st.buf| > 0 && st.inRegion then
        var x := CurRegion(st);
        SetRegion(st, x.(content := CodeText(x.content, st.lang, st.buf), lines := x.lines + ["```" + st.lang] + st.buf + ["```"]))
      else st;
    st1.(inCode := false, lang := "", buf := [])
  }

  /** `_process_code_block_line`. */
  function CodeLine(st: PState, l: string): (r: PState)
    requires Valid(st)
    ensures Valid(r)
  {
    if FenceClose(l) then CloseCode(st) else st.(buf := st.buf + [l])
  }

  /** `_process_default`: blank lines and comments are dropped; other text
      goes to the open region, if any, with the annotations on it. */
  function AddText(st: PState, l: string): (r: PState)
    requires Valid(st)
    ensures Valid(r)
  {
    if AllSpace(l) || IsComment(l) || !st.inRegion then st
    else
      var x := CurRegion(st);
      var lines := x.lines + [l];
      SetRegion(st, x.(content := if x.content != "" then x.content + "\n" + l else l, lines := lines,
                       vibeCards := x.vibeCards + Linker.TextVibes(l, Card(st).theme, |lines|)))
  }

  /** What handler `h` does with line `n`, stripped to `l`, whose pattern
      matched with groups `g`. */
  function Dispatch(h: Handler, st: PState, n: nat, g: Groups, l: string, rest: seq<string>): (r: PState)
    requires Valid(st)
    ensures Valid(r)
  {
    match h
    case ArchiveStart => StartArchive(st, Strip(g.g1), rest)
    case CardStart => StartCard(st, Strip(g.g1), rest)
    case CardEnd => EndCard(st)
    case LabelHandler => AddLabel(st, n, g.g1, g.g2)
    case RegionStart => StartRegion(st, n, Strip(g.g1))
    case CodeBlockStart => OpenCode(st, g)
    case Default => AddText(st, l)
  }

  /** The pattern a stripped line is classified by, with its groups: the
      first in the table's order that matches. */
  function Classify(l: string): (r: Option<(LinePattern, Groups)>)
    ensures r.Some? ==> MatchPattern(r.value.0, l) == Some(r.value.1)
  {
    FirstInFirst(MatchPattern, l, 0);
    match FirstIn(MatchPattern, l, 0)
    case Some(h) => Some((PatternOrder[h.0], h.1))
    case None => None
  }

  /** Line `n` (1-based) of the source, stripped to `l` and classified as
      `hit`, with `rest` the lines after it: inside a code block the line
      belongs to the block; otherwise the pattern picks the handler. */
  function Step(st: VState, n: nat, l: string, hit: Option<(LinePattern, Groups)>, rest: seq<string>): VState {
    var s := st.(lineNum := n);
    if s.inCode then CodeLine(s, l)
    else
      match hit
      case None => AddText(s, l)
      case Some(h) => Dispatch(Intended(h.0), s, n, h.1, l, rest)
  }

  /** The same step with the method lookup as written: a missing handler
      falls back to the default one, a handler of the wrong arity raises. */
  function WrittenStep(st: VState, n: nat, l: string, hit: Option<(LinePattern, Groups)>, rest: seq<string>): Result<VState, string> {
    var s := st.(lineNum := n);
    if s.inCode then Success(CodeLine(s, l))
    else
      match hit
      case None => Success(AddText(s, l))
      case Some(h) =>
        match WrittenCall(h.0)
        case Invoke(m) => Success(Dispatch(HandlerOf(m), s, n, h.1, l, rest))
        case Fallback => Success(AddText(s, l))
        case ArityError(m) => Failure("TypeError: " + m)
  }

  /** A step function: the state, then one line's number, text and
      classification, and the lines after it. */
  type Stepper = (VState, nat, string, Option<(LinePattern, Groups)>, seq<string>) -> VState

  /** The lines `[i, j)`, classified by `cls`, read in order with `step`. */
  function Fold(step: Stepper, st: VState, lines: seq<string>, cls: seq<Option<(LinePattern, Groups)>>, i: nat, j: nat): VState
    requires i <= j <= |lines| == |cls|
    decreases j - i
  {
    if i == j then st else Fold(step, step(st, i + 1, lines[i], cls[i], lines[i + 1..]), lines, cls, i + 1, j)
  }


  /** The archive list once every line is read. A card is only ever
      opened in a registered archive, so the list is never empty when a
      card is open, and the source's fallback that wraps a lone card in a
      default archive never applies. */
  function Finish(st: PState): (r: seq<Archive>)
    requires Valid(st)
    ensures st.archives <= r
    ensures st.inCard ==> |r| > 0
    ensures st.cursor.Detached? && |st.cursor.archive.cards| > 0 ==> st.cursor.archive in r
  {
    Retired(st)
  }

  /** `parse`: split, strip and classify every line, fold, then the
      annotation pass, the theme set iterated in the order `order`. Every
      line is classified up front: the classification depends on the line
      alone and is ignored inside a code block, as in the source. */
  function Parse(source: string, order: seq<string>): Document {
    var lines := Map(Strip, Split(source, '\n'));
    var st := Fold(Step, Init, lines, Map(Classify, lines), 0, |lines|);
    Linker.Process(Document("", Finish(st), None), order)
  }

  // ---------------------------------------------------------------------
  // Properties of the parse
  // ---------------------------------------------------------------------

  /** Reading `[i, j)` and then `[j, k)` is reading `[i, k)`. */
  lemma {:induction false} FoldSplit(step: Stepper, st: VState, lines: seq<string>, cls: seq<Option<(LinePattern, Groups)>>, i: nat, j: nat, k: nat)
    requires i <= j <= k <= |lines| == |cls|
    ensures Fold(step, st, lines, cls, i, k) == Fold(step, Fold(step, st, lines, cls, i, j), lines, cls, j, k)
    decreases j - i
  {
    if i < j {
      FoldSplit(step, step(st, i + 1, lines[i], cls[i], lines[i + 1..]), lines, cls, i + 1, j, k);
    }
  }

  /** `b` extends `a`: no archive is dropped, no warning is retracted. */
  predicate Grows(a: PState, b: PState) {
    |a.archives| <= |b.archives| && a.warnings <= b.warnings
  }

  /** A fold whose every step grows the state grows the state. */
  lemma {:induction false} FoldGrows(step: Stepper, st: VState, lines: seq<string>, cls: seq<Option<(LinePattern, Groups)>>, i: nat, j: nat)
    requires i <= j <= |lines| == |cls|
    requires forall s: VState, n: nat, l: string, h: Option<(LinePattern, Groups)>, rest: seq<string> {:trigger step(s, n, l, h, rest)} ::
      Grows(s, step(s, n, l, h, rest))
    ensures Grows(st, Fold(step, st, lines, cls, i, j))
    decreases j - i
  {
    if i < j {
      var st' := step(st, i + 1, lines[i], cls[i], lines[i + 1..]);
      FoldGrows(step, st', lines, cls, i + 1, j);
    }
  }

  /** What the first character of a line rules out. */
  lemma FirstCharRules(l: string)
    requires |l| > 0 && !IsSpace(l[0])
    ensures l[0] != '-' ==> Lexer.ArchiveHead(l).None? && RegionMatch(l).None?
    ensures l[0] != '<' ==> Lexer.CardHead(l).None?
    ensures l[0] != '/' ==> !Lexer.IsCardClose(l)
    ensures l[0] != '(' ==> LabelMatch(l).None?
    ensures l[0] != '`' ==> VibeAt(l, 0, true).None? && Lexer.FenceLang(l).None? && !FenceClose(l)
    ensures l[0] != '>' ==> AsideAt(l, 0).None?
    ensures l[0] != '#' ==> !IsComment(l)
    ensures !AllSpace(l)
  {
    FirstCharStrip(l);
    FirstCharHeads(l);
    FirstCharMarks(l);
  }

  lemma FirstCharStrip(l: string)
    requires |l| > 0 && !IsSpace(l[0])
    ensures LStrip(l) == l && |Strip(l)| > 0 && Strip(l)[0] == l[0] && !AllSpace(l)
  {
    assert LeadCount(l) == 0;
  }

  lemma FirstCharHeads(l: string)
    requires |l| > 0 && LStrip(l) == l && |Strip(l)| > 0 && Strip(l)[0] == l[0]
    ensures l[0] != '-' ==> Lexer.ArchiveHead(l).None? && RegionMatch(l).None?
    ensures l[0] != '<' ==> Lexer.CardHead(l).None?
    ensures l[0] != '/' ==> !Lexer.IsCardClose(l)
    ensures l[0] != '(' ==> LabelMatch(l).None?
  {
  }

  lemma FirstCharMarks(l: string)
    requires |l| > 0 && LStrip(l) == l && |Strip(l)| > 0 && Strip(l)[0] == l[0]
    ensures l[0] != '`' ==> VibeAt(l, 0, true).None? && Lexer.FenceLang(l).None? && !FenceClose(l)
    ensures l[0] != '>' ==> AsideAt(l, 0).None?
    ensures l[0] != '#' ==> !IsComment(l)
  {
  }

  /** How lines of each kind are classified. */
  lemma ClassifyCard(l: string)
    requires Lexer.CardHead(l).Some?
    ensures Classify(l) == Some((CardStartLine, Groups(Lexer.CardHead(l).value, "")))
  {
    assert LStrip(l)[0] == '<';
    assert MatchPattern(PatternOrder[0], l).None?;
    FirstInAt(MatchPattern, l, 0, 1);
  }

  lemma ClassifyCardClose(l: string)
    requires Stripped(l) && Lexer.IsCardClose(l)
    ensures Classify(l) == Some((CardEndLine, Groups("", "")))
  {
    CardCloseMatches(l);
    FirstInAt(MatchPattern, l, 0, 2);
  }

  /** A stripped card-closing line is no archive or card head, and closes a
      card. */
  lemma CardCloseMatches(l: string)
    requires Stripped(l) && Lexer.IsCardClose(l)
    ensures MatchPattern(PatternOrder[0], l).None? && MatchPattern(PatternOrder[1], l).None?
    ensures MatchPattern(PatternOrder[2], l) == Some(Groups("", ""))
  {
    StripOfStripped(l);
    assert l[0] == '/';
    FirstCharRules(l);
  }

  lemma ClassifyLabel(l: string)
    requires LabelMatch(l).Some?
    ensures Classify(l) == Some((LabelLine, LabelMatch(l).value))
  {
    FirstCharRules(l);
    forall i | 0 <= i < 3 ensures MatchPattern(PatternOrder[i], l).None? {
    }
    FirstInAt(MatchPattern, l, 0, 3);
  }

  lemma ClassifyRegion(l: string)
    requires RegionMatch(l).Some?
    ensures Classify(l) == Some((RegionLine, Groups(RegionMatch(l).value, "")))
  {
    assert l[..3] == "---";
    FirstCharRules(l);
    assert LStrip(l) == l;
    forall i | 0 <= i < 4 ensures MatchPattern(PatternOrder[i], l).None? {
    }
    FirstInAt(MatchPattern, l, 0, 4);
  }

  lemma ClassifyBlank()
    ensures Classify("") == Some((EmptyLine, Groups("", "")))
  {
    forall i | 0 <= i < 10 ensures MatchPattern(PatternOrder[i], "").None? {
      BlankMatchesOnlyEmpty(PatternOrder[i]);
    }
    FirstInAt(MatchPattern, "", 0, 10);
  }

  /** The blank line matches only the empty-line pattern. */
  lemma BlankMatchesOnlyEmpty(p: LinePattern)
    ensures MatchPattern(p, "").Some? <==> p == EmptyLine
  {
    BlankMatchesNothing();
  }

  lemma BlankMatchesNothing()
    ensures Lexer.ArchiveHead("").None? && Lexer.CardHead("").None? && !Lexer.IsCardClose("")
    ensures LabelMatch("").None? && RegionMatch("").None? && VibeAt("", 0, true).None? && AsideAt("", 0).None?
    ensures !IsComment("") && Lexer.FenceLang("").None? && !FenceClose("") && AllSpace("")
  {
  }

  lemma ClassifyComment(l: string)
    requires |l| > 0 && l[0] == '#'
    ensures Classify(l) == Some((CommentLine, Groups("", "")))
  {
    FirstCharRules(l);
    assert LStrip(l) == l;
    forall i | 0 <= i < 7 ensures MatchPattern(PatternOrder[i], l).None? {
    }
    FirstInAt(MatchPattern, l, 0, 7);
  }

  /** An archive line saves the open archive if it still needs saving, and
      opens (and lists) a fresh archive with the description that follows;
      no card or region is open after it. */
  lemma StepArchive(st: VState, n: nat, l: string, g: Groups, rest: seq<string>)
    requires !st.inCode
    ensures var r := Step(st, n, l, Some((ArchiveLine, g)), rest);
      && Arc(r) == Archive(Strip(g.g1), [], Description(rest))
      && Arc(r) in r.archives && Retired(st) <= r.archives
      && !r.inCard && !r.inRegion && r.warnings == st.warnings
  {
  }

  /** A card line opens an empty card, with the metadata that follows, at
      the end of the open archive; with no archive open it first opens the
      default archive. */
  lemma StepCard(st: VState, n: nat, l: string, g: Groups, rest: seq<string>)
    requires !st.inCode
    ensures var r := Step(st, n, l, Some((CardStartLine, g)), rest);
      && r.inCard && !r.inRegion && r.warnings == st.warnings
      && Card(r) == MainCard(Strip(g.g1), [], [], [], Metadata(rest))
      && (st.cursor.NoArchive? ==> r.archives == [Archive(DefaultArchiveName, [Card(r)], "")])
      && (!st.cursor.NoArchive? ==> r.cursor.Registered? == st.cursor.Registered? && Arc(r).cards == Arc(st).cards + [Card(r)])
  {
    var s := st.(lineNum := n);
    assert Step(st, n, l, Some((CardStartLine, g)), rest) == StartCard(s, Strip(g.g1), rest);
    StartCardShape(s, Strip(g.g1), rest);
  }

  lemma StartCardShape(st: VState, theme: string, rest: seq<string>)
    ensures var r := StartCard(st, theme, rest);
      && r.inCard && !r.inRegion && r.warnings == st.warnings
      && Card(r) == MainCard(theme, [], [], [], Metadata(rest))
      && (st.cursor.NoArchive? ==> r.archives == [Archive(DefaultArchiveName, [Card(r)], "")])
      && (!st.cursor.NoArchive? ==> r.cursor.Registered? == st.cursor.Registered? && Arc(r).cards == Arc(st).cards + [Card(r)])
  {
    var c := MainCard(theme, [], [], [], Metadata(rest));
    if st.cursor.NoArchive? {
      var st1 := Register(st, Archive(DefaultArchiveName, [], ""));
      assert st1.archives == [Archive(DefaultArchiveName, [], "")] && st1.cursor == Registered(0);
      var r := StartCard(st, theme, rest);
      assert [] + [c] == [c];
      assert r.cursor == Registered(0) && |r.archives| == 1;
      assert r.archives[0] == Arc(r) == Archive(DefaultArchiveName, [c], "");
      assert r.archives == [Archive(DefaultArchiveName, [c], "")];
    }
  }

  /** A card-closing line closes the open card, warning when it has no
      region, and changes nothing else. */
  lemma StepCardClose(st: VState, n: nat, l: string, g: Groups, rest: seq<string>)
    requires !st.inCode
    ensures var r := Step(st, n, l, Some((CardEndLine, g)), rest);
      && !r.inCard && !r.inRegion && r.archives == st.archives && r.cursor == st.cursor
      && r.warnings == st.warnings + (if st.inCard && |Card(st).regions| == 0 then [CardWithoutRegions(Card(st).theme)] else [])
  {
  }

  /** With the dispatch as written, a card-closing line raises instead. */
  lemma WrittenCardCloseRaises(st: VState, n: nat, l: string, g: Groups, rest: seq<string>)
    requires !st.inCode
    ensures WrittenStep(st, n, l, Some((CardEndLine, g)), rest).Failure?
  {
    WrittenDispatchMisses();
  }

  /** With the dispatch as written, archive and region lines are text:
      outside a region they are dropped, and nothing is opened. */
  lemma WrittenHeadsIgnored(st: VState, n: nat, l: string, g: Groups, rest: seq<string>)
    requires !st.inCode && !st.inRegion
    ensures WrittenStep(st, n, l, Some((ArchiveLine, g)), rest) == Success(st.(lineNum := n))
    ensures WrittenStep(st, n, l, Some((RegionLine, g)), rest) == Success(st.(lineNum := n))
  {
    WrittenDispatchMisses();
  }

  /** A region line outside a card only adds a warning. */
  lemma StepRegionOutside(st: VState, n: nat, l: string, g: Groups, rest: seq<string>)
    requires !st.inCode && !st.inCard
    ensures Step(st, n, l, Some((RegionLine, g)), rest) == st.(lineNum := n, warnings := st.warnings + [RegionOutsideCard(n)])
  {
  }

  /** A region line inside a card opens an empty region at its end. */
  lemma StepRegion(st: VState, n: nat, l: string, g: Groups, rest: seq<string>)
    requires !st.inCode && st.inCard
    ensures var r := Step(st, n, l, Some((RegionLine, g)), rest);
      && r.inRegion && r.warnings == st.warnings && |r.archives| == |st.archives|
      && Card(r).regions == Card(st).regions + [NewRegion(Strip(g.g1), "", [])]
      && Card(r).labels == Card(st).labels && Card(r).theme == Card(st).theme
  {
  }

  /** A label line outside a card only adds a warning. */
  lemma StepLabelOutside(st: VState, n: nat, l: string, g: Groups, rest: seq<string>)
    requires !st.inCode && !st.inCard
    ensures Step(st, n, l, Some((LabelLine, g)), rest) == st.(lineNum := n, warnings := st.warnings + [LabelOutsideCard(n)])
  {
  }

  /** A label line inside a card adds the label to the card. */
  lemma StepLabel(st: VState, n: nat, l: string, g: Groups, rest: seq<string>)
    requires !st.inCode && st.inCard
    ensures var r := Step(st, n, l, Some((LabelLine, g)), rest);
      && r.inCard && r.inRegion == st.inRegion && r.warnings == st.warnings
      && Card(r).labels == Card(st).labels + [MakeLabel(g.g1, g.g2)]
      && Card(r).regions == Card(st).regions
  {
    AddLabelShape(st.(lineNum := n), n, g.g1, g.g2);
  }

  lemma AddLabelShape(st: VState, n: nat, symbol: string, text: string)
    requires st.inCard
    ensures var r := AddLabel(st, n, symbol, text);
      && r.inCard && r.inRegion == st.inRegion && r.warnings == st.warnings
      && Card(r).labels == Card(st).labels + [MakeLabel(symbol, text)]
      && Card(r).regions == Card(st).regions
  {
  }

  /** Blank lines and comment lines outside a code block leave the state as
      it was. */
  lemma StepSilent(st: VState, n: nat, l: string, p: LinePattern, g: Groups, rest: seq<string>)
    requires !st.inCode && (p == EmptyLine || p == CommentLine) && (l == "" || l[0] == '#')
    ensures Step(st, n, l, Some((p, g)), rest) == st.(lineNum := n)
  {
    if l != "" {
      assert LStrip(l) == l;
    }
  }

  // ---------------------------------------------------------------------
  // Code blocks
  // ---------------------------------------------------------------------

  /** Inside a code block, a line other than the closing fence is buffered. */
  lemma StepBuffers(st: VState, n: nat, l: string, h: Option<(LinePattern, Groups)>, rest: seq<string>)
    requires st.inCode && !FenceClose(l)
    ensures Step(st, n, l, h, rest) == st.(lineNum := n, buf := st.buf + [l])
  {
  }

  /** The fence-opening line opens a block, `text` standing for no language. */
  lemma StepOpens(st: VState, n: nat, l: string, g: Groups, rest: seq<string>)
    requires !st.inCode
    ensures Step(st, n, l, Some((CodeStartLine, g)), rest) == st.(lineNum := n, inCode := true, lang := LangOf(g), buf := [])
  {
  }

  /** A stripped opening fence is classified as one: no earlier pattern can
      match a line that starts with three backticks. */
  lemma ClassifyFence(l: string)
    requires Stripped(l) && Lexer.FenceLang(l).Some?
    ensures Classify(l) == Some((CodeStartLine, Groups(Lexer.FenceLang(l).value, "")))
  {
    StripOfStripped(l);
    assert l[..3] == "```";
    FirstCharRules(l);
    assert VibeAt(l, 0, true).None? by {
      assert FirstFrom(l, 1, ContentStops(true)) == Some(1);
    }
    forall i | 0 <= i < 8 ensures MatchPattern(PatternOrder[i], l).None? {
    }
    FirstInAt(MatchPattern, l, 0, 8);
  }

  /** Inside a block, every line up to the closing fence is buffered as is. */
  ghost predicate Buffers(step: Stepper) {
    forall st: VState, n: nat, l: string, h: Option<(LinePattern, Groups)>, rest: seq<string> {:trigger step(st, n, l, h, rest)} ::
      st.inCode && !FenceClose(l) ==> step(st, n, l, h, rest) == st.(lineNum := n, buf := st.buf + [l])
  }

  lemma StepIsBuffering()
    ensures Buffers(Step)
  {
    forall st: VState, n: nat, l: string, h: Option<(LinePattern, Groups)>, rest: seq<string> | st.inCode && !FenceClose(l)
      ensures Step(st, n, l, h, rest) == st.(lineNum := n, buf := st.buf + [l])
    {
      StepBuffers(st, n, l, h, rest);
    }
  }

  lemma {:induction false} FoldBuffered(step: Stepper, st: VState, lines: seq<string>, cls: seq<Option<(LinePattern, Groups)>>, i: nat, j: nat)
    requires i <= j <= |lines| == |cls| && Buffers(step) && st.inCode && st.lineNum == i
    requires forall k :: i <= k < j ==> !FenceClose(lines[k])
    ensures Fold(step, st, lines, cls, i, j) == st.(lineNum := j, buf := st.buf + lines[i..j])
    decreases j - i
  {
    if i < j {
      var st' := step(st, i + 1, lines[i], cls[i], lines[i + 1..]);
      assert st' == st.(lineNum := i + 1, buf := st.buf + [lines[i]]);
      FoldBuffered(step, st', lines, cls, i + 1, j);
      assert st.buf + [lines[i]] + lines[i + 1..j] == st.buf + lines[i..j];
    }
  }

  /** A fold over one line is one step. */
  lemma FoldOne(step: Stepper, st: VState, lines: seq<string>, cls: seq<Option<(LinePattern, Groups)>>, i: nat)
    requires i < |lines| == |cls|
    ensures Fold(step, st, lines, cls, i, i + 1) == step(st, i + 1, lines[i], cls[i], lines[i + 1..])
  {
    var s := step(st, i + 1, lines[i], cls[i], lines[i + 1..]);
    assert Fold(step, s, lines, cls, i + 1, i + 1) == s;
  }

  /** For any buffering step, a block whose first line opens an empty buffer
      ends in the step on the closing line, applied to the open block holding
      exactly the lines between the fences. */
  lemma FoldCodeBlock(step: Stepper, st: VState, lines: seq<string>, cls: seq<Option<(LinePattern, Groups)>>, i: nat, j: nat)
    requires Buffers(step)
    requires i < j < |lines| == |cls|
    requires var s1 := step(st, i + 1, lines[i], cls[i], lines[i + 1..]); s1.inCode && s1.lineNum == i + 1 && s1.buf == []
    requires forall k :: i < k < j ==> !FenceClose(lines[k])
    ensures var s1 := step(st, i + 1, lines[i], cls[i], lines[i + 1..]);
      Fold(step, st, lines, cls, i, j + 1) == step(s1.(lineNum := j, buf := lines[i + 1..j]), j + 1, lines[j], cls[j], lines[j + 1..])
  {
    FoldSplit(step, st, lines, cls, i, i + 1, j + 1);
    FoldOne(step, st, lines, cls, i);
    var s1 := step(st, i + 1, lines[i], cls[i], lines[i + 1..]);
    FoldSplit(step, s1, lines, cls, i + 1, j, j + 1);
    FoldBuffered(step, s1, lines, cls, i + 1, j);
    assert s1.buf + lines[i + 1..j] == lines[i + 1..j];
    FoldOne(step, s1.(lineNum := j, buf := lines[i + 1..j]), lines, cls, j);
  }

  /** Reading the opening fence changes only the block fields. */
  lemma FoldOpens(st: VState, lines: seq<string>, cls: seq<Option<(LinePattern, Groups)>>, g: Groups, i: nat)
    requires i < |lines| == |cls| && !st.inCode && cls[i] == Some((CodeStartLine, g))
    ensures var r := Fold(Step, st, lines, cls, i, i + 1);
      && r.inCode && r.lineNum == i + 1 && r.buf == [] && r.lang == LangOf(g)
      && r.archives == st.archives && r.cursor == st.cursor && r.inCard == st.inCard && r.inRegion == st.inRegion && r.warnings == st.warnings
  {
    FoldOne(Step, st, lines, cls, i);
    StepOpens(st, i + 1, lines[i], g, lines[i + 1..]);
  }

  /** The parser's step reads a block's body as any buffering step does. */
  lemma FoldBody(st: VState, lines: seq<string>, cls: seq<Option<(LinePattern, Groups)>>, i: nat, j: nat)
    requires i < j < |lines| == |cls|
    requires var s1 := Fold(Step, st, lines, cls, i, i + 1); s1.inCode && s1.lineNum == i + 1 && s1.buf == []
    requires forall k :: i < k < j ==> !FenceClose(lines[k])
    ensures var s1 := Fold(Step, st, lines, cls, i, i + 1);
      Fold(Step, st, lines, cls, i, j + 1) == Fold(Step, s1.(lineNum := j, buf := lines[i + 1..j]), lines, cls, j, j + 1)
  {
    StepIsBuffering();
    FoldOne(Step, st, lines, cls, i);
    FoldCodeBlock(Step, st, lines, cls, i, j);
    var s1 := Fold(Step, st, lines, cls, i, i + 1);
    FoldOne(Step, s1.(lineNum := j, buf := lines[i + 1..j]), lines, cls, j);
  }

  /** Closing a non-empty block inside a region adds the fence line with
      the language, the body as written and the closing fence to the region,
      and the same block to its content; an empty block adds nothing. */
  lemma CloseCodeShape(st: VState)
    requires st.inRegion
    ensures var r := CloseCode(st);
      && !r.inCode && r.inRegion && |r.archives| == |st.archives| && r.warnings == st.warnings
      && CurRegion(r).lines == CurRegion(st).lines + (if |st.buf| > 0 then ["```" + st.lang] + st.buf + ["```"] else [])
      && CurRegion(r).content == (if |st.buf| > 0 then CodeText(CurRegion(st).content, st.lang, st.buf) else CurRegion(st).content)
  {
  }

  /** Reading the closing fence inside a region closes the block into the
      open region. */
  lemma FoldCloses(st: VState, lines: seq<string>, cls: seq<Option<(LinePattern, Groups)>>, j: nat)
    requires j < |lines| == |cls| && st.inCode && st.inRegion && FenceClose(lines[j])
    ensures var r := Fold(Step, st, lines, cls, j, j + 1);
      && !r.inCode && r.inRegion && |r.archives| == |st.archives| && r.warnings == st.warnings
      && CurRegion(r).lines == CurRegion(st).lines + (if |st.buf| > 0 then ["```" + st.lang] + st.buf + ["```"] else [])
      && CurRegion(r).content == (if |st.buf| > 0 then CodeText(CurRegion(st).content, st.lang, st.buf) else CurRegion(st).content)
  {
    FoldOne(Step, st, lines, cls, j);
    CloseCodeShape(st.(lineNum := j + 1));
  }

  /** A fenced block inside a region, from the opening fence at `i` to the
      closing fence at `j`: the region gains the fence line with its
      language, the body as written and the closing fence, and its content
      the same block; an empty block adds nothing. The region stays open. */
  lemma CodeBlock(st: VState, lines: seq<string>, cls: seq<Option<(LinePattern, Groups)>>, g: Groups, i: nat, j: nat)
    requires i < j < |lines| == |cls| && !st.inCode && st.inRegion
    requires cls[i] == Some((CodeStartLine, g))
    requires forall k :: i < k < j ==> !FenceClose(lines[k])
    requires FenceClose(lines[j])
    ensures var r := Fold(Step, st, lines, cls, i, j + 1); var body := lines[i + 1..j];
      && !r.inCode && r.inRegion && |r.archives| == |st.archives| && r.warnings == st.warnings
      && CurRegion(r).lines == CurRegion(st).lines + (if |body| > 0 then ["```" + LangOf(g)] + body + ["```"] else [])
      && CurRegion(r).content == (if |body| > 0 then CodeText(CurRegion(st).content, LangOf(g), body) else CurRegion(st).content)
  {
    FoldOpens(st, lines, cls, g, i);
    FoldBody(st, lines, cls, i, j);
    var s2 := Fold(Step, st, lines, cls, i, i + 1).(lineNum := j, buf := lines[i + 1..j]);
    assert CurRegion(s2) == CurRegion(st);
    FoldCloses(s2, lines, cls, j);
  }

  // ---------------------------------------------------------------------
  // A region's content against its lines
  // ---------------------------------------------------------------------

  /** A region whose content is its lines joined with '\n' (and empty only
      when it has no lines). */
  predicate Joined(x: Region) {
    && x.content == Join(x.lines, "\n")
    && (x.content == "" ==> x.lines == [])
  }

  /** A text line appended to the open region keeps its content equal to
      its lines joined with '\n'. */
  lemma AddTextKeepsJoined(st: VState, l: string)
    requires st.inRegion && !AllSpace(l) && !IsComment(l) && Joined(CurRegion(st))
    ensures AddText(st, l).inRegion
    ensures CurRegion(AddText(st, l)).lines == CurRegion(st).lines + [l]
    ensures Joined(CurRegion(AddText(st, l)))
  {
    var x := CurRegion(st);
    if x.lines != [] {
      JoinAppend(x.lines, [l], "\n");
    }
  }

  /** The text of a non-empty block equals the lines it adds joined with
      '\n' exactly when nothing came before it: after earlier content the
      block is set off by a blank line that the lines do not hold. */
  lemma CodeTextJoined(content: string, lines: seq<string>, lang: string, buf: seq<string>)
    requires content == Join(lines, "\n") && (content == "" ==> lines == []) && |buf| > 0
    ensures var all := lines + (["```" + lang] + buf + ["```"]);
      && CodeText(content, lang, buf) != ""
      && (CodeText(content, lang, buf) == Join(all, "\n") <==> content == "")
  {
    var open, close := "```" + lang, "```";
    var block := [open] + buf + [close];
    JoinAppend(buf, [close], "\n");
    JoinAppend([open], buf + [close], "\n");
    assert block == [open] + (buf + [close]);
    assert Join(block, "\n") == open + "\n" + Join(buf, "\n") + "\n```";
    if content == "" {
      assert lines + block == block;
    } else {
      JoinAppend(lines, block, "\n");
      assert |CodeText(content, lang, buf)| == |Join(lines + block, "\n")| + 1;
    }
  }

  /** Closing a non-empty block keeps the content equal to the joined lines
      only when the region had no content. */
  lemma CloseCodeBreaksJoined(st: VState)
    requires st.inRegion && Joined(CurRegion(st)) && |st.buf| > 0
    ensures CloseCode(st).inRegion
    ensures Joined(CurRegion(CloseCode(st))) <==> CurRegion(st).content == ""
  {
    CloseCodeShape(st);
    var x := CurRegion(st);
    CodeTextJoined(x.content, x.lines, st.lang, st.buf);
    assert x.lines + ["```" + st.lang] + st.buf + ["```"] == x.lines + (["```" + st.lang] + st.buf + ["```"]);
  }
}
