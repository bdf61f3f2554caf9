/** The line tokenizer (`Lexer.tokenize`): the text is split on '\n' and each
    line is classified on its own. The only state carried from line to line
    is whether a fenced code block is open, and the lines buffered inside it. */
module Lexer {
  import opened Wrappers
  import opened Text
  import opened Patterns
  import Values

  datatype Kind =
    | EmptyLine
    | CodeStart
    | CodeContent
    | CodeEnd
    | ArchiveName
    | CardStart
    | CardEnd
    | RegionName
    | LabelText
    | VibeCard
    | PlainText
    | InlineExplanation

  /** `(type, value, line)`, the line 1-based. */
  datatype Token = Token(kind: Kind, value: string, line: int)

  datatype LexState = LexState(tokens: seq<Token>, lineNum: nat, inCode: bool, lang: string, buf: seq<string>)

  // ---------------------------------------------------------------------
  // The line patterns, each applied with `re.match` to a line that holds
  // no '\n'
  // ---------------------------------------------------------------------

  predicate AllWord(s: string) {
    forall i :: 0 <= i < |s| ==> IsWordChar(s[i])
  }

  /** `^\s*```\s*$`: the fence that closes a code block. */
  predicate IsFenceEnd(line: string) {
    Strip(line) == "```"
  }

  /** `^\s*```\s*(\w*)\s*$`: an opening fence and its (possibly empty) language. */
  function FenceLang(line: string): (r: Option<string>)
    ensures r.Some? ==> AllWord(r.value) && !AllSpace(line)
    ensures IsFenceEnd(line) ==> r == Some("")
  {
    var t := Strip(line);
    if |t| >= 3 && t[..3] == "```" && AllWord(t[SkipSpaces(t, 3)..]) then Some(t[SkipSpaces(t, 3)..])
    else None
  }

  /** `^\s*--<([^>]+)>--\s*$`: the group runs to the first '>', which must
      open the closing `>--`. */
  function ArchiveHead(line: string): (r: Option<string>)
    ensures r.Some? ==> |r.value| > 0 && '>' !in r.value
  {
    var t := LStrip(line);
    if |t| >= 3 && t[..3] == "--<" then
      match FirstFrom(t, 3, {'>'})
      case Some(p) =>
        if p > 3 && p + 3 <= |t| && t[p..p + 3] == ">--" && AllSpace(t[p + 3..]) then Some(t[3..p]) else None
      case None => None
    else None
  }

  /** `^\s*<\+([^/]+)\s*$`: the group is the rest of the line, trailing
      whitespace included, and holds no '/'. */
  function CardHead(line: string): (r: Option<string>)
    ensures r.Some? ==> |r.value| > 0 && '/' !in r.value
  {
    var t := LStrip(line);
    if |t| > 2 && t[..2] == "<+" && '/' !in t[2..] then Some(t[2..]) else None
  }

  // `^\s*/\+>\s*$`.
  predicate IsCardClose(line: string) {
    Strip(line) == "/+>"
  }

  /** `^\s*---\s*([^\s].*?)\s*$`: the lazy group is the text after the dashes
      with the whitespace around it removed, and must not be empty. */
  function RegionHead(line: string): (r: Option<string>)
    ensures r.Some? ==> |r.value| > 0 && Stripped(r.value)
  {
    var t := Strip(line);
    if |t| >= 3 && t[..3] == "---" && Strip(t[3..]) != "" then Some(Strip(t[3..])) else None
  }

  /** The LABEL payload: the trimmed symbol, ':', the trimmed items joined by ','. */
  function LabelValue(symbol: string, items: string): string {
    Strip(symbol) + ":" + Join(Values.Map(Strip, Split(items, ',')), ",")
  }

  /** `\s*\(([^:]+):\s*([^)]+)\)` with `re.match`: anchored at the start
      only, so whatever follows the first ')' after the ':' is ignored. The
      first group runs to the first ':'; the second runs from the ':' to the
      next ')' without its leading whitespace, or is the last character
      before the ')' when only whitespace lies between. */
  function LabelHead(line: string): (r: Option<string>)
  {
    match LabelGroups(LStrip(line))
    case Some(g) => Some(LabelValue(g.0, g.1))
    case None => None
  }

  /** The two groups of the label pattern, read from a line whose leading
      whitespace is already removed. */
  function LabelGroups(t: string): Option<(string, string)>
  {
    if |t| >= 1 && t[0] == '(' then
      match FirstFrom(t, 1, {':'})
      case Some(c) =>
        if c >= 2 then
          match FirstFrom(t, c + 1, {')'})
          case Some(q) =>
            if q > c + 1 then
              var b := t[c + 1..q];
              Some((t[1..c], if AllSpace(b) then b[|b| - 1..] else b[LeadCount(b)..]))
            else None
          case None => None
        else None
      case None => None
    else None
  }

  predicate AllDigits(s: string) {
    forall i :: 0 <= i < |s| ==> '0' <= s[i] <= '9'
  }

  /** `^\s*(\d+\.\s+.*)$`. */
  predicate IsOrderedItem(line: string) {
    var t := LStrip(line);
    exists d :: 0 < d && d + 1 < |t| && AllDigits(t[..d]) && t[d] == '.' && IsSpace(t[d + 1])
  }

  /** `^\s*(-\\s+.*)$`: the pattern is written with a doubled backslash, so
      it asks for a literal '-', a backslash and one or more 's'. */
  predicate IsUnorderedItem(line: string) {
    var t := LStrip(line);
    |t| >= 3 && t[0] == '-' && t[1] == '\\' && t[2] == 's'
  }

  // ---------------------------------------------------------------------
  // The inline scanner (`_process_line_content`)
  // ---------------------------------------------------------------------

  /** One annotation span `` `content`[annotation] `` found on a line. */
  datatype Note = Note(content: string, annotation: string)

  function NoteOf(m: Match): Note {
    Note(m.g1, m.g2)
  }

  datatype Scan = Scan(text: string, notes: seq<Note>, explanation: string)

  /** Where `>>\s*([^\n]+?)\s*$` is found in a stripped line without '\n':
      the first `>>` with at least one character after it. Its group is then
      the rest of the line, stripped. */
  function AsideFrom(rem: string, k: nat): (r: Option<nat>)
    ensures r.Some? ==> k <= r.value && r.value + 2 < |rem| && rem[r.value] == '>' && rem[r.value + 1] == '>'
    ensures r.Some? ==> forall p :: k <= p < r.value ==> !(rem[p] == '>' && rem[p + 1] == '>')
    ensures r.None? ==> forall p :: k <= p && p + 2 < |rem| ==> !(rem[p] == '>' && rem[p + 1] == '>')
    decreases |rem| - k
  {
    if k + 2 >= |rem| then None
    else if rem[k] == '>' && rem[k + 1] == '>' then Some(k)
    else AsideFrom(rem, k + 1)
  }

  lemma NoNewlineSlice(s: string, a: nat, b: nat)
    requires NoNewline(s) && a <= b <= |s|
    ensures NoNewline(s[a..b]) && NoNewline(s[a..])
  {
    assert forall i :: a <= i < b ==> s[a..b][i - a] == s[i];
    assert forall i :: a <= i < |s| ==> s[a..][i - a] == s[i];
  }

  /** The scan loop over the stripped remainder of a line: each round takes
      the leftmost annotation span, appending the stripped text before it and
      ` __content__ ` to the text; once no span is left, the rest is read by
      `TailScan`. */
  function ScanLine(rem: string): (r: Scan)
    requires Stripped(rem) && NoNewline(rem)
    ensures rem != "" ==> |r.notes| > 0 || r.text != "" || r.explanation != ""
    ensures rem == "" ==> r == Scan("", [], "")
    decreases |rem|
  {
    if rem == "" then Scan("", [], "")
    else
      match Search(Of(LexVibe), rem)
      case Some(m) =>
        NoNewlineSlice(rem, m.end, |rem|);
        var rest := ScanLine(Strip(rem[m.end..]));
        Scan(Strip(rem[..m.start]) + " __" + m.g1 + "__ " + rest.text, [NoteOf(m)] + rest.notes, rest.explanation)
      case None => TailScan(rem)
  }

  /** The stripped rest of a line once no annotation span is left: a `>>`
      splits it into the text before it and the explanation after it, both
      stripped; without one, the whole rest is text. */
  function TailScan(rem: string): (r: Scan)
    requires Stripped(rem)
    ensures r.notes == []
    ensures rem != "" ==> r.text != "" || r.explanation != ""
    ensures r.explanation != "" ==> AsideFrom(rem, 0).Some?
  {
    match AsideFrom(rem, 0)
    case Some(p) =>
      assert rem[p + 2..][|rem| - p - 3] == rem[|rem| - 1];
      Scan(Strip(rem[..p]), [], Strip(rem[p + 2..]))
    case None => Scan(rem, [], "")
  }

  /** What the scan of the stripped line `c` should give, read off the spans
      `ms` that `finditer` reports on `c` alone, `e` being where the previous
      span ended: for each span, the stripped gap before it and
      ` __content__ `; after the last span, the stripped tail, read by
      `TailScan`. */
  function ScanOfSpans(c: string, e: nat, ms: seq<Match>): (r: Scan)
    requires e <= |c| && Chained(ms, e, |c|)
    ensures r.notes == Values.Map(NoteOf, ms)
    decreases |ms|
  {
    if |ms| == 0 then TailScan(Strip(c[e..]))
    else
      var rest := ScanOfSpans(c, ms[0].end, ms[1..]);
      Scan(Strip(c[e..ms[0].start]) + " __" + ms[0].g1 + "__ " + rest.text, [NoteOf(ms[0])] + rest.notes, rest.explanation)
  }

  function NoteTokens(notes: seq<Note>, n: int): (ts: seq<Token>)
    ensures |ts| == |notes|
    ensures forall i :: 0 <= i < |ts| ==>
      ts[i] == Token(VibeCard, notes[i].content + "[" + notes[i].annotation + "]", n)
  {
    if |notes| == 0 then [] else [Token(VibeCard, notes[0].content + "[" + notes[0].annotation + "]", n)] + NoteTokens(notes[1..], n)
  }

  /** The tokens of an inline line: its VIBE_CARD tokens, then at most one
      TEXT, then at most one INLINE_EXPLANATION. */
  function ContentTokens(content: string, n: int): (ts: seq<Token>)
    requires NoNewline(content)
  {
    NoNewlineSlice(content, LeadCount(content), LeadCount(content) + |Strip(content)|);
    ScanTokens(ScanLine(Strip(content)), n)
  }

  /** The tokens of one scanned line, all on line `n`: a VIBE_CARD per note
      in order, then the TEXT when there is text, then the
      INLINE_EXPLANATION, last, when there is an explanation. */
  function ScanTokens(sc: Scan, n: int): (ts: seq<Token>)
    ensures |ts| == |sc.notes| + (if sc.text != "" then 1 else 0) + (if sc.explanation != "" then 1 else 0)
    ensures forall i :: 0 <= i < |ts| ==> ts[i].line == n && ts[i].kind in {VibeCard, PlainText, InlineExplanation}
    ensures ts[..|sc.notes|] == NoteTokens(sc.notes, n)
    ensures sc.text != "" ==> ts[|sc.notes|] == Token(PlainText, sc.text, n)
    ensures sc.explanation != "" ==> ts[|ts| - 1] == Token(InlineExplanation, sc.explanation, n)
  {
    var notes := NoteTokens(sc.notes, n);
    var ts := notes
      + (if sc.text != "" then [Token(PlainText, sc.text, n)] else [])
      + (if sc.explanation != "" then [Token(InlineExplanation, sc.explanation, n)] else []);
    assert ts[..|notes|] == notes;
    ts
  }

  /** `_process_inline_elements`: a label, else a list item, else plain content. */
  function InlineTokens(line: string, n: int): (ts: seq<Token>)
    requires NoNewline(line)
  {
    match LabelHead(line)
    case Some(v) => [Token(LabelText, v, n)]
    case None =>
      if IsOrderedItem(line) || IsUnorderedItem(line) then
        NoNewlineSlice(line, LeadCount(line), |line|);
        NoNewlineSlice(LStrip(line), LeadCount(LStrip(line)), LeadCount(LStrip(line)) + |Strip(LStrip(line))|);
        ContentTokens(Strip(LStrip(line)), n)
      else ContentTokens(line, n)
  }

  /** The tokens of a line read outside a code block, by the fixed precedence
      blank, fence, archive, card start, card end, region, then inline. */
  function LineTokens(line: string, n: int): (ts: seq<Token>)
    requires NoNewline(line)
    ensures |ts| >= 1
    ensures forall i :: 0 <= i < |ts| ==> ts[i].line == n
    ensures AllSpace(line) ==> ts == [Token(EmptyLine, "", n)]
    ensures !AllSpace(line) && FenceLang(line).Some? ==> ts == [Token(CodeStart, FenceLang(line).value, n)]
  {
    if AllSpace(line) then [Token(EmptyLine, "", n)]
    else if FenceLang(line).Some? then [Token(CodeStart, FenceLang(line).value, n)]
    else if ArchiveHead(line).Some? then [Token(ArchiveName, ArchiveHead(line).value, n)]
    else if CardHead(line).Some? then [Token(CardStart, CardHead(line).value, n)]
    else if IsCardClose(line) then [Token(CardEnd, "", n)]
    else if RegionHead(line).Some? then [Token(RegionName, RegionHead(line).value, n)]
    else
      var ts := InlineTokens(line, n);
      InlineNonEmpty(line, n);
      ts
  }

  /** `'\n'.join(xs)`: a code block's body as one string. */
  function Unlines(xs: seq<string>): string {
    Join(xs, "\n")
  }

  /** `_process_line`: one more line of input. */
  function Step(st: LexState, line: string): (r: LexState)
    requires NoNewline(line)
    ensures r.lineNum == st.lineNum + 1
  {
    var n := st.lineNum + 1;
    if st.inCode then
      if IsFenceEnd(line) then
        var body := if |st.buf| > 0 then [Token(CodeContent, Unlines(st.buf), n - |st.buf|)] else [];
        LexState(st.tokens + body + [Token(CodeEnd, "", n)], n, false, st.lang, [])
      else st.(lineNum := n, buf := st.buf + [line])
    else
      var ts := LineTokens(line, n);
      if !AllSpace(line) && FenceLang(line).Some? then
        LexState(st.tokens + ts, n, true, FenceLang(line).value, [])
      else st.(tokens := st.tokens + ts, lineNum := n)
  }

  predicate Lines(lines: seq<string>) {
    forall i :: 0 <= i < |lines| ==> NoNewline(lines[i])
  }

  const Start := LexState([], 0, false, "", [])

  /** The state after the given lines, read in order from the start. */
  function Lex(lines: seq<string>): LexState
    requires Lines(lines)
  {
    if |lines| == 0 then Start else Step(Lex(lines[..|lines| - 1]), lines[|lines| - 1])
  }

  /** `Lexer.tokenize`. */
  function Tokenize(text: string): seq<Token> {
    SplitLines(text);
    Lex(Split(text, '\n')).tokens
  }

  lemma SplitLines(text: string)
    ensures Lines(Split(text, '\n'))
  {
  }

  // ---------------------------------------------------------------------
  // Properties
  // ---------------------------------------------------------------------

  /** A non-blank line read inline yields at least one token. */
  lemma InlineNonEmpty(line: string, n: int)
    requires NoNewline(line) && !AllSpace(line)
    ensures |InlineTokens(line, n)| >= 1
    ensures forall i :: 0 <= i < |InlineTokens(line, n)| ==> InlineTokens(line, n)[i].line == n
  {
    match LabelHead(line)
    case Some(v) =>
      assert InlineTokens(line, n) == [Token(LabelText, v, n)];
    case None =>
      InlineIsContent(line, n);
      ContentNonEmpty(line, n);
  }

  /** A line that is not a label yields its content's tokens, list item or not. */
  lemma InlineIsContent(line: string, n: int)
    requires NoNewline(line) && LabelHead(line).None?
    ensures InlineTokens(line, n) == ContentTokens(line, n)
  {
    if IsOrderedItem(line) || IsUnorderedItem(line) {
      ListIsPlain(line, n);
    }
  }

  lemma ContentNonEmpty(content: string, n: int)
    requires NoNewline(content) && !AllSpace(content)
    ensures |ContentTokens(content, n)| >= 1
    ensures forall i :: 0 <= i < |ContentTokens(content, n)| ==> ContentTokens(content, n)[i].line == n
  {
    var sc := ScanLine(Strip(content));
    assert Strip(content) != "";
    assert |sc.notes| > 0 || sc.text != "" || sc.explanation != "";
  }

  lemma StripLStrip(s: string)
    ensures Strip(LStrip(s)) == Strip(s)
  {
    var a := LeadCount(s);
    var t := LStrip(s);
    assert LeadCount(t) == 0;
    assert t == s[a..];
  }

  /** A list line yields exactly what the same line read as plain content
      yields: the list patterns only decide which of two equal contents is
      scanned, and the marker stays in the text. */
  lemma ListIsPlain(line: string, n: int)
    requires NoNewline(line)
    ensures NoNewline(Strip(LStrip(line)))
    ensures ContentTokens(Strip(LStrip(line)), n) == ContentTokens(line, n)
  {
    StripLStrip(line);
    StripOfStripped(Strip(line));
    NoNewlineSlice(line, LeadCount(line), LeadCount(line) + |Strip(line)|);
  }

  /** The scan finds exactly the spans `finditer` finds on the stripped
      line, in the same order: stripping between rounds only drops
      whitespace, where no span can start. */
  lemma ScanFindsAll(content: string)
    requires NoNewline(content)
    ensures NoNewline(Strip(content))
    ensures ScanLine(Strip(content)).notes == Values.Map(NoteOf, FindAll(Of(LexVibe), Strip(content)))
  {
    ScanAgreesWithSpans(content);
  }

  /** The scan of a line agrees with the reading of `finditer`'s spans: the
      notes, the TEXT with each span written ` __content__ ` between the
      stripped gaps, and the explanation after a `>>` in the tail. */
  lemma ScanAgreesWithSpans(content: string)
    requires NoNewline(content)
    ensures NoNewline(Strip(content))
    ensures ScanLine(Strip(content)) == ScanOfSpans(Strip(content), 0, FindAll(Of(LexVibe), Strip(content)))
  {
    var c := Strip(content);
    StripNoNewline(content);
    assert c[0..] == c;
    ScanFrom(c, 0, 0);
  }

  /** The tokens of an inline content line, read off `finditer`'s spans:
      one VIBE_CARD per span, then the TEXT, then the INLINE_EXPLANATION. */
  lemma ContentTokensBySpans(content: string, n: int)
    requires NoNewline(content)
    ensures ContentTokens(content, n) == ScanTokens(ScanOfSpans(Strip(content), 0, FindAll(Of(LexVibe), Strip(content))), n)
  {
    ScanAgreesWithSpans(content);
  }

  lemma StripNoNewline(s: string)
    requires NoNewline(s)
    ensures NoNewline(Strip(s))
  {
    NoNewlineSlice(s, LeadCount(s), LeadCount(s) + |Strip(s)|);
  }

  /** No annotation span starts on whitespace: it starts with a backtick. */
  lemma NoSpanAtSpace(c: string, i: nat)
    requires i < |c| && IsSpace(c[i])
    ensures Of(LexVibe)(c, i).None?
  {
  }

  /** `finditer` from `e` finds what it finds from `pos` when only
      whitespace lies between. */
  lemma FindAllAfterSpaces(c: string, e: nat, pos: nat)
    requires e <= pos <= |c| && forall i :: e <= i < pos ==> IsSpace(c[i])
    ensures FindAllFrom(Of(LexVibe), c, e) == FindAllFrom(Of(LexVibe), c, pos)
  {
    forall i | e <= i < pos
      ensures Of(LexVibe)(c, i).None?
    {
      NoSpanAtSpace(c, i);
    }
    FindAllSkip(Of(LexVibe), c, e, pos);
  }

  /** The first non-blank position at or after `e` in stripped text: what
      stripping the rest of the text from `e` on leaves. */
  lemma NextWord(c: string, pos: nat, e: nat) returns (next: nat)
    requires pos <= e <= |c| && Stripped(c[pos..])
    ensures e <= next <= |c| && Stripped(c[next..])
    ensures Strip(c[e..]) == c[next..]
    ensures forall i :: e <= i < next ==> IsSpace(c[i])
  {
    var u := c[e..];
    if |u| > 0 {
      assert u[|u| - 1] == c[pos..][|c| - pos - 1];
    }
    StripUntrailed(u);
    var lead := LeadCount(u);
    next := e + lead;
    DropDrop(c, e, lead, next);
    TakeOfDrop(c, e, lead, next);
    AllSpaceBetween(c, e, next);
    if next < |c| {
      assert c[next..][|c| - next - 1] == c[pos..][|c| - pos - 1];
    }
  }

  /** With no span left, the scan reads the tail, which is what stripping
      the text from the previous span's end leaves. */
  lemma ScanTail(c: string, e: nat, pos: nat)
    requires NoNewline(c) && e <= pos <= |c| && Stripped(c[pos..]) && NoNewline(c[pos..])
    requires forall i :: e <= i < pos ==> IsSpace(c[i])
    requires SearchFrom(Of(LexVibe), c, pos).None? && Search(Of(LexVibe), c[pos..]).None?
    ensures ScanLine(c[pos..]) == ScanOfSpans(c, e, FindAllFrom(Of(LexVibe), c, e))
  {
    FindAllAfterSpaces(c, e, pos);
    StripAfterSpaces(c, e, pos);
    ScanNone(c[pos..]);
  }

  /** With no span, the scan is the reading of the tail. */
  lemma ScanNone(rem: string)
    requires Stripped(rem) && NoNewline(rem) && Search(Of(LexVibe), rem).None?
    ensures ScanLine(rem) == TailScan(rem)
  {
  }

  /** Stripping the text from `e` on skips the whitespace up to `pos`. */
  lemma StripAfterSpaces(c: string, e: nat, pos: nat)
    requires e <= pos <= |c| && Stripped(c[pos..])
    requires forall i :: e <= i < pos ==> IsSpace(c[i])
    ensures Strip(c[e..]) == c[pos..]
  {
    StripSkipsLeading(c, e, pos);
    StripOfStripped(c[pos..]);
  }

  /** One round of the scan at a span `mc` of the whole line: the gap before
      it, stripped, is the gap from the previous span's end `e`, and the
      scan resumes at the next non-blank position after it. */
  lemma ScanRound(c: string, e: nat, pos: nat, mc: Match) returns (next: nat)
    requires NoNewline(c) && e <= pos <= |c| && Stripped(c[pos..])
    requires forall i :: e <= i < pos ==> IsSpace(c[i])
    requires SearchFrom(Of(LexVibe), c, pos) == Some(mc)
    ensures pos <= mc.start < mc.end <= next <= |c| && Stripped(c[next..])
    ensures forall i :: mc.end <= i < next ==> IsSpace(c[i])
    ensures NoNewline(c[pos..]) && NoNewline(c[next..])
    ensures var rest := ScanLine(c[next..]);
      ScanLine(c[pos..]) == Scan(Strip(c[e..mc.start]) + " __" + NoteOf(mc).content + "__ " + rest.text, [NoteOf(mc)] + rest.notes, rest.explanation)
  {
    NoNewlineSlice(c, pos, |c|);
    SearchShifted(c, pos, mc);
    var m := ShiftMatch(mc, pos);
    assert m.start == mc.start - pos && m.end == mc.end - pos;
    next := RoundRest(c, pos, mc, m);
    RoundGap(c, e, pos, mc.start, m.start);
    ScanAt(c[pos..], m, Strip(c[e..mc.start]), c[next..], NoteOf(mc));
  }

  /** The span the search finds from `pos` is the one a search of the
      text from `pos` on finds, shifted. */
  lemma SearchShifted(c: string, pos: nat, mc: Match)
    requires pos <= |c| && SearchFrom(Of(LexVibe), c, pos) == Some(mc)
    ensures pos <= mc.start < mc.end <= |c|
    ensures Search(Of(LexVibe), c[pos..]) == Some(ShiftMatch(mc, pos))
    ensures ShiftMatch(mc, pos).start < ShiftMatch(mc, pos).end <= |c[pos..]|
    ensures NoteOf(ShiftMatch(mc, pos)) == NoteOf(mc)
  {
    FindAllMatchesAt(c, pos, mc);
    LocalOf(LexVibe);
    SearchFromSuffix(Of(LexVibe), c, pos, 0);
  }

  /** Where the next round starts: what stripping the text after the span
      leaves. */
  lemma RoundRest(c: string, pos: nat, mc: Match, m: Match) returns (next: nat)
    requires NoNewline(c) && pos <= mc.start < mc.end <= |c| && Stripped(c[pos..])
    requires m.end == mc.end - pos
    ensures mc.end <= next <= |c| && Stripped(c[next..]) && NoNewline(c[next..])
    ensures forall i :: mc.end <= i < next ==> IsSpace(c[i])
    ensures Strip(c[pos..][m.end..]) == c[next..]
  {
    next := NextWord(c, pos, mc.end);
    DropDrop(c, pos, m.end, mc.end);
    NoNewlineSlice(c, next, |c|);
  }

  /** The stripped gap before a span does not depend on the whitespace
      the previous round skipped. */
  lemma RoundGap(c: string, e: nat, pos: nat, st: nat, k: nat)
    requires e <= pos <= st <= |c| && k == st - pos
    requires forall i :: e <= i < pos ==> IsSpace(c[i])
    ensures Strip(c[pos..][..k]) == Strip(c[e..st])
  {
    TakeOfDrop(c, pos, k, st);
    StripSkipsSpaces(c, e, pos, st);
  }

  /** One round of the scan, read on the remainder itself, with the
      stripped gap, the stripped rest and the note given by name. */
  lemma ScanAt(rem: string, m: Match, gap: string, tail: string, note: Note)
    requires Stripped(rem) && NoNewline(rem) && Search(Of(LexVibe), rem) == Some(m)
    requires m.start < m.end <= |rem|
    requires gap == Strip(rem[..m.start]) && tail == Strip(rem[m.end..]) && note == NoteOf(m)
    ensures Stripped(tail) && NoNewline(tail)
    ensures var rest := ScanLine(tail);
      ScanLine(rem) == Scan(gap + " __" + note.content + "__ " + rest.text, [note] + rest.notes, rest.explanation)
  {
    NoNewlineSlice(rem, m.end, |rem|);
    StripNoNewline(rem[m.end..]);
  }

  /** A span the search reports lies inside the searched text. */
  lemma FindAllMatchesAt(c: string, pos: nat, mc: Match)
    requires pos <= |c| && SearchFrom(Of(LexVibe), c, pos) == Some(mc)
    ensures pos <= mc.start < mc.end <= |c|
  {
    assert Of(LexVibe)(c, mc.start) == Some(mc);
  }

  /** The scan from `pos`, with only whitespace between the previous span's
      end `e` and `pos`, is the reading of the spans `finditer` finds from `e`. */
  lemma {:induction false} ScanFrom(c: string, e: nat, pos: nat)
    requires NoNewline(c) && e <= pos <= |c| && Stripped(c[pos..])
    requires forall i :: e <= i < pos ==> IsSpace(c[i])
    ensures NoNewline(c[pos..])
    ensures ScanLine(c[pos..]) == ScanOfSpans(c, e, FindAllFrom(Of(LexVibe), c, e))
    decreases |c| - pos
  {
    NoNewlineSlice(c, pos, |c|);
    var f := Of(LexVibe);
    LocalOf(LexVibe);
    SearchFromSuffix(f, c, pos, 0);
    FindAllAfterSpaces(c, e, pos);
    match SearchFrom(f, c, pos)
    case None =>
      ScanTail(c, e, pos);
    case Some(mc) =>
      var next := ScanRound(c, e, pos, mc);
      ScanFrom(c, mc.end, next);
      var ms := FindAllFrom(f, c, pos);
      assert ms == [mc] + FindAllFrom(f, c, mc.end);
      assert ms[1..] == FindAllFrom(f, c, mc.end);
  }

  // ---------------------------------------------------------------------
  // The fold: order of tokens and code blocks
  // ---------------------------------------------------------------------

  predicate Ordered(ts: seq<Token>) {
    forall i, j :: 0 <= i < j < |ts| ==> ts[i].line <= ts[j].line
  }

  /** The last line a token may carry so far: inside a code block, the line
      of its opening fence. */
  function Frontier(st: LexState): int {
    if st.inCode then st.lineNum - |st.buf| else st.lineNum
  }

  /** What holds after every line: tokens in line order, 1-based, none past
      the frontier; inside a block, the last token is its opening fence. */
  predicate Good(st: LexState) {
    && Ordered(st.tokens)
    && (forall i :: 0 <= i < |st.tokens| ==> 1 <= st.tokens[i].line <= Frontier(st))
    && (st.inCode ==>
          && |st.buf| < st.lineNum && |st.tokens| > 0
          && st.tokens[|st.tokens| - 1] == Token(CodeStart, st.lang, st.lineNum - |st.buf|))
  }

  lemma OrderedAppend(ts: seq<Token>, us: seq<Token>, n: int)
    requires Ordered(ts) && (forall i :: 0 <= i < |ts| ==> ts[i].line <= n)
    requires Ordered(us) && (forall i :: 0 <= i < |us| ==> n <= us[i].line)
    ensures Ordered(ts + us)
  {
  }

  /** Closing a code block appends its body and end after the fence. */
  lemma StepGoodClose(st: LexState, line: string)
    requires Good(st) && NoNewline(line) && st.inCode && IsFenceEnd(line)
    ensures Good(Step(st, line))
    ensures Step(st, line).tokens[..|st.tokens|] == st.tokens
  {
    var n := st.lineNum + 1;
    var body := if |st.buf| > 0 then [Token(CodeContent, Unlines(st.buf), n - |st.buf|)] else [];
    OrderedAppend(st.tokens, body + [Token(CodeEnd, "", n)], n - |st.buf|);
    assert Step(st, line).tokens == st.tokens + (body + [Token(CodeEnd, "", n)]);
  }

  /** Outside a code block, a line's tokens all carry the line's number. */
  lemma StepGoodOutside(st: LexState, line: string)
    requires Good(st) && NoNewline(line) && !st.inCode
    ensures Good(Step(st, line))
    ensures Step(st, line).tokens[..|st.tokens|] == st.tokens
  {
    OrderedAppend(st.tokens, LineTokens(line, st.lineNum + 1), st.lineNum + 1);
  }

  /** A line only appends tokens, and keeps them ordered. */
  lemma {:induction false} StepGood(st: LexState, line: string)
    requires Good(st) && NoNewline(line)
    ensures Good(Step(st, line))
    ensures Step(st, line).tokens[..|st.tokens|] == st.tokens
  {
    if !st.inCode {
      StepGoodOutside(st, line);
    } else if IsFenceEnd(line) {
      StepGoodClose(st, line);
    }
  }

  lemma {:induction false} LexGood(lines: seq<string>)
    requires Lines(lines)
    ensures Good(Lex(lines))
  {
    if |lines| > 0 {
      var pre := lines[..|lines| - 1];
      LexGood(pre);
      StepGood(Lex(pre), lines[|lines| - 1]);
    }
  }

  /** Tokens come out in line order, each carrying a line of the input. */
  lemma TokensInOrder(text: string)
    ensures Ordered(Tokenize(text))
    ensures forall i :: 0 <= i < |Tokenize(text)| ==> 1 <= Tokenize(text)[i].line <= |Split(text, '\n')|
  {
    LexGood(Split(text, '\n'));
    LexCount(Split(text, '\n'));
  }

  // Laws of a fold, for any step and any fold over it. The code-block
  // lemmas below are proved once from these laws, apart from how a line is
  // classified and how the fold recurses, which keeps each proof small.

  /** Every line without '\n' can be read in every state. */
  ghost predicate Total(step: (LexState, string) --> LexState) {
    forall st: LexState, l: string :: NoNewline(l) ==> step.requires(st, l)
  }

  /** `fold` reads the lines one by one with `step`. */
  ghost predicate Snocs(fold: seq<string> --> LexState, step: (LexState, string) --> LexState) {
    && Total(step)
    && (forall lines: seq<string> :: Lines(lines) ==> fold.requires(lines))
    && (forall pre: seq<string>, x: string {:trigger fold(pre + [x])} :: Lines(pre) && NoNewline(x) ==>
          Lines(pre + [x]) && fold(pre + [x]) == step(fold(pre), x))
  }

  /** An opening fence outside a block emits `code_start` and opens one. */
  ghost predicate Opens(step: (LexState, string) --> LexState, opens: string -> Option<string>)
    requires Total(step)
  {
    forall st: LexState, l: string {:trigger step(st, l)} :: NoNewline(l) && !st.inCode && opens(l).Some? ==>
      step(st, l) == LexState(st.tokens + [Token(CodeStart, opens(l).value, st.lineNum + 1)], st.lineNum + 1, true,
                              opens(l).value, [])
  }

  /** Inside a block every line but a closing fence is buffered unread. */
  ghost predicate Buffers(step: (LexState, string) --> LexState, closes: string -> bool)
    requires Total(step)
  {
    forall st: LexState, l: string {:trigger step(st, l)} :: NoNewline(l) && st.inCode && !closes(l) ==>
      step(st, l) == st.(lineNum := st.lineNum + 1, buf := st.buf + [l])
  }

  /** A closing fence emits the joined body, when there is one, on the line
      after the opening fence, then `code_end`. */
  ghost predicate Closes(step: (LexState, string) --> LexState, closes: string -> bool, join: seq<string> -> string)
    requires Total(step)
  {
    forall st: LexState, l: string {:trigger step(st, l)} :: NoNewline(l) && st.inCode && closes(l) ==>
      step(st, l) ==
      LexState(st.tokens + (if |st.buf| > 0 then [Token(CodeContent, join(st.buf), st.lineNum + 1 - |st.buf|)] else [])
               + [Token(CodeEnd, "", st.lineNum + 1)], st.lineNum + 1, false, st.lang, [])
  }

  lemma {:induction false} FoldBuffered(fold: seq<string> --> LexState, step: (LexState, string) --> LexState,
                                        closes: string -> bool, pre: seq<string>, body: seq<string>)
    requires Snocs(fold, step) && Buffers(step, closes) && Lines(pre) && Lines(body)
    requires fold(pre).inCode
    requires forall i :: 0 <= i < |body| ==> !closes(body[i])
    ensures Lines(pre + body)
    ensures fold(pre + body) == fold(pre).(lineNum := fold(pre).lineNum + |body|, buf := fold(pre).buf + body)
  {
    if |body| > 0 {
      var b := body[..|body| - 1];
      var x := body[|body| - 1];
      FoldBuffered(fold, step, closes, pre, b);
      assert pre + b + [x] == pre + body;
      assert fold(pre + b + [x]) == step(fold(pre + b), x);
      assert fold(pre).buf + b + [x] == fold(pre).buf + body;
    } else {
      assert pre + body == pre;
    }
  }

  /** An opening fence, then lines none of which closes: the block stays
      open with the opening token last and the lines buffered. */
  lemma {:induction false} FoldUnclosed(fold: seq<string> --> LexState, step: (LexState, string) --> LexState,
                     opens: string -> Option<string>, closes: string -> bool,
                     pre: seq<string>, open: string, body: seq<string>)
    requires Snocs(fold, step) && Opens(step, opens) && Buffers(step, closes)
    requires Lines(pre) && Lines(body) && NoNewline(open)
    requires !fold(pre).inCode && opens(open).Some?
    requires forall i :: 0 <= i < |body| ==> !closes(body[i])
    ensures Lines(pre + [open] + body)
    ensures fold(pre + [open] + body) ==
      LexState(fold(pre).tokens + [Token(CodeStart, opens(open).value, fold(pre).lineNum + 1)],
               fold(pre).lineNum + 1 + |body|, true, opens(open).value, body)
  {
    assert fold(pre + [open]) == step(fold(pre), open);
    FoldBuffered(fold, step, closes, pre + [open], body);
    assert [] + body == body;
  }

  /** The tokens of one fenced block opened on line `m + 1`: the opening token
      with its language, the body joined as one content token on the line after
      the fence (only when there is a body), and the closing token. */
  function BlockTokens(lang: string, body: seq<string>, content: string, m: nat): (r: seq<Token>)
    ensures |r| == if |body| > 0 then 3 else 2
    ensures r[0] == Token(CodeStart, lang, m + 1) && r[|r| - 1] == Token(CodeEnd, "", m + |body| + 2)
  {
    [Token(CodeStart, lang, m + 1)] + (if |body| > 0 then [Token(CodeContent, content, m + 2)] else [])
    + [Token(CodeEnd, "", m + |body| + 2)]
  }

  lemma FlushShape(join: seq<string> -> string, u: LexState, c: LexState, ts: seq<Token>,
                   body: seq<string>, lang: string, m: nat)
    requires u == LexState(ts + [Token(CodeStart, lang, m + 1)], m + 1 + |body|, true, lang, body)
    requires c == LexState(u.tokens + (if |u.buf| > 0 then [Token(CodeContent, join(u.buf), u.lineNum + 1 - |u.buf|)] else [])
                           + [Token(CodeEnd, "", u.lineNum + 1)], u.lineNum + 1, false, u.lang, [])
    ensures !c.inCode
    ensures c.tokens == ts + BlockTokens(lang, body, join(body), m)
  {
  }

  /** A whole block: its opening token, the body joined on the line after
      the opening fence (only when there is a body), and the closing token. */
  lemma {:induction false} FoldBlock(fold: seq<string> --> LexState, step: (LexState, string) --> LexState,
                  opens: string -> Option<string>, closes: string -> bool, join: seq<string> -> string,
                  pre: seq<string>, open: string, body: seq<string>, close: string, m: nat)
    requires Snocs(fold, step) && Opens(step, opens) && Buffers(step, closes) && Closes(step, closes, join)
    requires Lines(pre) && Lines(body) && NoNewline(open) && NoNewline(close)
    requires !fold(pre).inCode && fold(pre).lineNum == m && opens(open).Some? && closes(close)
    requires forall i :: 0 <= i < |body| ==> !closes(body[i])
    ensures Lines(pre + [open] + body + [close])
    ensures !fold(pre + [open] + body + [close]).inCode
    ensures fold(pre + [open] + body + [close]).tokens == fold(pre).tokens + BlockTokens(opens(open).value, body, join(body), m)
  {
    FoldUnclosed(fold, step, opens, closes, pre, open, body);
    assert fold(pre + [open] + body + [close]) == step(fold(pre + [open] + body), close);
    FlushShape(join, fold(pre + [open] + body), fold(pre + [open] + body + [close]), fold(pre).tokens,
               body, opens(open).value, m);
  }

  // The tokenizer's own fold

  lemma {:induction false} LexCount(lines: seq<string>)
    requires Lines(lines)
    ensures Lex(lines).lineNum == |lines|
  {
    if |lines| > 0 {
      LexCount(lines[..|lines| - 1]);
    }
  }

  lemma LexSnoc(pre: seq<string>, x: string)
    requires Lines(pre) && NoNewline(x)
    ensures Lines(pre + [x]) && Lex(pre + [x]) == Step(Lex(pre), x)
  {
    assert (pre + [x])[..|pre|] == pre;
  }

  lemma StepBuffer(st: LexState, line: string)
    requires NoNewline(line) && st.inCode && !IsFenceEnd(line)
    ensures Step(st, line) == st.(lineNum := st.lineNum + 1, buf := st.buf + [line])
  {
  }

  lemma StepOpen(st: LexState, line: string)
    requires NoNewline(line) && !st.inCode && FenceLang(line).Some?
    ensures Step(st, line) ==
      LexState(st.tokens + [Token(CodeStart, FenceLang(line).value, st.lineNum + 1)], st.lineNum + 1, true,
               FenceLang(line).value, [])
  {
  }

  lemma StepClose(st: LexState, line: string)
    requires NoNewline(line) && st.inCode && IsFenceEnd(line)
    ensures Step(st, line) ==
      LexState(st.tokens + (if |st.buf| > 0 then [Token(CodeContent, Unlines(st.buf), st.lineNum + 1 - |st.buf|)] else [])
               + [Token(CodeEnd, "", st.lineNum + 1)], st.lineNum + 1, false, st.lang, [])
  {
  }

  /** The tokenizer reads line by line, and its step obeys the fence laws. */
  lemma LexLaws()
    ensures Snocs(Lex, Step) && Opens(Step, FenceLang)
    ensures Buffers(Step, IsFenceEnd) && Closes(Step, IsFenceEnd, Unlines)
  {
    forall pre: seq<string>, x: string | Lines(pre) && NoNewline(x)
      ensures Lines(pre + [x]) && Lex(pre + [x]) == Step(Lex(pre), x)
    {
      LexSnoc(pre, x);
    }
    forall st: LexState, l: string | NoNewline(l) && !st.inCode && FenceLang(l).Some?
      ensures Step(st, l) == LexState(st.tokens + [Token(CodeStart, FenceLang(l).value, st.lineNum + 1)],
                                      st.lineNum + 1, true, FenceLang(l).value, [])
    {
      StepOpen(st, l);
    }
    forall st: LexState, l: string | NoNewline(l) && st.inCode && !IsFenceEnd(l)
      ensures Step(st, l) == st.(lineNum := st.lineNum + 1, buf := st.buf + [l])
    {
      StepBuffer(st, l);
    }
    forall st: LexState, l: string | NoNewline(l) && st.inCode && IsFenceEnd(l)
      ensures Step(st, l) ==
        LexState(st.tokens + (if |st.buf| > 0 then [Token(CodeContent, Unlines(st.buf), st.lineNum + 1 - |st.buf|)] else [])
                 + [Token(CodeEnd, "", st.lineNum + 1)], st.lineNum + 1, false, st.lang, [])
    {
      StepClose(st, l);
    }
  }

  /** Inside a code block lines are not classified: they are buffered as
      they are, and nothing is emitted until a closing fence. */
  lemma {:induction false} Buffered(pre: seq<string>, body: seq<string>)
    requires Lines(pre) && Lines(body) && Lex(pre).inCode
    requires forall i :: 0 <= i < |body| ==> !IsFenceEnd(body[i])
    ensures Lines(pre + body)
    ensures Lex(pre + body) == Lex(pre).(lineNum := |pre| + |body|, buf := Lex(pre).buf + body)
  {
    LexLaws();
    LexCount(pre);
    FoldBuffered(Lex, Step, IsFenceEnd, pre, body);
  }

  /** A block the input never closes keeps its opening token, and its body
      is never emitted. */
  lemma {:induction false} Unclosed(pre: seq<string>, open: string, body: seq<string>)
    requires Lines(pre) && Lines(body) && NoNewline(open)
    requires !Lex(pre).inCode && FenceLang(open).Some?
    requires forall i :: 0 <= i < |body| ==> !IsFenceEnd(body[i])
    ensures Lines(pre + [open] + body)
    ensures Lex(pre + [open] + body) ==
      LexState(Lex(pre).tokens + [Token(CodeStart, FenceLang(open).value, |pre| + 1)], |pre| + 1 + |body|, true,
               FenceLang(open).value, body)
  {
    LexLaws();
    LexCount(pre);
    FoldUnclosed(Lex, Step, FenceLang, IsFenceEnd, pre, open, body);
  }

  /** A closed code block yields its opening token, its body joined with
      '\n' on the line after the fence (only when there is a body), and the
      closing token; splitting that content on '\n' gives the body back. */
  lemma {:induction false} CodeBlock(pre: seq<string>, open: string, body: seq<string>, close: string)
    requires Lines(pre) && Lines(body) && NoNewline(open) && NoNewline(close)
    requires !Lex(pre).inCode && FenceLang(open).Some? && IsFenceEnd(close)
    requires forall i :: 0 <= i < |body| ==> !IsFenceEnd(body[i])
    ensures Lines(pre + [open] + body + [close])
    ensures !Lex(pre + [open] + body + [close]).inCode
    ensures Lex(pre + [open] + body + [close]).tokens == Lex(pre).tokens + BlockTokens(FenceLang(open).value, body, Unlines(body), |pre|)
    ensures |body| > 0 ==> Split(Unlines(body), '\n') == body
  {
    LexLaws();
    LexCount(pre);
    FoldBlock(Lex, Step, FenceLang, IsFenceEnd, Unlines, pre, open, body, close, |pre|);
    if |body| > 0 {
      SplitJoin(body, '\n');
    }
  }

  // ---------------------------------------------------------------------
  // Structural lines against inline lines
  // ---------------------------------------------------------------------

  /** The kinds the line classifier emits for a whole line. */
  predicate Structural(k: Kind) {
    k == EmptyLine || k == CodeStart || k == ArchiveName || k == CardStart || k == CardEnd || k == RegionName
  }

  /** A line one of the structural checks accepts. */
  predicate StructuralLine(line: string) {
    || AllSpace(line) || FenceLang(line).Some? || ArchiveHead(line).Some?
    || CardHead(line).Some? || IsCardClose(line) || RegionHead(line).Some?
  }

  lemma ContentKinds(content: string, n: int)
    requires NoNewline(content)
    ensures forall i :: 0 <= i < |ContentTokens(content, n)| ==> !Structural(ContentTokens(content, n)[i].kind)
  {
  }

  /** A line that passes a structural check yields exactly one token, of a
      structural kind; any other line yields only label, annotation, text
      and explanation tokens. */
  lemma StructuralOnce(line: string, n: int)
    requires NoNewline(line)
    ensures StructuralLine(line) ==> |LineTokens(line, n)| == 1 && Structural(LineTokens(line, n)[0].kind)
    ensures !StructuralLine(line) ==> forall i :: 0 <= i < |LineTokens(line, n)| ==> !Structural(LineTokens(line, n)[i].kind)
  {
    if !StructuralLine(line) {
      InlineKinds(line, n);
    } else {
      StructuralOneToken(line, n);
    }
  }

  lemma StructuralOneToken(line: string, n: int)
    requires NoNewline(line) && StructuralLine(line)
    ensures |LineTokens(line, n)| == 1 && Structural(LineTokens(line, n)[0].kind)
  {
  }

  lemma InlineKinds(line: string, n: int)
    requires NoNewline(line) && !StructuralLine(line)
    ensures LineTokens(line, n) == InlineTokens(line, n)
    ensures forall i :: 0 <= i < |InlineTokens(line, n)| ==> !Structural(InlineTokens(line, n)[i].kind)
  {
    if LabelHead(line).None? {
      InlineIsContent(line, n);
      ContentKinds(line, n);
    }
  }

  /** Leading whitespace ends where it ends in any extension of a line that
      is not all whitespace. */
  lemma LeadCountExtend(s: string, u: string)
    requires !AllSpace(s)
    ensures LeadCount(s + u) == LeadCount(s)
  {
    var k, k' := LeadCount(s), LeadCount(s + u);
    assert k < |s| && (s + u)[k] == s[k];
    forall j | 0 <= j < k
      ensures IsSpace((s + u)[j])
    {
      assert s[..k][j] == s[j];
    }
  }

  /** The label groups end at the first ')' after the ':', so nothing after
      it counts. */
  lemma {:induction false} LabelGroupsExtend(t: string, tail: string)
    requires LabelGroups(t).Some?
    ensures LabelGroups(t + tail) == LabelGroups(t)
  {
    var T := t + tail;
    assert T[0] == t[0];
    var c := FirstFrom(t, 1, {':'}).value;
    FirstFromExtend(t, tail, 1, {':'});
    var q := FirstFrom(t, c + 1, {')'}).value;
    FirstFromExtend(t, tail, c + 1, {')'});
    assert T[c + 1..q] == t[c + 1..q];
    assert T[1..c] == t[1..c];
  }

  /** Stripping the leading whitespace of a line that is not all whitespace
      commutes with extending it. */
  lemma {:induction false} LStripExtend(line: string, tail: string)
    requires !AllSpace(line)
    ensures LStrip(line + tail) == LStrip(line) + tail
  {
    var k := LeadCount(line);
    LeadCountExtend(line, tail);
    assert (line + tail)[k..] == line[k..] + tail;
  }

  lemma {:induction false} SameLabelGroups(a: string, b: string)
    requires LabelGroups(LStrip(a)) == LabelGroups(LStrip(b))
    ensures LabelHead(a) == LabelHead(b)
  {
  }

  /** A label is read up to the first ')' after its ':'; whatever follows
      on the line is discarded. */
  lemma {:induction false} LabelIgnoresTail(line: string, tail: string)
    requires LabelHead(line).Some?
    ensures LabelHead(line + tail) == LabelHead(line)
  {
    var t := LStrip(line);
    assert |t| > 0 && t == line[LeadCount(line)..];
    LStripExtend(line, tail);
    LabelGroupsExtend(t, tail);
    SameLabelGroups(line + tail, line);
  }

  /** An annotation span starts with a backtick. */
  lemma SpanNeedsTick(s: string, i: nat)
    requires i <= |s|
    ensures Of(LexVibe)(s, i).Some? ==> i < |s| && s[i] == '`'
  {
    assert Of(LexVibe)(s, i) == VibeAt(s, i, false);
  }

  /** Only `/+>` closes a card: a line that strips to a bare `/+` is plain
      text. */
  lemma BareCardCloseIsText(line: string, n: int)
    requires NoNewline(line) && Strip(line) == "/+"
    ensures LineTokens(line, n) == [Token(PlainText, "/+", n)]
  {
    BareCardCloseHeads(line);
    BareCardCloseContent(line, n);
  }

  /** The line's first two non-blank characters are the `/+`. */
  lemma BareCardCloseStart(line: string)
    requires Strip(line) == "/+"
    ensures |LStrip(line)| >= 2 && LStrip(line)[0] == '/' && LStrip(line)[1] == '+'
  {
    var l := LeadCount(line);
    assert line[l..l + 2] == "/+";
    assert line[l] == '/' && line[l + 1] == '+';
  }

  lemma BareCardCloseHeads(line: string)
    requires Strip(line) == "/+"
    ensures !AllSpace(line) && FenceLang(line).None? && ArchiveHead(line).None? && CardHead(line).None?
    ensures !IsCardClose(line) && RegionHead(line).None? && LabelHead(line).None?
    ensures !IsOrderedItem(line) && !IsUnorderedItem(line)
  {
    BareCardCloseStart(line);
    var t := LStrip(line);
    assert forall d :: 0 < d <= |t| ==> t[..d][0] == '/';
  }

  lemma BareCardCloseContent(line: string, n: int)
    requires NoNewline(line) && Strip(line) == "/+"
    ensures ContentTokens(line, n) == [Token(PlainText, "/+", n)]
  {
    StripOfStripped("/+");
    BareCardCloseScan("/+");
    PlainScanTokens("/+", n);
  }

  lemma PlainScanTokens(t: string, n: int)
    requires t != ""
    ensures ScanTokens(Scan(t, [], ""), n) == [Token(PlainText, t, n)]
  {
    assert NoteTokens([], n) == [];
  }

  lemma BareCardCloseScan(line: string)
    requires line == "/+"
    ensures ScanLine(line) == Scan(line, [], "")
  {
    BareCardCloseNoSpan(line);
    assert AsideFrom(line, 0).None?;
  }

  lemma BareCardCloseNoSpan(line: string)
    requires line == "/+"
    ensures Search(Of(LexVibe), line).None?
  {
    forall i | 0 <= i <= |line| ensures Of(LexVibe)(line, i).None? {
      SpanNeedsTick(line, i);
    }
  }
}
