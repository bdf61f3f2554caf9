# RemUp compiler core in Dafny

RemUp is a small markup language for study cards. A document holds archives
(`--<name>--`). An archive holds main cards (`<+theme` … `/+>`). A card holds
labels (`(symbol: a, b)`) and named regions (`--- name`). Inside a region's
text, an annotation span `` `content`[note] `` is a "vibe card", and `>> text`
is an inline explanation. Fenced code blocks are kept verbatim.

This project models the core of the Python compiler:

- `Lexer` — the line tokenizer (`remup/lexer.py`): the line patterns, the
  fixed precedence in which they are tried, the inline scan for annotation
  spans and asides, and the buffering of fenced code blocks.
- `Parser` — the line-driven parser (`remup/parser.py`): the pattern table
  and its dispatch loop, a fold of handlers over an explicit parse state, the
  description and metadata readers, and the label-type table.
- `Linker` — the annotation pass (`VibeCardProcessor` in `remup/parser.py`):
  it extracts annotation spans, builds a generated card (with a context
  window) for each, and adds the `→` links.
- `Compiler` — the compiler's own passes over the tree
  (`remup/compiler.py`): structural validation, whole-word references to
  generated cards, and the statistics.
- `Ast` — the syntax tree and its `to_dict` projections
  (`remup/ast_nodes.py`), with decoders proving that the projections lose
  nothing but the fields they drop.
- `TextUtils` — the pure helpers of `remup/utils.py`: slugs, truncation,
  HTML escaping and unescaping, annotation extraction, and `deep_merge`.
- `HtmlGen` — the text rewriting and page counters of
  `remup/html_generator.py`.
- `Patterns`, `Text`, `Values` and `Wrappers` — the supporting definitions.
  `Patterns` has the regular expressions as hand-written matchers, with
  `re.search`, `re.finditer` and `re.sub` over them. `Text` has Python's
  string operations (`strip`, `split`, `join`, `replace`). `Values` has the
  dict values the projections produce.

The theme sets the source iterates (Python `set` order) are an explicit
`order` parameter. Every property that should not depend on that order is
proved for every order.

## Model

| member | source | states |
|---|---|---|
| Lexer.FenceLang | RemUp_compiler/remup/lexer.py:18-19 | an opening fence yields a language made of word characters only, and a closing fence is also an opening fence with the empty language |
| Lexer.ArchiveHead | RemUp_compiler/remup/lexer.py:11 | an archive name is non-empty and holds no '>' |
| Lexer.CardHead | RemUp_compiler/remup/lexer.py:12 | a card theme is non-empty and holds no '/' |
| Lexer.RegionHead | RemUp_compiler/remup/lexer.py:15 | a region name is non-empty and has no surrounding whitespace |
| Lexer.AsideFrom | RemUp_compiler/remup/lexer.py:164-178 | the position found is the first `>>` with at least one character after it; with none found, no `>>` is followed by text |
| Lexer.ScanLine | RemUp_compiler/remup/lexer.py:141-189 | a non-empty line always yields a note, text or an explanation; an empty line yields nothing (its full result is stated by Lexer.ScanAgreesWithSpans) |
| Lexer.TailScan | RemUp_compiler/remup/lexer.py:164-183 | the rest of a line after the last span yields no note, and yields text or an explanation when it is not empty; an explanation exists only when the rest holds a `>>` followed by text |
| Lexer.ScanOfSpans | RemUp_compiler/remup/lexer.py:141-189 | the reference reading of a line from `re.finditer`'s spans alone: its notes are exactly one per span, in order |
| Lexer.ScanAgreesWithSpans | RemUp_compiler/remup/lexer.py:141-189 | the scan loop's notes, TEXT and explanation equal the reference reading: the stripped gap before each span followed by ` __content__ `, then the stripped tail up to a `>>`, with the stripped rest after the `>>` as the explanation |
| Lexer.ContentTokensBySpans | RemUp_compiler/remup/lexer.py:141-189 | the tokens of a content line are those of the reference reading: one VIBE_CARD per span, then the TEXT, then the INLINE_EXPLANATION |
| Lexer.ScanFindsAll | RemUp_compiler/remup/lexer.py:141-162 | the scan loop finds exactly the annotation spans `re.finditer` finds on the stripped line, in the same order |
| Lexer.NoteTokens | RemUp_compiler/remup/lexer.py:147-162 | one VIBE_CARD token per note, carrying `content[annotation]` and the line number |
| Lexer.ScanTokens | RemUp_compiler/remup/lexer.py:185-189 | the notes' VIBE_CARD tokens come first and in order; the TEXT, when there is text, comes right after them; the INLINE_EXPLANATION, when there is one, comes last; nothing else is emitted, and every token is on the line |
| Lexer.InlineNonEmpty | RemUp_compiler/remup/lexer.py:104-139 | a non-blank line read inline yields at least one token, each on that line |
| Lexer.ListIsPlain | RemUp_compiler/remup/lexer.py:114-136 | a list line yields exactly the tokens the same line yields as plain content |
| Lexer.LineTokens | RemUp_compiler/remup/lexer.py:63-102 | every line read outside a block yields at least one token on that line; a blank line is EMPTY_LINE, and an opening fence is CODE_START with its language |
| Lexer.StructuralOnce | RemUp_compiler/remup/lexer.py:64-102 | a line accepted by a structural pattern yields exactly one token of a structural kind; any other line yields no structural token |
| Lexer.LabelIgnoresTail | RemUp_compiler/remup/lexer.py:107-112 | a label is read only up to the first ')' after its ':'; whatever follows does not change it |
| Lexer.BareCardCloseIsText | RemUp_compiler/remup/lexer.py:90-93 | only `/+>` closes a card: every line that strips to a bare `/+` is a single plain TEXT token `/+` |
| Lexer.StepGood | RemUp_compiler/remup/lexer.py:45-102 | a line only appends tokens, and the tokens stay in line order |
| Lexer.TokensInOrder | RemUp_compiler/remup/lexer.py:32-43 | `tokenize` yields tokens in line order, each carrying a 1-based line number of the input |
| Lexer.Buffered | RemUp_compiler/remup/lexer.py:47-61 | inside a code block, lines up to the closing fence are buffered verbatim and nothing is emitted |
| Lexer.Unclosed | RemUp_compiler/remup/lexer.py:47-75 | a block the input never closes keeps only its CODE_START token; its body is never emitted |
| Lexer.CodeBlock | RemUp_compiler/remup/lexer.py:47-75 | a closed block yields CODE_START, the body joined with '\n' on the line after the fence (only when non-empty), then CODE_END; splitting that content on '\n' gives the body back |
| Parser.RegionMatch | RemUp_compiler/remup/parser.py:50 | a region name matched by the parser is a non-empty run of word characters |
| Parser.LabelMatch | RemUp_compiler/remup/parser.py:49 | both label groups are non-empty; the symbol holds no ':' and the text holds no ')' |
| Parser.FirstInFirst | RemUp_compiler/remup/parser.py:358-370 | the dispatch loop's hit is a pattern that matches, and no pattern tried before it matches; with no hit, no pattern matches |
| Parser.Classify | RemUp_compiler/remup/parser.py:358-360 | the pattern picked for a line matches it, with the groups reported |
| Parser.ClassifyCard | RemUp_compiler/remup/parser.py:45-57 | a card line is classified as `card_start` with its theme |
| Parser.ClassifyCardClose | RemUp_compiler/remup/parser.py:45-57 | a stripped `/+>` line is classified as `card_end` |
| Parser.ClassifyLabel | RemUp_compiler/remup/parser.py:45-57 | a label line is classified as `label` with both groups |
| Parser.ClassifyRegion | RemUp_compiler/remup/parser.py:45-57 | a region line is classified as `region` with its name |
| Parser.ClassifyFence | RemUp_compiler/remup/parser.py:45-57 | a stripped opening fence is classified as `code_block_start`; no earlier pattern can match it |
| Parser.BlankMatchesOnlyEmpty | RemUp_compiler/remup/parser.py:45-57 | the empty line matches the `empty_line` pattern and no other |
| Parser.ClassifyComment | RemUp_compiler/remup/parser.py:45-57 | a line starting with '#' is classified as `comment` |
| Parser.WrittenDispatchMisses | RemUp_compiler/remup/parser.py:358-370 | as written, the archive and region lines find no `_process_<name>` method and fall back, and `card_end` finds a method that takes one argument fewer than it is passed |
| Parser.WrittenDispatchFinds | RemUp_compiler/remup/parser.py:358-366 | the card, label and fence-opening patterns reach the handler meant for them |
| Parser.WrittenDispatchFallsBack | RemUp_compiler/remup/parser.py:367-373 | the annotation, aside, comment and blank patterns fall back to the default handler, as meant |
| Parser.FenceCloseShadowed | RemUp_compiler/remup/parser.py:53-54 | a closing fence also matches `code_block_start`, which the table tries first, so the `code_block_end` entry is never the first to match |
| Parser.Register | RemUp_compiler/remup/parser.py:136-158 | the new archive becomes the open one, and it is listed unless an equal archive is already listed (`not in` compares values) |
| Parser.Retired | RemUp_compiler/remup/parser.py:97-101 | the guard only ever appends, and adds at most the open archive |
| Parser.DescriptionJoins | RemUp_compiler/remup/parser.py:399-417 | the description is the texts of the comment lines that follow, joined by single spaces, without the empty texts before the first non-empty one |
| Parser.MetadataLast | RemUp_compiler/remup/parser.py:419-437 | the metadata has a key exactly when a following comment has it before a ':', and its value is that of the last such comment |
| Parser.LabelTypeDefault | RemUp_compiler/remup/parser.py:439-451 | the type is "default" exactly when the symbol is none of the eight known ones; distinct known symbols have distinct types |
| Parser.StepArchive | RemUp_compiler/remup/parser.py:136-158 | an archive line saves the open archive if it still needs saving, then opens and lists a fresh archive with the description that follows; no card or region stays open |
| Parser.StepCard | RemUp_compiler/remup/parser.py:201-232 | a card line opens an empty card, with its metadata, at the end of the open archive; with no archive open it first opens the default archive |
| Parser.StepCardClose | RemUp_compiler/remup/parser.py:234-247 | a card-closing line closes the open card, warning when it has no region, and changes nothing else |
| Parser.StepRegionOutside | RemUp_compiler/remup/parser.py:249-253 | a region line outside a card only adds a warning |
| Parser.StepRegion | RemUp_compiler/remup/parser.py:249-271 | a region line inside a card opens an empty region at the end of the card |
| Parser.StepLabelOutside | RemUp_compiler/remup/parser.py:273-277 | a label line outside a card only adds a warning |
| Parser.StepLabel | RemUp_compiler/remup/parser.py:273-296 | a label line inside a card appends the label, its type taken from the table |
| Parser.StepOpens | RemUp_compiler/remup/parser.py:298-308 | an opening fence opens a block with an empty buffer, "text" standing for no language |
| Parser.StepBuffers | RemUp_compiler/remup/parser.py:310-318 | inside a block every line but the closing fence is buffered as is |
| Parser.StepSilent | RemUp_compiler/remup/parser.py:453-469 | blank and comment lines outside a block leave the state unchanged |
| Parser.CloseCodeShape | RemUp_compiler/remup/parser.py:320-347 | closing a non-empty block in a region adds the fence line, the body and the closing fence to its lines, and the same block to its content after a blank line when there was content; an empty block adds nothing |
| Parser.CodeBlock | RemUp_compiler/remup/parser.py:298-347 | a whole fenced block read inside a region changes that region exactly as its closing does, and the region stays open |
| Parser.AddTextKeepsJoined | RemUp_compiler/remup/parser.py:470-478 | a text line appended to the open region keeps the content equal to the region's lines joined with '\n' |
| Parser.CloseCodeBreaksJoined | RemUp_compiler/remup/parser.py:320-337 | after a non-empty block, the content equals the joined lines exactly when the region had no content before it |
| Parser.Finish | RemUp_compiler/remup/parser.py:96-108 | the final archive list extends the list built so far, is non-empty when a card is open, and holds the open archive when it has cards |
| Parser.FoldGrows | RemUp_compiler/remup/parser.py:76-93 | reading lines never drops an archive or retracts a warning |
| Parser.WrittenCardCloseRaises | RemUp_compiler/remup/parser.py:358-366 | with the dispatch as written, every card-closing line raises |
| Parser.WrittenHeadsIgnored | RemUp_compiler/remup/parser.py:358-373 | with the dispatch as written, an archive or region line outside a region opens nothing and leaves the state as it was |
| Linker.VibesOf | RemUp_compiler/remup/parser.py:557-574 | one vibe card per match, content and annotation trimmed, with the source card and line number given |
| Linker.OneLineRegionTwice | RemUp_compiler/remup/parser.py:540-555 | a region whose content is its single line yields each annotation twice, both numbered 0 |
| Linker.ExtractKeepsText | RemUp_compiler/remup/parser.py:529-555 | extraction changes only the vibe-card lists; themes, labels, region texts and lines stay as they were |
| Linker.ContextShape | RemUp_compiler/remup/parser.py:632-666 | a context exists exactly when the annotation has a positive line number that some region holds; it shows at most five lines, the annotated one marked and the others indented |
| Linker.GeneratedCardShape | RemUp_compiler/remup/parser.py:576-630 | a generated card is titled by the annotated text, carries only the back-link label to its source card and no vibe cards, and has the regions 内容, 批注, 来源, plus 上下文 exactly when a context exists |
| Linker.GeneratedCount | RemUp_compiler/remup/parser.py:495-527 | every annotation yields exactly one generated card |
| Linker.RegionLink | RemUp_compiler/remup/parser.py:668-690 | a region links to a theme of the set that occurs in its text, ignoring case; with no link, no theme occurs there |
| Linker.RegionLinksAnyOrder | RemUp_compiler/remup/parser.py:668-690 | the number of links a card gets is the same for every iteration order of the theme set, and at most one per region |
| Linker.RegionLinksSound | RemUp_compiler/remup/parser.py:668-690 | every link label names a theme of the set that occurs in one of the card's regions |
| Linker.ProcessShape | RemUp_compiler/remup/parser.py:495-527 | the pass keeps the archives and their names, adds a vibe archive exactly when some annotation was found, and that archive holds one generated card per annotation |
| Compiler.EmptyNames | RemUp_compiler/remup/compiler.py:358-360 | the names are those of the archives without cards, at most one per archive |
| Compiler.CheckFromSound | RemUp_compiler/remup/compiler.py:358-364 | from any archive on, the loop raises exactly when a later archive holds a blank theme, having printed the warnings of the empty archives before it |
| Compiler.CheckArchives | RemUp_compiler/remup/compiler.py:358-364 | with no blank theme, one warning per empty archive, in order; otherwise the blank-theme error, after the warnings of the empty archives before the first offending one |
| Compiler.Validate | RemUp_compiler/remup/compiler.py:353-364 | it fails exactly when there is no archive or some card's theme is blank, with the matching message, and reports the warnings printed before that point |
| Compiler.MentionsWholeWord | RemUp_compiler/remup/compiler.py:426-427 | the search succeeds exactly when the theme occurs as a whole word, ignoring case, somewhere in the content |
| Compiler.FindRefs | RemUp_compiler/remup/compiler.py:420-430 | the result holds exactly the themes of the set that the content mentions as whole words |
| Compiler.FindRefsDistinct | RemUp_compiler/remup/compiler.py:420-430 | no theme is reported twice |
| Compiler.AddMissing | RemUp_compiler/remup/compiler.py:409-416 | existing labels keep their order and come first, and the result holds exactly the old and the new labels |
| Compiler.AddMissingDistinct | RemUp_compiler/remup/compiler.py:415-416 | a label list without repeats stays without repeats |
| Compiler.EnhanceOnlyAppends | RemUp_compiler/remup/compiler.py:393-418 | the pass only appends labels; everything else in the document stays as it was |
| Compiler.EnhanceLinks | RemUp_compiler/remup/compiler.py:393-418 | a card ends up with a theme's reference label exactly when it already had it, or the theme is a generated card's lower-cased theme that one of its regions mentions |
| Compiler.EnhanceIdempotent | RemUp_compiler/remup/compiler.py:393-418 | running the pass twice gives what running it once gives |
| Compiler.EnhanceWithoutVibeArchive | RemUp_compiler/remup/compiler.py:396-399 | without a generated archive the document comes back unchanged |
| Compiler.WrittenEnhance | RemUp_compiler/remup/compiler.py:393-418 | as written, the pass either raises or returns the document unchanged |
| Compiler.WrittenEnhanceNeverLinks | RemUp_compiler/remup/compiler.py:366-391 | as written, `_process_vibe_cards` returns exactly the annotated document: the reference pass adds no label |
| Compiler.WrittenEnhanceRaises | RemUp_compiler/remup/compiler.py:410-414 | when a region mentions a generated card's theme, the written pass raises and the intended one adds the label |
| Compiler.CalculateVibeStats | RemUp_compiler/remup/compiler.py:432-451 | total_vibes counts every annotation on a main card or one of its regions; generated_cards is the vibe archive's card count, or 0; vibe_links is 0 |
| Compiler.CalculateDocumentStats | RemUp_compiler/remup/compiler.py:507-526 | the archive, card, region and label totals over the main archives, followed by the annotation statistics |
| Compiler.EnhanceKeepsCounts | RemUp_compiler/remup/compiler.py:393-418 | the reference pass changes no count except the label count, which can only grow |
| Ast.NewRemList | RemUp_compiler/remup/ast_nodes.py:72-85 | 'ul' and 'ol' lists get the category "unordered"; any other list keeps the category given |
| Ast.NewRegionIsEmpty | RemUp_compiler/remup/ast_nodes.py:109-130 | a region made with the defaults projects empty vibe-card, list and code-block lists, an empty explanation dict, and its lines as given |
| Ast.VibeCardRoundTrip | RemUp_compiler/remup/ast_nodes.py:9-24 | decoding a vibe card's dict gives back its id, content, annotation and source card |
| Ast.LabelRoundTrip | RemUp_compiler/remup/ast_nodes.py:26-38 | decoding a label's dict gives the label back |
| Ast.ListItemRoundTrip | RemUp_compiler/remup/ast_nodes.py:58-71 | decoding an item's dict gives back what the projection keeps of the item |
| Ast.RemListRoundTrip | RemUp_compiler/remup/ast_nodes.py:87-95 | decoding a list's dict gives back what the projection keeps of the list |
| Ast.RemListLinesMatchItems | RemUp_compiler/remup/ast_nodes.py:87-95 | the 'lines' of a list's dict are its items' contents, as many and in the same order |
| Ast.CodeBlocksRoundTrip | RemUp_compiler/remup/ast_nodes.py:97-108 | decoding the code-block dicts gives the blocks back |
| Ast.RegionRoundTrip | RemUp_compiler/remup/ast_nodes.py:120-130 | decoding a region's dict gives back what the projection keeps of the region |
| Ast.MainCardRoundTrip | RemUp_compiler/remup/ast_nodes.py:133-147 | decoding a card's dict gives back what the projection keeps of the card |
| Ast.VibeArchiveRoundTrip | RemUp_compiler/remup/ast_nodes.py:150-163 | decoding the vibe archive's dict gives back what the projection keeps of it |
| Ast.ArchiveRoundTrip | RemUp_compiler/remup/ast_nodes.py:165-177 | decoding an archive's dict gives back what the projection keeps of it |
| Ast.DocumentRoundTrip | RemUp_compiler/remup/ast_nodes.py:179-191 | the document's dict loses only the fields the node projections drop, and 'vibe_archive' is None exactly when there is no vibe archive |
| TextUtils.Collapse | RemUp_compiler/remup/utils.py:158-159 | every maximal run of '-' and whitespace becomes a single '-': no doubled '-', and every other character of the input survives |
| TextUtils.Slugify | RemUp_compiler/remup/utils.py:146-161 | the slug is empty for empty text and holds only word characters and '-', with no whitespace, no upper-case letter and no doubled '-' |
| TextUtils.SlugifyKeepsWords | RemUp_compiler/remup/utils.py:146-161 | the slug holds exactly the word characters of the lower-cased text |
| TextUtils.SlugifyIdempotent | RemUp_compiler/remup/utils.py:146-161 | a slug is its own slug |
| TextUtils.PrefixTo | RemUp_compiler/remup/utils.py:168 | Python's `s[:k]`: a prefix of the text, with a negative `k` counted from the end and both ends clamped |
| TextUtils.Truncate | RemUp_compiler/remup/utils.py:163-168 | text within the limit comes back unchanged; longer text ends with the ellipsis and, when the limit is at least the ellipsis's length, is exactly as long as the limit |
| TextUtils.TruncateBelowEllipsis | RemUp_compiler/remup/utils.py:163-168 | with a limit below the ellipsis's length the slice index is negative, so the result exceeds the limit |
| TextUtils.TruncateCanGrow | RemUp_compiler/remup/utils.py:163-168 | a concrete case where truncation makes the text longer |
| TextUtils.EscapeChar | RemUp_compiler/remup/utils.py:173-179 | each character maps to its entity or to itself, never to a character that must be escaped |
| TextUtils.EscapeHtml | RemUp_compiler/remup/utils.py:170-184 | the escaped text holds none of the five markup characters |
| TextUtils.EscapeHtmlIsRef | RemUp_compiler/remup/utils.py:170-184 | the five whole-text passes, '&' first, escape each character on its own |
| TextUtils.UnescapeEscapeWithoutAmp | RemUp_compiler/remup/utils.py:186-200 | `unescape_html` undoes `escape_html` on every text without '&' |
| TextUtils.UnescapeHtmlOverDecodes | RemUp_compiler/remup/utils.py:186-200 | the text "&lt;" escapes to "&amp;lt;", which `unescape_html` turns into "<" instead of "&lt;" |
| TextUtils.UnescapeEscape | RemUp_compiler/remup/utils.py:186-200 | the single-pass decoder undoes `escape_html` on every text |
| TextUtils.ExtractVibeCards | RemUp_compiler/remup/utils.py:202-214 | one entry per annotation span `re.finditer` finds, both groups trimmed |
| TextUtils.ExtractVibeCardsSpans | RemUp_compiler/remup/utils.py:202-214 | the i-th entry is the trimmed groups of the i-th span, left to right |
| TextUtils.DeepMergeGet | RemUp_compiler/remup/utils.py:262-274 | a key only in the base keeps its value; a key of the update takes the update's value, unless both sides hold a dict, which are merged recursively |
| TextUtils.DeepMergeUnique | RemUp_compiler/remup/utils.py:262-274 | the merged dict never holds a key twice |
| TextUtils.DeepMergePrefix | RemUp_compiler/remup/utils.py:262-274 | the merged dict keeps the base's keys and holds exactly the keys of either side |
| HtmlGen.ProcessVibeCardsInText | RemUp_compiler/remup/html_generator.py:160-189 | one dict per annotation span; text without a span comes back unchanged |
| HtmlGen.ProcessVibesAgreesWithExtract | RemUp_compiler/remup/html_generator.py:167-178 | the i-th dict holds the i-th content and annotation `extract_vibe_cards` reports, and the source card as passed |
| HtmlGen.ProcessVibesIds | RemUp_compiler/remup/html_generator.py:172-178 | the i-th dict's id is "vibe-", the slug of its content, "-" and i |
| HtmlGen.ProcessVibesIdsDistinct | RemUp_compiler/remup/html_generator.py:160-189 | within one call the ids are pairwise distinct, whatever the contents |
| HtmlGen.ProcessVibesKeepsOutside | RemUp_compiler/remup/html_generator.py:160-189 | only the spans are replaced: the text between them is copied |
| HtmlGen.ProcessInlineExplanations | RemUp_compiler/remup/html_generator.py:191-199 | text without an aside comes back unchanged |
| HtmlGen.ProcessInlineExplanationsKeepsOutside | RemUp_compiler/remup/html_generator.py:191-199 | the text between the asides is copied, and the i-th aside is replaced by the i-th explanation span |
| HtmlGen.ExplanationRun | RemUp_compiler/remup/html_generator.py:191-199 | each aside ends at the end of the text or just before a newline or '<', and its span holds the text after its `>>`, trimmed |
| HtmlGen.ExplanationsAreAsides | RemUp_compiler/remup/html_generator.py:191-199 | each replaced span starts at `>>`, and the explanation it shows holds no newline and no '<' |
| HtmlGen.NoAsideNoChange | RemUp_compiler/remup/html_generator.py:191-199 | text without `>>` is left unchanged |
| HtmlGen.PrepareCounts | RemUp_compiler/remup/html_generator.py:62-95 | total_cards counts the main archives' cards; total_vibe_cards counts the generated cards only when the vibe archive exists and is non-empty; total_all_cards is their sum; has_vibe_archive says whether it is shown |
| Patterns.FindAllMatches | RemUp_compiler/remup/utils.py:206-208 | every span `re.finditer` reports is a match of the pattern at its start |
| Patterns.FindAllLeftmost | RemUp_compiler/remup/utils.py:206-208 | no match starts between two spans `re.finditer` reports: each span is the leftmost after the previous one |
| Patterns.SpliceCoveredIsIdentity | RemUp_compiler/remup/html_generator.py:187 | `re.sub` with each match replaced by its own text gives the input back |
| Text.JoinSplit | RemUp_compiler/remup/parser.py:74 | joining the pieces of `split('\n')` with '\n' gives the text back |

## Left out

- Parser.Parse: as written, every call of `parse` raises TypeError. `Document(archives=...)` (parser.py:113) omits the required `title` (ast_nodes.py:182), and the nodes are built with fields their classes do not declare. The model gives the document the title "" and lets each node carry the union of the declared fields and the fields the parser passes, so the parse can be studied past that point.
- Ast: `MainCard(metadata=...)` (parser.py:215-221), `VibeCard(line_number=...)` without the required `id` (parser.py:383-388, 566-571) and `VibeArchive(description=...)` (parser.py:517-521) each raise TypeError in the source. The datatypes carry `metadata`, `lineNumber` and `description`, and `id` is always 0.
- Text.IsWordChar: Python's `\w` is Unicode-aware, and the model approximates it. ASCII letters, digits and '_' count, and so does every character from U+00C0 on that is not whitespace and lies outside a few punctuation blocks. So a character such as '😀' or '｡' is a word character in the model but not in Python, and 'µ' or 'ª' is one in Python but not in the model: `Slugify("a 😀")` gives "a-😀" in the model and "a-" in Python. The same gap affects region names (Parser.RegionMatch) and the `\b` tests of Compiler.Mentions.
- Text.Lower: lower-cases ASCII letters only. Python's `str.lower` and `re.IGNORECASE` also fold letters such as 'Ä' and 'Ａ'. This affects Linker.Themes, Linker.RegionLink, the case-insensitive search of Compiler.Mentions, and TextUtils.Slugify.
- Parser.AddText: the default handler (parser.py:486-487) extends the region's `vibe_cards` with the pair (processed line, list of vibe cards) that `_extract_vibe_cards_from_line` returns, so the region gains those two objects as elements. The model appends the list of vibe cards instead. The annotation pass (`Linker.Process`) overwrites every region's `vibe_cards` afterwards, so the difference does not survive a parse.
- Lexer: the debug `print` calls (lexer.py:122 and 171) and `print_tokens` (lexer.py:191-221) only write to standard output and are not modelled.
- Compiler.Validate: the `print` of a warning for each empty archive is modelled as the returned warning list, not as output. The parser's and compiler's `logger` calls are dropped; the warnings the parser logs are kept as the `warnings` field of its state.
- Linker.Process: Python iterates the set `vibe_themes` in an order the language does not fix. The model takes that order as the parameter `order`. The same holds for Compiler.Enhance and Compiler.FindRefs. Linker.RegionLinksAnyOrder and Compiler.EnhanceLinks state what holds for every order.
- TextUtils.Truncate: the default arguments `length=100` and `ellipsis="..."` are not modelled; both are explicit parameters.
- Lexer.Step: lines are taken to hold no '\n', which `split('\n')` guarantees; Lexer.SplitLines proves that for the tokenizer's own input.
- Parser.Description: the first definition of `_extract_archive_description` (parser.py:169-199) is replaced by the second one (parser.py:399-417) when the class body is evaluated, so only the second is modelled.
- TextUtils: `count_words` and `count_lines` (utils.py:216-225) are not modelled. Neither is anything in `RemUpLogger`, `FileUtils`, `ConfigUtils.load_config`/`save_config`, `ValidationUtils` or `PerformanceUtils`, which are file I/O, logging and timing.
- Compiler.CalculateVibeStats: `vibe_links` stays 0 because the source never counts links.
- Compiler: file reading, configuration loading, output directories, batch compilation, index pages and HTML generation (`compile_file`, `compile_directory`, `batch_compile`, `_generate_html_with_new_system` and the rest) are I/O and are not modelled.
- HtmlGen: template loading and rendering, the static resources, the `compile_time` timestamp, and the `_convert_*_to_dict` functions are not modelled. Only the text rewriting and the page counters are.
- TextUtils.DeepMergeGet: requires the update's keys to be distinct. A Python dict always has distinct keys, and the model represents a dict as a list of entries.
- Parser.Parse: the guard `i > len(lines) * 2` (parser.py:91-92) never fires, because every handler returns None and the loop advances one line at a time. It is not modelled.

## Findings

| source | as written | input that shows it | evidently intended | confidence | as-written member | corrected member |
|---|---|---|---|---|---|---|
| RemUp_compiler/remup/parser.py:358-370 | the loop calls `_process_<pattern name>` with three arguments. `_process_archive` and `_process_region` do not exist, so archive and region lines fall through to the default handler. `_process_card_end` takes two arguments, so every card-closing line raises TypeError. The `code_block_end` entry's method would also take two, but that entry is never the first pattern to match | any document with a `--<name>--`, `--- name` or `/+>` line | each pattern reaches its handler: `_process_archive_start`, `_process_region_start` and `_process_card_end` (the latter called without the match) | not executed | Parser.WrittenStep, with Parser.WrittenDispatchMisses, Parser.WrittenCardCloseRaises, Parser.WrittenHeadsIgnored and Parser.FenceCloseShadowed | Parser.Step, with Parser.StepArchive, Parser.StepRegion and Parser.StepCardClose |
| RemUp_compiler/remup/compiler.py:410-414 | the reference label is built as `Label(..., type="vibe_reference")`, but `Label` declares `label_type`, so the first reference found raises TypeError. `_process_vibe_cards` catches it, so the reference pass adds no label | a document with an annotation `` `x`[note] `` whose region text also mentions `x` | the label is built with `label_type="vibe_reference"` and appended when missing | not executed | Compiler.WrittenEnhance, with Compiler.WrittenEnhanceRaises and Compiler.WrittenEnhanceNeverLinks | Compiler.Enhance, with Compiler.EnhanceLinks and Compiler.EnhanceIdempotent |
| RemUp_compiler/remup/utils.py:186-200 | `unescape_html` replaces "&amp;" first, then the other entities, over the whole text, so an entity produced by the first pass is decoded again | `unescape_html(escape_html("&lt;"))` is "<", not "&lt;" | the inverse of `escape_html` on every text: each entity decoded once, where it starts | not executed | TextUtils.UnescapeHtml, with TextUtils.UnescapeHtmlOverDecodes | TextUtils.Unescape, with TextUtils.UnescapeEscape |
