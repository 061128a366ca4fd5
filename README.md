# A verified model of a Djot-subset parser and HTML renderer

This project models, in Dafny, the core of a static-site generator's markup pipeline.
The generator is written in Rust. Its pipeline has four stages:

- **Line context** (`src/parser/context.rs`). It normalizes CR LF and lone CR to LF.
  It indexes the text into contiguous line ranges, each range including its LF.
  It then gives cursor access to the lines, each returned without its LF.
- **Block parser** (`src/parser/block.rs`). A line that starts with `>` opens a block
  quote. Its lines are stripped of `"> "` or `">"`, and a line that is blank after the
  marker splits the quote into paragraphs. Any other line opens a paragraph, which runs
  up to the first blank line.
- **Inline parser** (`src/parser/inline.rs`). A single left-to-right scan over a line.
  It recognizes links and images `[label](dest)` / `![label](dest)`, math `$`…`` / `$$`…``,
  code spans of any backtick run, and the paired delimiters
  `{= =}`, `{+ +}`, `{- -}`, `_`, `*`, `~` and `^`.
  Open delimiters sit on a stack; a delimiter still open at the end of the line turns the
  text from its position on into plain text.
- **Document and renderer** (`src/parser.rs`, `src/render.rs`). The document is the
  sequence of blocks, with blank lines skipped. The renderer walks the tree: it
  concatenates children, wraps Paragraphs in `<p>`…`</p>`, and copies each PlainText
  span's source bytes without escaping them.

Every node carries a byte span into the normalized buffer. The main proved facts are:

- Newline normalization:
  - it agrees with a one-pass reference definition;
  - it is idempotent, never lengthens the text, and leaves no CR.
- The line index:
  - the one-pass method computes the same index as the specification function;
  - the lines rebuild the buffer;
  - any index with the line properties is that one.
- Every loop of the inline parser equals a specification function. Its output is
  "laid out": top-level nodes lie in order inside the line, and every node's children lie
  in order inside its span. This holds by an invariant over the delimiter stack that every
  step preserves.
- Block quotes satisfy the same layout property. Paragraphs and the document satisfy it
  once the paragraph end is corrected (see "## Findings"). The program's own tree has the
  same kinds, starts and children, ends no later, and renders to the same HTML.
- Every node of a document parsed from ASCII text renders. The site generator renders it
  against the text as read, not the normalized buffer its spans index, so after a CR LF
  pair it shows the wrong bytes (see "## Findings").
- `parse_document("first\n\nsecond\n")` builds exactly the tree its test expects, and it
  renders to `<p>first</p><p>second</p>`.
- The inline parser's own test lines parse to the nodes their tests expect. So does the
  block-quote test: its block quote holds two paragraphs, of three nodes and one node.
- A single line of plain text renders to `<p>` + text + `</p>`.

Text is modelled as bytes (`seq<Byte>`). The renderer's output is the bytes of the
`String` it builds. `None` stands for the panic of `Span::as_str`.

The modules follow the source files:

| module | file | source |
|---|---|---|
| `Ast` | `ast.dfy` | `src/ast.rs` |
| `LineContext` | `context.dfy` | `src/parser/context.rs` |
| `InlineSyntax` | `inline_syntax.dfy` | the helper functions of `src/parser/inline.rs` |
| `Inline` | `inline.dfy` | `parse_inline` in `src/parser/inline.rs` |
| `InlineCases` | `inline_cases.dfy` | the tests of `src/parser/inline.rs` and the general lines behind them |
| `Block` | `block.dfy` | `src/parser/block.rs` |
| `Parser` | `parser.dfy` | `src/parser.rs` |
| `Render` | `render.dfy` | `src/render.rs` |

Each Rust function with a loop is a Dafny `method` whose `ensures` equates its result with
a specification function. Properties are then proved about that function. The line cursor
`Context` is a class whose `advance` updates its field in place.

## Model

| member | source | states |
|---|---|---|
| Ast.CharLen | src/ast.rs:77-79 | the length of the well-formed UTF-8 character `from_utf8` accepts at the head of the text; it is 1 exactly for an ASCII lead byte, and 0 for an empty text |
| Ast.AsciiIsUtf8 | src/ast.rs:77-79 | every ASCII text passes the UTF-8 check of `as_str` |
| Ast.AsStr | src/ast.rs:76-79 | `as_str` returns, byte for byte, the text the span covers, and that text is valid UTF-8 |
| Ast.TextView | src/ast.rs:9-15 | `text_view` is never None, for every kind, and exposes exactly the node's span text |
| LineContext.ReplaceCr | src/parser/context.rs:88-90 | the second replacement (each CR becomes LF) keeps the length and leaves no CR |
| LineContext.NormalizeNewlines | src/parser/context.rs:88-90 | normalization never lengthens the text, so positions in it are at most the source's length, and no CR survives it |
| LineContext.NormalizeStep | src/parser/context.rs:88-90 | the two-pass replace handles a leading CR LF as one LF, and any other leading byte on its own, with a lone CR becoming LF |
| LineContext.NormalizeIsOnePass | src/parser/context.rs:85-90 | `replace("\r\n", "\n").replace('\r', "\n")` equals the one-pass reference that maps CR LF and lone CR to LF |
| LineContext.ReplaceCrLfShrinks | src/parser/context.rs:89 | replacing CR LF pairs never lengthens the text |
| LineContext.NormalizeKeepsCrFree | src/parser/context.rs:87-90 | all other bytes are preserved verbatim: CR-free text is unchanged |
| LineContext.NormalizeIdempotent | src/parser/context.rs:88-90 | normalizing twice equals normalizing once |
| LineContext.NormalizeKeepsAscii | src/parser/context.rs:88-90 | normalizing ASCII text gives ASCII text: only CR LF pairs and CRs change, each into LF |
| LineContext.LineEnd | src/parser/context.rs:103-112 | a line ends just past the first LF at or after its start, or at the end of the buffer, with no LF before that |
| LineContext.LinesFrom | src/parser/context.rs:98-124 | every computed range is non-empty and inside the buffer |
| LineContext.LineIndex | src/parser/context.rs:98-124 | `index_lines` gives no range exactly for an empty buffer; otherwise the first range starts at 0, the last ends at the buffer's end, and every range is non-empty and inside the buffer |
| LineContext.ConsLineRanges | src/parser/context.rs:103-112 | a line put in front of the rest of the index keeps every range non-empty, in the buffer and LF-free before its last byte |
| LineContext.ConsLineLinks | src/parser/context.rs:103-112 | a line put in front of the rest of the index keeps the ranges contiguous, each non-final one ending after its LF |
| LineContext.ConsLine | src/parser/context.rs:103-112 | a line put in front of the index of the rest is an index of the buffer from that line's start |
| LineContext.LinesFromWellFormed | src/parser/context.rs:92-124 | the ranges from any position are contiguous, cover the rest of the buffer, and end after an LF except possibly the last |
| LineContext.LineIndexWellFormed | src/parser/context.rs:92-97 | `index_lines` splits the buffer into contiguous ranges that include their LF, with no empty final line after a trailing LF |
| LineContext.LineEndUnique | src/parser/context.rs:103-112 | where a line ends is determined by where it starts |
| LineContext.LinesFromUnique | src/parser/context.rs:98-124 | any index of the buffer from a position with the line properties is the computed one |
| LineContext.LineIndexUnique | src/parser/context.rs:92-124 | the line split is unique: every index with the documented properties is the one `index_lines` returns |
| LineContext.LinesFromCover | src/parser/context.rs:95-97 | the ranges from a position, concatenated, give back the rest of the buffer (no gaps) |
| LineContext.LinesRebuildBuffer | src/parser/context.rs:95-97 | the lines, terminators included, concatenate to the buffer |
| LineContext.LinesFromAtLf | src/parser/context.rs:104-111 | an LF closes the current range just after itself, and the next range starts there |
| LineContext.LinesFromLast | src/parser/context.rs:115-121 | a final line without LF runs to the end of the buffer |
| LineContext.IndexLines | src/parser/context.rs:98-124 | the loop of `index_lines` computes exactly the specified line index |
| LineContext.IndexLinesAtLf | src/parser/context.rs:104-111 | closing a range at an LF keeps the ranges collected, followed by the ranges from the next byte, equal to the whole index |
| LineContext.LineHasNoLf | src/parser/context.rs:52-58 | a line's text holds no LF; with at most its one trailing LF put back it is its range's bytes |
| LineContext.WhitespaceLen | src/parser/context.rs:126-130 | the Unicode white space that `trim` removes is recognized only inside the text |
| LineContext.BlankAsciiIff | src/parser/context.rs:126-130 | on ASCII text a line is blank exactly when every byte is white space (empty, spaces and tabs are blank) |
| LineContext.PrintableStartNotBlank | src/parser/context.rs:128-130 | a line starting with a printable ASCII byte is not blank |
| LineContext.BlankHasNoPrintable | src/parser/context.rs:128-130 | a blank line holds no printable ASCII byte anywhere: `trim` removes only white space |
| LineContext.Context.constructor | src/parser/context.rs:23-31 | `Context::new` holds the normalized text, its line index, and the cursor on line 0 |
| LineContext.Context.PeekLineN | src/parser/context.rs:47-59 | `peek_line_n` is None exactly past the last line, and otherwise the line `n` ahead, without its LF |
| LineContext.Context.PeekLine | src/parser/context.rs:42-45 | `peek_line` is `peek_line_n(0)` |
| LineContext.Context.IsEof | src/parser/context.rs:63-65 | `is_eof` holds exactly when there is no current line to peek |
| LineContext.Context.CurrentLine | src/parser/context.rs:75-82 | `current_line` is the current line, or the empty text at EOF |
| LineContext.Context.Advance | src/parser/context.rs:67-73 | `advance` moves the cursor one line on, and does nothing at EOF |
| InlineSyntax.AstKindOf | src/parser/inline.rs:153-164 | `ast_kind` maps exactly the seven paired delimiter kinds to a kind other than PlainText |
| InlineSyntax.StartsWithParts | src/parser/inline.rs:397-400 | `starts_with` holds exactly when each byte of the pattern is found at its place, within the bytes; a pattern of two parts occurs exactly when its first part does and the second follows it |
| InlineSyntax.MatchClosing | src/parser/inline.rs:374-382 | a close match exists exactly when the innermost open delimiter's close marker starts at `idx`; it names that delimiter and the marker's length |
| InlineSyntax.OpeningFromBest | src/parser/inline.rs:386-393 | the loop over the delimiter table keeps the longest open marker seen, the earliest row on a tie |
| InlineSyntax.OpeningMatch | src/parser/inline.rs:384-395 | a found open marker occurs at `idx` and its length is reported |
| InlineSyntax.OpeningMatchIsBest | src/parser/inline.rs:384-395 | `match_opening` is None exactly when no open marker occurs at `idx`; otherwise it is the longest one, the earliest row on a tie |
| InlineSyntax.MatchOpening | src/parser/inline.rs:384-395 | the table loop computes the specified best opening match |
| InlineSyntax.BacktickRun | src/parser/inline.rs:209-215 | the counted bytes are all backticks and the run is maximal |
| InlineSyntax.CountBackticks | src/parser/inline.rs:209-215 | the loop of `count_backticks` counts the maximal backtick run |
| InlineSyntax.BacktickCloser | src/parser/inline.rs:217-234 | the closer found is a run of exactly `run` backticks that starts a run; with none the result is (end, 0) |
| InlineSyntax.BacktickCloserIsFirst | src/parser/inline.rs:217-234 | no run of exactly `run` backticks starts before the closer found |
| InlineSyntax.FindBacktickCloser | src/parser/inline.rs:217-234 | the nested loops of `find_backtick_closer` compute the specified closer |
| InlineSyntax.BacktickSpan | src/parser/inline.rs:236-277 | a code span exists exactly when a backtick is at `idx`; its content lies after the opening run, within the line, and the scan always moves forward |
| InlineSyntax.BacktickSpanShape | src/parser/inline.rs:243-276 | the content starts after the opening run (one space later when a backtick follows it), ends at the closer (one space earlier when a backtick precedes it) and resumes after the closer, or runs to the end of the line without one |
| InlineSyntax.ExtractBacktickSpan | src/parser/inline.rs:236-277 | `extract_backtick_span` computes the specified code span |
| InlineSyntax.FirstIndexOf | src/parser/inline.rs:364-372 | a found position holds the target and lies at or after the start |
| InlineSyntax.FirstIndexOfIsFirst | src/parser/inline.rs:364-372 | the target occurs nowhere between the start and the found position (or anywhere, when None) |
| InlineSyntax.FindMatching | src/parser/inline.rs:364-372 | the loop of `find_matching` computes the first occurrence |
| InlineSyntax.TrimStart | src/parser/inline.rs:297-300 | forward trimming stays in range and stops on a non-white-space byte |
| InlineSyntax.TrimStartSkipsWs | src/parser/inline.rs:297-300 | everything forward trimming skips is ASCII white space |
| InlineSyntax.TrimEnd | src/parser/inline.rs:301-304 | backward trimming stays in range and stops after a non-white-space byte |
| InlineSyntax.TrimEndSkipsWs | src/parser/inline.rs:301-304 | everything backward trimming drops is ASCII white space |
| InlineSyntax.LinkOrImageBounds | src/parser/inline.rs:279-362 | a recognized link or image: starts at `[` or `![`, ends after a `)`, is a Link or an Image by its opener, has no title, spans the label inside the consumed text, holds one PlainText child exactly when the label is non-empty, and its destination follows the label |
| InlineSyntax.LinkOpener | src/parser/inline.rs:280-292 | recognition needs the opener, a `]` after it, and a `(` directly after the first such `]` |
| InlineSyntax.LinkLabelTrimmed | src/parser/inline.rs:294-340 | the destination runs to the first `)`; the node spans the label trimmed of ASCII white space |
| InlineSyntax.LinkDestTrimmed | src/parser/inline.rs:294-335 | the destination span is the destination trimmed of ASCII white space; an all-white-space destination gives none |
| InlineSyntax.SkipWsForward | src/parser/inline.rs:297-300 | each forward trimming loop computes the specified trim |
| InlineSyntax.SkipWsBackward | src/parser/inline.rs:301-304 | each backward trimming loop computes the specified trim |
| InlineSyntax.ParseLinkOrImage | src/parser/inline.rs:279-362 | `parse_link_or_image`, loops and all, computes the specified result |
| Inline.PushNode | src/parser/inline.rs:201-207 | `push_node` never changes the number of open delimiters |
| Inline.PushPlain | src/parser/inline.rs:177-199 | `push_plain` never changes the number of open delimiters |
| Inline.PopFrame | src/parser/inline.rs:79-100 | closing a delimiter removes exactly the innermost frame: a node of its kind over its content, holding its children, goes to the frame below (its other fields and the frames under it kept) or, with no frame left, to the top-level nodes |
| Inline.ApplyProgress | src/parser/inline.rs:12-117 | every loop iteration moves `idx` forward, stays inside the line and keeps `last_emit <= idx` |
| Inline.Run | src/parser/inline.rs:12-117 | the loop ends at the end of the line with `last_emit <= idx` |
| Inline.ScanFrom | src/parser/inline.rs:12-117 | the loop of `parse_inline` terminates at the end of the line |
| Inline.ScanNext | src/parser/inline.rs:13-116 | one iteration and the rest of the loop end at the end of the line |
| Inline.ScanFromStep | src/parser/inline.rs:12-117 | one iteration moves forward and the loop continues from its state |
| Inline.ScanFromIsRun | src/parser/inline.rs:12-117 | the loop's decisions are applicable actions, and the loop is their run |
| Inline.LaidBounds | src/parser/inline.rs:3-131 | nodes laid out in a range lie inside it, each with its children in order inside its span |
| Inline.ChainPush | src/parser/inline.rs:201-207 | `push_node` of a node placed after the pending region keeps the stack invariant |
| Inline.ChainPlain | src/parser/inline.rs:177-199 | `push_plain` of the pending text moves the invariant's bound to `idx` |
| Inline.ChainEmit | src/parser/inline.rs:13-21 | emitting a link, math or code node that lies in [idx, next] keeps the invariant |
| Inline.LinkEmitOk | src/parser/inline.rs:13-21 | a link or image node lies after `idx`, inside the consumed text, with its children inside its span |
| Inline.NextActionOk | src/parser/inline.rs:12-117 | every action the loop body chooses is applicable |
| Inline.ChainPop | src/parser/inline.rs:83-96 | popping the innermost frame into a node keeps the invariant |
| Inline.ChainClose | src/parser/inline.rs:79-100 | the closing branch keeps the invariant |
| Inline.ChainOpen | src/parser/inline.rs:102-113 | the opening branch keeps the invariant |
| Inline.ApplyChain | src/parser/inline.rs:12-117 | every applicable action keeps the invariant |
| Inline.DecideSound | src/parser/inline.rs:12-117 | the loop body only takes applicable actions |
| Inline.RunChain | src/parser/inline.rs:12-117 | a loop of applicable actions keeps the invariant to the end of the line |
| Inline.RunStep | src/parser/inline.rs:12-117 | one iteration is applicable, moves forward and leaves the state the rest of the loop runs from |
| Inline.ScanChain | src/parser/inline.rs:12-117 | the invariant holds when the loop of `parse_inline` ends |
| Inline.ChainBottom | src/parser/inline.rs:119-124 | the minimum `open_pos` the demotion computes is the bottom frame's, and the top-level nodes lie before it |
| Inline.FinishLaid | src/parser/inline.rs:119-128 | demotion and the final plain text leave the nodes laid out inside the line |
| Inline.InlinesLaid | src/parser/inline.rs:3-131 | `parse_inline` returns nodes in order inside [offset, offset + len], each node's children in order inside its span |
| Inline.InlineSpansInLine | src/parser/inline.rs:3-131 | every top-level span is shifted by `offset`, not reversed, and inside the line |
| Inline.UnmatchedDemoted | src/parser/inline.rs:119-128 | with delimiters still open, the text from the earliest open position to the end becomes one PlainText node, and the nodes collected inside them are dropped |
| Inline.FinishDemoted | src/parser/inline.rs:119-128 | the demotion, for any final state that keeps the invariant |
| Inline.OpenPosBelowTop | src/parser/inline.rs:119-124 | the bottom frame opens before the innermost frame's content starts |
| Inline.PlainScan | src/parser/inline.rs:114-116 | without markup every iteration moves past one byte and emits nothing |
| Inline.PlainLine | src/parser/inline.rs:3-131 | a line without markup parses to one PlainText node over the whole line, none when empty |
| Inline.DollarMath | src/parser/inline.rs:23-56 | `$` or `$$` directly followed by a backtick emits a childless MathInline (after `$`) or MathDisplay (after `$$`) node over content past the backtick run, and the scan moves forward |
| Inline.DollarPlain | src/parser/inline.rs:23-56 | any other `$` is ordinary text: the loop only moves past it |
| Inline.EmitStep | src/parser/inline.rs:13-21 | the shared tail of the link, math and code branches flushes the pending text, pushes the node and resumes at `next` |
| Inline.CloseStep | src/parser/inline.rs:79-100 | the closing branch computes the specified step |
| Inline.OpenStep | src/parser/inline.rs:102-113 | the opening branch computes the specified step |
| Inline.ScanStep | src/parser/inline.rs:12-117 | one iteration of the loop body computes the specified step |
| Inline.ScanAfterLink | src/parser/inline.rs:23-56 | the math branch and what follows compute the specified step |
| Inline.ScanAfterMath | src/parser/inline.rs:58-77 | the code-span branch and what follows compute the specified step |
| Inline.ScanAfterCode | src/parser/inline.rs:79-100 | the closing branch and what follows compute the specified step |
| Inline.ScanAfterClose | src/parser/inline.rs:102-116 | an opening marker is pushed, or one byte is skipped |
| Inline.ParseInline | src/parser/inline.rs:3-131 | `parse_inline` computes the specified nodes, laid out in order inside the line |
| InlineCases.MarkerFirstBytes | src/parser/inline.rs:166-174 | every marker of the delimiter table is non-empty and starts with a byte that opens no link, math or code span |
| InlineCases.OpenMarkersDistinct | src/parser/inline.rs:384-395 | at most one open marker of the table occurs at any position, so `match_opening` has one candidate |
| InlineCases.InlinesAfterScan | src/parser/inline.rs:119-131 | a loop that ends with nothing open returns its nodes plus PlainText over the text after the last emission |
| InlineCases.InertSkips | src/parser/inline.rs:12-117 | on a byte that starts nothing the loop body only moves past it |
| InlineCases.InertRun | src/parser/inline.rs:12-117 | a run of such bytes is passed over without emitting anything |
| InlineCases.OpensAt | src/parser/inline.rs:102-113 | where an open marker starts and the innermost frame's closer does not, the loop opens that delimiter |
| InlineCases.ClosesAt | src/parser/inline.rs:79-100 | where the innermost frame's closer starts, the loop closes that frame |
| InlineCases.PairFrom | src/parser/inline.rs:79-113 | a marker, inert text and its closer act like pushing one delimiter node holding PlainText over the text |
| InlineCases.PairScan | src/parser/inline.rs:3-131 | a line of inert text with one marked pair inside scans to the pair's node and the plain text before it |
| InlineCases.TextAroundPair | src/parser/inline.rs:3-131 | inert text, one marked pair and inert text parse to PlainText, the pair's node holding PlainText, and PlainText |
| InlineCases.PairedLine | src/parser/inline.rs:3-131 | a marked pair alone parses to one node of the row's kind over the text, holding PlainText over the same bytes |
| InlineCases.TwoPairs | src/parser/inline.rs:3-131 | two marked pairs with inert text between parse to the two nodes with PlainText between them when that text is non-empty |
| InlineCases.NestedPairs | src/parser/inline.rs:79-113 | a pair inside another parses to the outer node spanning the inner pair and holding the inner node |
| InlineCases.EmitScan | src/parser/inline.rs:13-21 | a line of inert text around one emitted link, math or code node parses to that node between PlainText nodes |
| InlineCases.CodeAt | src/parser/inline.rs:58-77 | at a backtick the loop emits a childless Code node over the code span's content, resuming after it |
| InlineCases.CloserSkips | src/parser/inline.rs:217-234 | the closer search passes over bytes that are not backticks |
| InlineCases.TickedSpan | src/parser/inline.rs:236-277 | one backtick, content without backticks and one backtick form a code span over the content |
| InlineCases.CodeLine | src/parser/inline.rs:58-77 | a code span alone parses to one childless Code node over its content |
| InlineCases.UnterminatedCode | src/parser/inline.rs:243-276 | an unterminated code span runs to the end of the line |
| InlineCases.CodeOnly | src/parser/inline.rs:58-77 | a line that is one code span parses to one Code node over that span's content |
| InlineCases.BacktickInsideSpan | src/parser/inline.rs:236-277 | a two-backtick span keeps a single backtick inside its content |
| InlineCases.BacktickInsideCode | src/parser/inline.rs:58-77 | the line of such a span parses to one Code node that includes the inner backtick |
| InlineCases.PaddedSpan | src/parser/inline.rs:252-268 | the space after the opening run and the space before the closer are dropped when a backtick is next to them |
| InlineCases.PaddedCode | src/parser/inline.rs:58-77 | the line of such a span parses to one Code node without the padding |
| InlineCases.MathAt | src/parser/inline.rs:23-56 | `$` or `$$` before a code span emits MathInline or MathDisplay over the span's content |
| InlineCases.MathLineParts | src/parser/inline.rs:23-56 | the layout of a line with one math node between inert texts |
| InlineCases.MathScan | src/parser/inline.rs:23-56 | such a line parses to PlainText, the math node and PlainText |
| InlineCases.MathAround | src/parser/inline.rs:23-56 | the same, stated for the line built from its parts |
| InlineCases.FindsAt | src/parser/inline.rs:364-372 | `find_matching` returns the first position of the target byte |
| InlineCases.LinkAt | src/parser/inline.rs:279-362 | `[text](dest)` or `![text](dest)` without surrounding white space yields a link or image node over the text with the destination's span, resuming after `)` |
| InlineCases.LinkTextParts | src/parser/inline.rs:279-296 | the layout of a link or image line built from its text and destination |
| InlineCases.LinkScan | src/parser/inline.rs:13-21 | a line that is one link or image parses to that node |
| InlineCases.LinkLine | src/parser/inline.rs:279-362 | a link or image line parses to one node over its text, holding PlainText over the text, with the destination's span |
| InlineCases.SimpleTextCase | src/parser/inline.rs:410-416 | `This is a simple line.` parses to PlainText over [0, 22) |
| InlineCases.OffsetCase | src/parser/inline.rs:418-424 | `offset` parsed at offset 5 gives PlainText over [5, 11) |
| InlineCases.SingleCharDelimiterCases | src/parser/inline.rs:426-437 | `_`, `*`, `~` and `^` around `some text` give Emph, Strong, Sub and Sup over [1, 10) holding PlainText |
| InlineCases.MultipleNodesCase | src/parser/inline.rs:439-449 | `Text with _emphasized_.` gives PlainText [0, 10), Emph [11, 21) holding PlainText over the same bytes, and PlainText [22, 23) |
| InlineCases.MultiCharDelimiterCases | src/parser/inline.rs:451-464 | `{=highlight=}`, `{+insert+}` and `{-remove-}` give Mark [2, 11), Insert [2, 8) and Delete [2, 8), each holding PlainText over the same bytes |
| InlineCases.MultiSyntaxesCase | src/parser/inline.rs:466-476 | `_emphasized_ and *strong*` gives Emph [1, 11), PlainText [12, 17) and Strong [18, 24), each pair holding PlainText over its bytes |
| InlineCases.NestedCase | src/parser/inline.rs:478-489 | `_*they can be nested*_` gives Emph [1, 21) holding Strong [2, 20) holding PlainText [2, 20) |
| InlineCases.SimpleCodeCase | src/parser/inline.rs:491-497 | `` `code` `` gives one childless Code node over [1, 5) |
| InlineCases.BacktickInsideCase | src/parser/inline.rs:499-505 | a double-backtick span with a backtick inside gives one Code node over [2, 37), backtick included |
| InlineCases.PaddedCodeCase | src/parser/inline.rs:507-513 | ``` `` `foo` `` ``` gives one Code node over [3, 8), the padding spaces dropped |
| InlineCases.UnterminatedCodeCase | src/parser/inline.rs:515-521 | `` `foo bar `` gives one Code node over [1, 8), to the end of the line |
| InlineCases.InlineMathCase | src/parser/inline.rs:523-538 | ``Einstein derived $`e=mc^2`.`` gives PlainText [0, 17), MathInline [19, 25) and PlainText [26, 27) |
| InlineCases.DisplayMathCase | src/parser/inline.rs:540-554 | ``Pythagoras proved $$` x^n + y^n = z^n ` `` gives PlainText [0, 18) and MathDisplay [21, 38) |
| InlineCases.LinkCase | src/parser/inline.rs:556-575 | `[My link text](http://example.com)` gives one Link node over [1, 13) with destination [15, 33), no title, holding PlainText [1, 13) |
| InlineCases.ImageCase | src/parser/inline.rs:577-596 | `![picture of a cat](cat.jpg)` gives one Image node over [2, 18) with destination [20, 27), no title, holding PlainText [2, 18) |
| Block.LineOrder | src/parser/context.rs:92-97 | a line's text ends inside its range, and the next line starts where that range ends |
| Block.StripBlockQuoteMarker | src/parser/block.rs:80-88 | the marker removed is `"> "`, else `">"`, else nothing; the rest is the line after it; the marker is empty exactly on a line not starting with `>` |
| Block.FlushParagraph | src/parser/block.rs:90-106 | pending nodes, when any, become one Paragraph spanning from the first's start to the last's end, appended to the children; the pending list is emptied |
| Block.FlushLaid | src/parser/block.rs:90-106 | flushing keeps the nodes laid out inside the same bounds |
| Block.FlushParagraphs | src/parser/block.rs:90-106 | flushing adds only Paragraphs with children |
| Block.ParaStop | src/parser/block.rs:18 | a paragraph takes the non-blank lines up to the first blank line or the end |
| Block.ParaStopAfter | src/parser/block.rs:18 | a non-blank line at or before a paragraph's stop lies before it |
| Block.ParaStopAt | src/parser/block.rs:18 | a paragraph stops at the first blank line or the end |
| Block.InlinesFollow | src/parser/block.rs:19-23 | a line's nodes, parsed at its start, follow the nodes laid out before it |
| Block.ParaInlinesLaid | src/parser/block.rs:18-25 | a paragraph's nodes lie in order between its first line's start and the end of its last line's text |
| Block.ParaLaidStep | src/parser/block.rs:18-25 | adding one more line keeps a paragraph's nodes laid out |
| Block.ParaStep | src/parser/block.rs:19-23 | one more line appends its nodes, parsed at its start; the end as written grows by the line's length, the corrected end moves to the end of that line's text |
| Block.ParagraphWellSpanned | src/parser/block.rs:13-32 | with the corrected end, a paragraph starts at its first line, lies inside the buffer, and its children lie in order inside its span |
| Block.ParagraphProgress | src/parser/block.rs:18-25 | a paragraph started on a non-blank line consumes at least that line |
| Block.ParagraphEndAsWritten | src/parser/block.rs:16-22 | the end as written lies between the first line's start and the end of the last line's text (the corrected end) |
| Block.AsWrittenParagraph | src/parser/block.rs:13-32 | the paragraph the program builds has the corrected paragraph's kind, start and children and ends no later: one byte short per line break, equal exactly when it has at most one line |
| Block.AsWrittenAgreesOnOneLine | src/parser/block.rs:16-22 | on a one-line paragraph the end as written equals the corrected end |
| Block.LineBeforeLf | src/parser/context.rs:103-111 | a line that is not the last ends in an LF just past its text |
| Block.AsWrittenFallsShort | src/parser/block.rs:16-22 | the end as written falls one byte short per line break inside the paragraph |
| Block.AbCdIndex | src/parser/context.rs:98-124 | "ab\ncd" has the lines "ab" at 0 and "cd" at 3 |
| Block.AbCdPlain | src/parser/inline.rs:126-128 | both lines are non-blank and parse to one PlainText node each |
| Block.ParagraphEndEscapes | src/parser/block.rs:13-32 | for "ab\ncd" the end as written is 4 while the second child spans [3, 5); the corrected span is [0, 5) |
| Block.QuoteStop | src/parser/block.rs:40-49 | a block quote takes the lines starting with `>` up to the first other line or the end |
| Block.QuoteStopAt | src/parser/block.rs:40-49 | a block quote stops at the first line not starting with `>` or the end |
| Block.QuoteStopAfter | src/parser/block.rs:40-49 | a line starting with `>` at or before the stop lies before it |
| Block.QuoteStep | src/parser/block.rs:40-64 | one more quoted line is taken in, and the end moves to that line's range end |
| Block.QuoteLineLaid | src/parser/block.rs:41-63 | one quoted line keeps the layout, and flushing adds only Paragraphs |
| Block.QuoteInlinesLaid | src/parser/block.rs:51-58 | a quoted line's content, parsed just past its marker, follows the pending nodes |
| Block.QuoteScanLaid | src/parser/block.rs:40-64 | after the quoted lines, the finished paragraphs and then the pending nodes lie in order inside the quote |
| Block.BlockQuoteWellSpanned | src/parser/block.rs:34-74 | a block quote's children are Paragraphs, laid out inside its span, which lies inside the buffer |
| Block.OneLineParagraph | src/parser/block.rs:13-32 | a one-line paragraph spans that line's text and holds its inline nodes |
| Block.PlainLineParagraph | src/parser/block.rs:5-32 | a plain line, not starting with `>`, before a blank line or the end, is one Paragraph with one PlainText node, both over the line's text |
| Block.BlockShape | src/parser/block.rs:5-11 | for the corrected block: a block is a BlockQuote exactly on a line starting with `>`, a Paragraph otherwise; it is well spanned, starts at its line, ends before the line it stops on, and consumes a non-blank line |
| Block.AsWrittenBlock | src/parser/block.rs:5-11 | the block the program builds has the corrected block's kind, start and children and ends no later; they are equal exactly on a block quote or a paragraph of at most one line |
| Block.QuoteLineIsQuote | src/parser/block.rs:76-78 | a line starting with `>` is never blank, and the block at it is the block quote, which stops where the quote stops |
| Block.QuotedPlainText | src/parser/block.rs:51-58 | the PlainText node over a quoted line's content covers exactly the bytes after the marker |
| Block.PlainQuotedLine | src/parser/block.rs:51-58 | a quoted line of plain text adds one PlainText node over its content to the pending nodes |
| Block.PlainQuotedStep | src/parser/block.rs:40-64 | scanning one more quoted line of plain text appends its PlainText node to the pending nodes |
| Block.BlankQuotedStep | src/parser/block.rs:51-55 | scanning one more quoted line that is blank after its marker flushes the pending nodes into a paragraph |
| Block.TwoParagraphScan | src/parser/block.rs:40-64 | three plain quoted lines, a blank one and a plain one leave one finished paragraph of three nodes and one node pending |
| Block.QuoteOfTwoParagraphs | src/parser/block.rs:137-177 | the `block_quote_with_multiple_paragraphs` test, for any such lines: a BlockQuote of two Paragraphs, the first holding the first three lines' nodes, the second the last line's node, each node over its line's text after the marker |
| Block.QuoteBlockShape | src/parser/block.rs:34-74 | a block quote consumes at least its first line and ends by the start of the line it stops on |
| Block.ParagraphBlockShape | src/parser/block.rs:13-32 | with the corrected end, a paragraph ends by the start of the line it stops on and consumes a non-blank first line |
| Block.ParagraphLine | src/parser/block.rs:19-24 | one iteration of `parse_paragraph`'s loop adds the line's nodes and the line's length to the end as written |
| Block.ParseParagraph | src/parser/block.rs:13-32 | `parse_paragraph` builds the paragraph as the program computes it, end as written, and leaves the cursor on its stop line |
| Block.BlockQuoteLine | src/parser/block.rs:41-63 | one iteration of `parse_block_quote`'s loop: strip the marker, flush on a blank content or add its nodes, take the range end |
| Block.ParseBlockQuote | src/parser/block.rs:34-74 | `parse_block_quote` builds the specified block quote and leaves the cursor on its stop line |
| Block.ParseBlock | src/parser/block.rs:5-11 | `parse_block` builds the block as the program computes it and leaves the cursor on the line it stops on |
| Parser.DocumentStep | src/parser.rs:15-21 | a blank line contributes nothing; a non-blank line contributes its block, which consumes at least that line |
| Parser.AsWrittenStep | src/parser.rs:15-21 | the program's walk: a blank line contributes nothing; a non-blank line contributes the block the program builds there |
| Parser.SameButEndsCons | src/parser.rs:15-21 | blocks that agree but for ends, each put in front of runs that do, give runs that do |
| Parser.AsWrittenBlocksMatch | src/parser.rs:15-21 | the program's blocks are the corrected blocks but for the paragraphs' ends: same number, kinds, starts and children, each ending no later |
| Parser.OneLineParagraphsAgree | src/parser.rs:15-21 | when every paragraph has at most one line, the program's blocks are the corrected blocks |
| Parser.DocumentAsWrittenMatches | src/parser.rs:25-33 | the Document the program builds spans [0, len) and holds the corrected blocks but for the paragraphs' ends, each a Paragraph or a BlockQuote |
| Parser.BlocksAreParagraphsOrQuotes | src/parser.rs:15-21 | every top-level block is a Paragraph or a BlockQuote |
| Parser.NoBlocksIffAllBlank | src/parser.rs:15-21 | a document has no blocks exactly when all its lines are blank |
| Parser.LaidCons | src/parser.rs:20 | a block before blocks laid out after it keeps the layout |
| Parser.BlocksLaid | src/parser.rs:15-21 | with the corrected paragraph end, the blocks lie in order, each well spanned, inside the buffer |
| Parser.DocumentWellSpanned | src/parser.rs:25-33 | with the corrected paragraph end, the Document spans [0, len), is well spanned, and holds only Paragraphs and BlockQuotes |
| Parser.FirstSecondNormal | src/parser.rs:45-49 | the test input has no CR, so normalization leaves it unchanged |
| Parser.FirstSecondIndex | src/parser.rs:45-49 | the test input's line ranges are [0,6), [6,7), [7,14) |
| Parser.FirstSecondLines | src/parser.rs:45-49 | the test input's lines are "first", "" and "second" |
| Parser.FirstSecondPlain | src/parser.rs:45-49 | "first" and "second" are non-blank, have no markup and do not start with `>`; the empty line is blank |
| Parser.ACrLfBNormal | src/parser/context.rs:88-90 | "a\r\n\r\nb" normalizes to "a\n\nb": each CR LF pair becomes one LF, so the buffer is two bytes shorter than the text |
| Parser.ANlNlBLines | src/parser/context.rs:98-124 | the line ranges of "a\n\nb" are [0,2), [2,3), [3,4), and its lines are "a", "" and "b" |
| Parser.ANlNlBPlain | src/parser/context.rs:128-130 | "a" and "b" are non-blank, have no markup and do not start with `>`; the empty line is blank |
| Parser.ANlNlBBlocks | src/parser.rs:10-21 | the blocks of "a\n\nb", as the program builds them and corrected alike, are the Paragraphs [0,1) and [3,4), each holding one PlainText node over the same bytes |
| Parser.ACrLfBBlocks | src/parser.rs:10-34 | "a\r\n\r\nb" parses to a Document [0,6) with Paragraphs [0,1) and [3,4): positions in the normalized buffer, not in the text |
| Parser.MultipleBlocks | src/parser.rs:43-85 | the `multiple_blocks` test: the program's Document, equal to the corrected one, is [0,14) with Paragraphs [0,5) and [7,13), each holding one PlainText node over the same bytes |
| Parser.SingleLine | src/parser/context.rs:98-124 | a non-empty text without CR or LF is one line, itself |
| Parser.PlainLineBlock | src/parser/block.rs:116-135 | the `simple_paragraph` test, for any single line of plain text: one Paragraph holding one PlainText node, both over the whole text |
| Parser.PlainLineDocument | src/parser.rs:10-34 | a single line of plain text parses, in the program and corrected alike, to a Document holding one Paragraph with one PlainText node, all over the whole text |
| Parser.ParseDocument | src/parser.rs:10-34 | `parse_document` builds the Document as the program computes it: the blocks of the non-blank lines, each built by `parse_block` |
| Render.TagsAreUtf8 | src/render.rs:33-35 | the tags around an ASCII tag name are valid UTF-8 |
| Render.Html | src/render.rs:3-24 | rendering fails exactly when a PlainText span is rejected by `as_str`, and otherwise yields valid UTF-8 |
| Render.ChildrenHtml | src/render.rs:26-31 | the children render exactly when each of them renders, to valid UTF-8 |
| Render.WrapWithTag | src/render.rs:33-35 | the tagged rendering exists exactly when each child renders, and is valid UTF-8 |
| Render.NoParagraphRendersText | src/render.rs:3-24 | without Paragraphs a tree renders to the concatenation of its PlainText spans: no other kind adds markup, and text is not escaped |
| Render.NoParagraphChildren | src/render.rs:26-31 | children without Paragraphs render to their text |
| Render.ParagraphAndLeafShapes | src/render.rs:3-24 | a Paragraph renders as `<p>` + children + `</p>`; a childless node of the default arm renders to nothing |
| Render.ParagraphOfPlain | src/render.rs:10-13 | a Paragraph of one PlainText node renders as `<p>` + its source bytes + `</p>` |
| Render.SpannedAsciiRenderable | src/render.rs:13 | every well-spanned tree inside an ASCII text renders against it |
| Render.SameChildrenHtml | src/render.rs:26-31 | two nodes with the same children render their children alike |
| Render.SpanIgnored | src/render.rs:3-24 | the rendering of a node other than PlainText does not depend on its span |
| Render.SameButEndsHtml | src/render.rs:26-31 | Documents whose blocks agree but for ends, none of them PlainText, render their blocks alike |
| Render.AsWrittenHtml | src/render.rs:3-24 | the Document the program builds renders exactly as the one with corrected paragraph ends |
| Render.ParsedAsciiRenders | src/main.rs:24-26 | the document parsed from ASCII text, as the program builds it and corrected, renders against that text, whatever its line endings |
| Render.TwoBlocksHtml | src/render.rs:5-9 | a Document of two blocks renders as the first block's HTML followed by the second's |
| Render.TwoParagraphsHtml | src/render.rs:5-13 | a Document of two one-node paragraphs renders as both texts, each in `<p>` |
| Render.PageRenders | src/main.rs:23-26 | rendered against the normalized buffer its spans index, the Document parsed from any ASCII text renders; for a text without CR that is the page the site generator writes |
| Render.CrLfPage | src/main.rs:23-26 | rendered against the normalized buffer, "a\r\n\r\nb" gives `<p>a</p><p>b</p>` |
| Render.CrLfShifted | src/main.rs:23-26 | rendered against the text as read, as the site generator does, "a\r\n\r\nb" gives `<p>a</p><p>` CR `</p>`, which differs from the page over the normalized buffer |
| Render.FirstSecondSlices | src/ast.rs:77-79 | `as_str` accepts the words of the test input |
| Render.MultipleBlocksHtml | src/parser.rs:43-85 | the program's Document for the `multiple_blocks` input renders to `<p>first</p><p>second</p>` |
| Render.PlainLineHtml | src/render.rs:3-24 | the program's Document for a single line of plain text renders as `<p>` + the text + `</p>` |

## Left out

- `println!` of the children in `parse_document` is output only and is left out.
- The `attrs` field of `AstNode` is always `None` in the parser, so it is not modelled.
  `Attrs`, `ListKind` and `Align` are reserved types that the core never builds.
- `Vec` values that the helpers mutate through `&mut` are not modelled as mutable
  objects. `push_plain`, `push_node` and `flush_paragraph` are functions that return the
  updated vectors, and the loops reassign them. The delimiter stack and the node lists
  therefore have no aliasing to model.
- Each loop body of `parse_inline`, `parse_paragraph` and `parse_block_quote` is split
  into helper methods that return the loop variables. Only the `Context` cursor is
  updated in place, through `advance`.
- Integer overflow of `usize` is not modelled. Positions are unbounded naturals, and the
  `checked_add` in `peek_line_n` never fails.
- Inputs are byte sequences, not Rust strings. `Span::as_str` panics on a span out of
  bounds or not well-formed UTF-8 (the slice and the `unwrap` at src/ast.rs:77-79).
  Ast.AsStr and Ast.TextView replace that panic with their precondition `ValidSlice`,
  and return the span's text whenever it holds. Render.Html returns None where the
  renderer's call of `as_str` would panic. Slicing `&str` inside the parsers never cuts a
  character in the source; the model does not carry that fact.
- `is_blank` recognizes the 25 Unicode White_Space code points by their UTF-8 bytes.
  Text that is not UTF-8 cannot reach it in Rust, so nothing is said about it.
- Render.ParsedAsciiRenders: proved for ASCII text only. `main.rs` passes the original
  bytes to the renderer, while the spans index the normalized buffer. Past a CR LF pair
  the spans are shifted (Render.CrLfShifted, see "## Findings"); on non-ASCII text they
  may then cut a character, which panics in Rust.
- Render.MultipleBlocksHtml, Render.PlainLineHtml: stated for CR-free text, where the two
  buffers coincide.
- Tags for headings, strong, emphasis, lists and list items are commented out in
  src/render.rs:11-21, and the default arm at src/render.rs:22 renders any other kind as
  its children with no tag. The model has the three live arms and that default.
- Render.PlainLineHtml: stated for a single line. `parse_paragraph` parses each line
  separately, and `render_children` joins the nodes with nothing between them, so the
  HTML of a paragraph of several lines has no separator where the line breaks were.
- Block.ParagraphWellSpanned, Block.ParagraphBlockShape: stated for the corrected
  paragraph end (Block.ParagraphAt). The paragraph the program builds has the same kind, start and children and ends no later (Block.AsWrittenParagraph). It is not
  well spanned when it has several lines (see Findings).
- Block.BlockShape: stated for the corrected blocks (Block.BlockAt). The blocks the
  program builds differ from them only in the end of a paragraph of several lines
  (Block.AsWrittenBlock).
- Parser.BlocksLaid, Parser.DocumentWellSpanned: stated for the corrected Document. The
  Document the program builds holds the same blocks but for those ends
  (Parser.DocumentAsWrittenMatches), equals it when every paragraph has one line
  (Parser.OneLineParagraphsAgree), and renders the same (Render.AsWrittenHtml).
- HTML escaping is absent in the source and in the model.
- Rust's `String` collection is modelled as byte concatenation.

## Findings

| source | as written | input that shows it | evidently intended | confidence | as-written member | corrected member |
|---|---|---|---|---|---|---|
| src/parser/block.rs:16-22 | `parse_paragraph` starts `end` at the first line's start and adds each line's length without its LF. On a paragraph of several lines the end therefore falls one byte short per line break, and the last line's nodes extend past the paragraph's span. | `"ab\ncd"`: the span is [0, 4), while the PlainText child of the second line spans [3, 5) | the span ends at the end of the last line's text, [0, 5), so every child lies inside its paragraph, as for one-line paragraphs and for block quotes | not executed | Block.ParagraphEndAsWritten (Block.ParagraphEndEscapes, Block.AsWrittenFallsShort) | Block.ParagraphAt (Block.ParagraphWellSpanned) |
| src/main.rs:23-26 | The site generator renders the parsed tree against `content`, the file's text as read. The parser's spans index the buffer `normalize_newlines` made from it, where each CR LF pair is one LF. So every span after such a pair points before the bytes it was parsed from. | `"a\r\n\r\nb"`: the second paragraph is [3, 4) in the buffer "a\n\nb", and byte 3 of the text is the CR of the second pair, so the page is `<p>a</p><p>` CR `</p>` | the tree is rendered against the normalized buffer, giving `<p>a</p><p>b</p>`; every ASCII text then renders | not executed | Render.PageAsWritten (Render.CrLfShifted) | Render.Page (Render.CrLfPage, Render.PageRenders) |
