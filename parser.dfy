/// The document parser (src/parser.rs, `parse_document`): normalize the newlines, then
/// walk the lines, skipping blank ones and parsing a block at every other one.
module Parser {
  import opened Ast
  import opened LineContext
  import opened Inline
  import opened Block

  // ---------------------------------------------------------------------------
  // The document as a function of the normalized buffer
  // ---------------------------------------------------------------------------

  /// The blocks of the lines from `k` on: a blank line is skipped, any other line starts a
  /// block, and the walk resumes on the line that block stops on.
  function DocumentBlocks(buf: seq<Byte>, k: nat): seq<AstNode>
    requires k <= LineCount(buf)
    decreases LineCount(buf) - k, 1
  {
    if k == LineCount(buf) then [] else DocumentBlocksAt(buf, k)
  }

  /// The blocks of the lines from an existing line `k` on.
  function DocumentBlocksAt(buf: seq<Byte>, k: nat): seq<AstNode>
    requires k < LineCount(buf)
    decreases LineCount(buf) - k, 0
  {
    if IsBlank(Line(buf, k)) then DocumentBlocks(buf, k + 1)
    else
      BlockShape(buf, k);
      [BlockAt(buf, k)] + DocumentBlocks(buf, BlockStop(buf, k))
  }

  /// What `parse_document(content)` returns: a Document spanning the whole source text,
  /// whose children are the blocks of its normalized text.
  function DocumentOf(content: seq<Byte>): AstNode
  {
    AstNode(Document, Span(0, |content|), DocumentBlocks(NormalizeNewlines(content), 0))
  }

  /// The blocks of the lines from `k` on as the program builds them: as in
  /// `DocumentBlocks`, with each block built by `BlockAsWritten`.
  function AsWrittenBlocks(buf: seq<Byte>, k: nat): seq<AstNode>
    requires k <= LineCount(buf)
    decreases LineCount(buf) - k, 1
  {
    if k == LineCount(buf) then [] else AsWrittenBlocksAt(buf, k)
  }

  /// The blocks, as the program builds them, of the lines from an existing line `k` on.
  function AsWrittenBlocksAt(buf: seq<Byte>, k: nat): seq<AstNode>
    requires k < LineCount(buf)
    decreases LineCount(buf) - k, 0
  {
    if IsBlank(Line(buf, k)) then AsWrittenBlocks(buf, k + 1)
    else
      BlockShape(buf, k);
      [BlockAsWritten(buf, k)] + AsWrittenBlocks(buf, BlockStop(buf, k))
  }

  /// What `parse_document(content)` returns as the program computes it: the Document of
  /// `DocumentOf` with each paragraph's end as written.
  function DocumentAsWritten(content: seq<Byte>): AstNode
  {
    AstNode(Document, Span(0, |content|), AsWrittenBlocks(NormalizeNewlines(content), 0))
  }

  // ---------------------------------------------------------------------------
  // What a document looks like
  // ---------------------------------------------------------------------------

  /// A blank line contributes nothing; a non-blank line contributes the block it starts.
  lemma DocumentStep(buf: seq<Byte>, k: nat)
    requires k < LineCount(buf)
    ensures IsBlank(Line(buf, k)) ==> DocumentBlocks(buf, k) == DocumentBlocks(buf, k + 1)
    ensures !IsBlank(Line(buf, k)) ==>
              && k < BlockStop(buf, k) <= LineCount(buf)
              && DocumentBlocks(buf, k) == [BlockAt(buf, k)] + DocumentBlocks(buf, BlockStop(buf, k))
  {
    assert DocumentBlocks(buf, k) == DocumentBlocksAt(buf, k);
    BlockShape(buf, k);
  }

  /// The program's walk takes the same steps: a blank line contributes nothing; a
  /// non-blank line contributes the block the program builds there.
  lemma AsWrittenStep(buf: seq<Byte>, k: nat)
    requires k < LineCount(buf)
    ensures IsBlank(Line(buf, k)) ==> AsWrittenBlocks(buf, k) == AsWrittenBlocks(buf, k + 1)
    ensures !IsBlank(Line(buf, k)) ==>
              && k < BlockStop(buf, k) <= LineCount(buf)
              && AsWrittenBlocks(buf, k) == [BlockAsWritten(buf, k)] + AsWrittenBlocks(buf, BlockStop(buf, k))
  {
    assert AsWrittenBlocks(buf, k) == AsWrittenBlocksAt(buf, k);
    BlockShape(buf, k);
  }

  /// `a` and `b` are the same blocks but for ends: of equal number, and pairwise of the
  /// same kind, children and start, the one of `a` ending no later than the one of `b`.
  predicate SameButEnds(a: seq<AstNode>, b: seq<AstNode>)
  {
    && |a| == |b|
    && forall i :: 0 <= i < |a| ==>
         && a[i].kind == b[i].kind && a[i].children == b[i].children
         && a[i].span.start == b[i].span.start <= a[i].span.end <= b[i].span.end
  }

  /// Blocks that agree but for ends, each put in front of a run that does.
  lemma SameButEndsCons(x: AstNode, y: AstNode, a: seq<AstNode>, b: seq<AstNode>)
    requires x.kind == y.kind && x.children == y.children
    requires x.span.start == y.span.start <= x.span.end <= y.span.end
    requires SameButEnds(a, b)
    ensures SameButEnds([x] + a, [y] + b)
  {
    forall i | 1 <= i < 1 + |a|
      ensures ([x] + a)[i] == a[i - 1] && ([y] + b)[i] == b[i - 1]
    {
    }
  }

  /// The program's blocks are those of `DocumentBlocks` but for the paragraphs' ends.
  lemma {:induction false} AsWrittenBlocksMatch(buf: seq<Byte>, k: nat)
    requires k <= LineCount(buf)
    ensures SameButEnds(AsWrittenBlocks(buf, k), DocumentBlocks(buf, k))
    decreases LineCount(buf) - k
  {
    if k < LineCount(buf) {
      DocumentStep(buf, k);
      AsWrittenStep(buf, k);
      if IsBlank(Line(buf, k)) {
        AsWrittenBlocksMatch(buf, k + 1);
      } else {
        var e := BlockStop(buf, k);
        AsWrittenBlocksMatch(buf, e);
        AsWrittenBlock(buf, k);
        SameButEndsCons(BlockAsWritten(buf, k), BlockAt(buf, k), AsWrittenBlocks(buf, e), DocumentBlocks(buf, e));
      }
    }
  }

  /// Every paragraph that can start on a line from `k` on has at most one line.
  predicate OneLineParagraphsFrom(buf: seq<Byte>, k: nat)
  {
    forall j :: k <= j < LineCount(buf) && !IsBlank(Line(buf, j)) && !IsBlockQuoteLine(Line(buf, j)) ==>
      ParaStop(buf, j) <= j + 1
  }

  /// When every paragraph has at most one line, the program's blocks are those of
  /// `DocumentBlocks`.
  lemma {:induction false} OneLineParagraphsAgree(buf: seq<Byte>, k: nat)
    requires k <= LineCount(buf) && OneLineParagraphsFrom(buf, k)
    ensures AsWrittenBlocks(buf, k) == DocumentBlocks(buf, k)
    decreases LineCount(buf) - k
  {
    if k < LineCount(buf) {
      DocumentStep(buf, k);
      AsWrittenStep(buf, k);
      if IsBlank(Line(buf, k)) {
        OneLineParagraphsAgree(buf, k + 1);
      } else {
        var e := BlockStop(buf, k);
        OneLineParagraphsAgree(buf, e);
        AsWrittenBlock(buf, k);
      }
    }
  }

  /// The Document the program builds spans the whole text like `DocumentOf`, and holds
  /// the same blocks but for the paragraphs' ends, each block a Paragraph or a BlockQuote.
  lemma DocumentAsWrittenMatches(content: seq<Byte>)
    ensures var d := DocumentAsWritten(content); var c := DocumentOf(content);
            && d.kind == c.kind == Document && d.span == c.span == Span(0, |content|)
            && SameButEnds(d.children, c.children)
            && forall i :: 0 <= i < |d.children| ==>
                 d.children[i].kind == Paragraph || d.children[i].kind == BlockQuote
  {
    var buf := NormalizeNewlines(content);
    AsWrittenBlocksMatch(buf, 0);
    BlocksAreParagraphsOrQuotes(buf, 0);
  }

  /// Every block of a document is a Paragraph or a BlockQuote, and it is a BlockQuote
  /// exactly when the line it starts on begins with `>`.
  lemma {:induction false} BlocksAreParagraphsOrQuotes(buf: seq<Byte>, k: nat)
    requires k <= LineCount(buf)
    ensures forall i :: 0 <= i < |DocumentBlocks(buf, k)| ==>
              DocumentBlocks(buf, k)[i].kind == Paragraph || DocumentBlocks(buf, k)[i].kind == BlockQuote
    decreases LineCount(buf) - k
  {
    if k < LineCount(buf) {
      DocumentStep(buf, k);
      if IsBlank(Line(buf, k)) {
        BlocksAreParagraphsOrQuotes(buf, k + 1);
      } else {
        BlockShape(buf, k);
        BlocksAreParagraphsOrQuotes(buf, BlockStop(buf, k));
      }
    }
  }

  /// A document has no blocks exactly when every line from `k` on is blank.
  lemma {:induction false} NoBlocksIffAllBlank(buf: seq<Byte>, k: nat)
    requires k <= LineCount(buf)
    ensures DocumentBlocks(buf, k) == [] <==> forall j :: k <= j < LineCount(buf) ==> IsBlank(Line(buf, j))
    decreases LineCount(buf) - k
  {
    if k < LineCount(buf) {
      DocumentStep(buf, k);
      if IsBlank(Line(buf, k)) {
        NoBlocksIffAllBlank(buf, k + 1);
        if DocumentBlocks(buf, k) == [] {
          forall j | k <= j < LineCount(buf) ensures IsBlank(Line(buf, j)) {
            if j > k {
              assert k + 1 <= j;
            }
          }
        }
      }
    }
  }

  /// A run of nodes laid out after one well-spanned node that starts no earlier than `lo`.
  lemma LaidCons(n: AstNode, rest: seq<AstNode>, lo: int, mid: int, hi: int)
    requires WellSpanned(n) && lo <= n.span.start && n.span.end <= mid
    requires Laid(rest, mid, hi)
    ensures Laid([n] + rest, lo, hi)
  {
    assert [n][..0] == [];
    assert Laid([n], lo, n.span.end);
    LaidConcat([n], rest, lo, n.span.end, mid, hi);
  }

  /// The blocks from line `k` on lie in order, each well spanned, between where line `k`
  /// starts and the end of the buffer.
  lemma {:induction false} BlocksLaid(buf: seq<Byte>, k: nat)
    requires k <= LineCount(buf)
    ensures Laid(DocumentBlocks(buf, k), LinePos(buf, k), |buf|)
    decreases LineCount(buf) - k
  {
    if k < LineCount(buf) {
      DocumentStep(buf, k);
      LineOrder(buf, k);
      if IsBlank(Line(buf, k)) {
        BlocksLaid(buf, k + 1);
        LaidRaiseLow(DocumentBlocks(buf, k + 1), LinePos(buf, k), LinePos(buf, k + 1), |buf|);
      } else {
        BlockShape(buf, k);
        var e := BlockStop(buf, k);
        BlocksLaid(buf, e);
        LaidCons(BlockAt(buf, k), DocumentBlocks(buf, e), LinePos(buf, k), LinePos(buf, e), |buf|);
      }
    }
  }

  /// The Document node is well spanned: its blocks lie in order inside [0, |content|], as
  /// normalization never lengthens the text, and each is a Paragraph or a BlockQuote.
  lemma DocumentWellSpanned(content: seq<Byte>)
    ensures var d := DocumentOf(content);
            && d.kind == Document && d.span == Span(0, |content|) && WellSpanned(d)
            && forall i :: 0 <= i < |d.children| ==>
                 d.children[i].kind == Paragraph || d.children[i].kind == BlockQuote
  {
    var buf := NormalizeNewlines(content);
    BlocksLaid(buf, 0);
    LaidWiden(DocumentBlocks(buf, 0), LinePos(buf, 0), |buf|, |content|);
    if LineCount(buf) > 0 {
      LineIndexWellFormed(buf);
      assert LinePos(buf, 0) == 0;
    } else {
      assert LinePos(buf, 0) == |buf|;
      LaidBounds(DocumentBlocks(buf, 0), |buf|, |buf|);
      assert DocumentBlocks(buf, 0) == [];
    }
    BlocksAreParagraphsOrQuotes(buf, 0);
  }

  // ---------------------------------------------------------------------------
  // The source's `multiple_blocks` example
  // ---------------------------------------------------------------------------

  /// The text "first\n\nsecond\n", byte by byte.
  predicate IsFirstSecond(content: seq<Byte>)
  {
    && |content| == 14
    && content[0] == 0x66 && content[1] == 0x69 && content[2] == 0x72 && content[3] == 0x73
    && content[4] == 0x74 && content[5] == LF && content[6] == LF
    && content[7] == 0x73 && content[8] == 0x65 && content[9] == 0x63 && content[10] == 0x6F
    && content[11] == 0x6E && content[12] == 0x64 && content[13] == LF
  }

  /// "first\n\nsecond\n" holds no CR, and its line ranges end after each LF.
  lemma FirstSecondIndex(content: seq<Byte>)
    requires IsFirstSecond(content)
    ensures NormalizeNewlines(content) == content
    ensures LineIndex(content) == [LineRange(0, 6), LineRange(6, 7), LineRange(7, 14)]
  {
    FirstSecondNormal(content);
    LinesFromAtLf(content, 0, 5);
    LinesFromAtLf(content, 6, 6);
    LinesFromAtLf(content, 7, 13);
  }

  /// "first\n\nsecond\n" holds no CR, so normalization leaves it as it is.
  lemma FirstSecondNormal(content: seq<Byte>)
    requires IsFirstSecond(content)
    ensures NormalizeNewlines(content) == content
  {
    assert CR !in content by {
      forall i | 0 <= i < |content| ensures content[i] != CR { }
    }
    NormalizeKeepsCrFree(content);
  }

  /// The lines of "first\n\nsecond\n" are "first", "" and "second".
  lemma FirstSecondLines(content: seq<Byte>)
    requires IsFirstSecond(content)
    ensures NormalizeNewlines(content) == content
    ensures LineIndex(content) == [LineRange(0, 6), LineRange(6, 7), LineRange(7, 14)]
    ensures Line(content, 0) == content[0..5] && Line(content, 1) == [] && Line(content, 2) == content[7..13]
  {
    FirstSecondIndex(content);
  }

  /// "first" and "second" are non-blank lines without markup that do not start with `>`.
  lemma FirstSecondPlain(content: seq<Byte>)
    requires IsFirstSecond(content)
    ensures !IsBlank(content[0..5]) && !IsBlank(content[7..13]) && IsBlank([])
    ensures !IsBlockQuoteLine(content[0..5]) && !IsBlockQuoteLine(content[7..13])
    ensures NoMarkup(content[0..5]) && NoMarkup(content[7..13])
  {
    PrintableStartNotBlank(content[0..5]);
    PrintableStartNotBlank(content[7..13]);
  }

  /// `multiple_blocks`: "first\n\nsecond\n" is a Document spanning [0, 14) with two
  /// Paragraphs, [0, 5) and [7, 13), each holding one PlainText node over the same bytes.
  lemma MultipleBlocks(content: seq<Byte>)
    requires IsFirstSecond(content)
    ensures DocumentAsWritten(content) == DocumentOf(content) == AstNode(Document, Span(0, 14), [
              AstNode(Paragraph, Span(0, 5), [Plain(0, 5)]),
              AstNode(Paragraph, Span(7, 13), [Plain(7, 13)])])
  {
    FirstSecondLines(content);
    FirstSecondPlain(content);
    assert ParaStop(content, 0) == 1;
    assert ParaStop(content, 2) == 3;
    PlainLineParagraph(content, 0);
    PlainLineParagraph(content, 2);
    DocumentStep(content, 0);
    DocumentStep(content, 1);
    DocumentStep(content, 2);
    assert DocumentBlocks(content, 3) == [];
    assert OneLineParagraphsFrom(content, 0) by {
      forall j | 0 <= j < 3 && !IsBlank(Line(content, j)) ensures ParaStop(content, j) <= j + 1 {
        assert j == 0 || j == 2;
      }
    }
    OneLineParagraphsAgree(content, 0);
  }

  // ---------------------------------------------------------------------------
  // Two paragraphs with CR LF line breaks
  // ---------------------------------------------------------------------------

  /// The text "a\r\n\r\nb", byte by byte.
  predicate IsACrLfB(content: seq<Byte>)
  {
    && |content| == 6 && content[0] == 0x61 && content[1] == CR && content[2] == LF
    && content[3] == CR && content[4] == LF && content[5] == 0x62
  }

  /// The normalized buffer "a\n\nb", byte by byte.
  predicate IsANlNlB(buf: seq<Byte>)
  {
    |buf| == 4 && buf[0] == 0x61 && buf[1] == LF && buf[2] == LF && buf[3] == 0x62
  }

  /// Each CR LF pair of "a\r\n\r\nb" becomes one LF: the buffer is "a\n\nb", two bytes
  /// shorter, so the second word sits at position 3 of the buffer and 5 of the text.
  lemma ACrLfBNormal(content: seq<Byte>)
    requires IsACrLfB(content)
    ensures IsANlNlB(NormalizeNewlines(content))
  {
    assert NormalizeNewlines([]) == [] by {
      assert ReplaceCrLf([]) == [];
    }
    assert content[5..][1..] == [];
    NormalizeStep(content[5..]);
    assert content[3..][2..] == content[5..];
    NormalizeStep(content[3..]);
    assert content[1..][2..] == content[3..];
    NormalizeStep(content[1..]);
    NormalizeStep(content);
  }

  /// The lines of "a\n\nb" are "a", "" and "b", the last one without a terminator.
  lemma ANlNlBLines(buf: seq<Byte>)
    requires IsANlNlB(buf)
    ensures LineIndex(buf) == [LineRange(0, 2), LineRange(2, 3), LineRange(3, 4)]
    ensures Line(buf, 0) == buf[0..1] && Line(buf, 1) == [] && Line(buf, 2) == buf[3..4]
  {
    LinesFromAtLf(buf, 0, 1);
    LinesFromAtLf(buf, 2, 2);
    LinesFromLast(buf, 3);
  }

  /// "a" and "b" are non-blank lines without markup that do not start with `>`.
  lemma ANlNlBPlain(buf: seq<Byte>)
    requires IsANlNlB(buf)
    ensures !IsBlank(buf[0..1]) && !IsBlank(buf[3..4]) && IsBlank([])
    ensures !IsBlockQuoteLine(buf[0..1]) && !IsBlockQuoteLine(buf[3..4])
    ensures NoMarkup(buf[0..1]) && NoMarkup(buf[3..4])
  {
    PrintableStartNotBlank(buf[0..1]);
    PrintableStartNotBlank(buf[3..4]);
  }

  /// The blocks of "a\n\nb": two one-line Paragraphs, [0, 1) and [3, 4), in the program's
  /// tree and in the corrected one alike.
  lemma ANlNlBBlocks(buf: seq<Byte>)
    requires IsANlNlB(buf)
    ensures AsWrittenBlocks(buf, 0) == DocumentBlocks(buf, 0) == [
              AstNode(Paragraph, Span(0, 1), [Plain(0, 1)]),
              AstNode(Paragraph, Span(3, 4), [Plain(3, 4)])]
  {
    ANlNlBLines(buf);
    ANlNlBPlain(buf);
    assert ParaStop(buf, 0) == 1;
    assert ParaStop(buf, 2) == 3;
    PlainLineParagraph(buf, 0);
    PlainLineParagraph(buf, 2);
    DocumentStep(buf, 0);
    DocumentStep(buf, 1);
    DocumentStep(buf, 2);
    assert DocumentBlocks(buf, 3) == [];
    assert OneLineParagraphsFrom(buf, 0) by {
      forall j | 0 <= j < 3 && !IsBlank(Line(buf, j)) ensures ParaStop(buf, j) <= j + 1 {
        assert j == 0 || j == 2;
      }
    }
    OneLineParagraphsAgree(buf, 0);
  }

  /// "a\r\n\r\nb" parses as a Document over [0, 6) with two one-line Paragraphs, over
  /// [0, 1) and [3, 4): positions in the normalized buffer "a\n\nb", not in the text.
  lemma ACrLfBBlocks(content: seq<Byte>)
    requires IsACrLfB(content)
    ensures IsANlNlB(NormalizeNewlines(content))
    ensures DocumentAsWritten(content) == DocumentOf(content) == AstNode(Document, Span(0, 6), [
              AstNode(Paragraph, Span(0, 1), [Plain(0, 1)]),
              AstNode(Paragraph, Span(3, 4), [Plain(3, 4)])])
  {
    ACrLfBNormal(content);
    ANlNlBBlocks(NormalizeNewlines(content));
  }

  /// A non-empty text without CR or LF is its own normalization and has one line, itself.
  lemma SingleLine(content: seq<Byte>)
    requires |content| > 0 && LF !in content && CR !in content
    ensures NormalizeNewlines(content) == content
    ensures LineIndex(content) == [LineRange(0, |content|)] && Line(content, 0) == content
  {
    NormalizeKeepsCrFree(content);
    assert NoLf(content, 0, |content|);
    LinesFromLast(content, 0);
    assert content[|content| - 1] != LF;
    assert content[0..|content|] == content;
  }

  /// A single line of plain text with no markup and no `>` in front is one Paragraph
  /// holding one PlainText node, both over the whole text.
  lemma PlainLineBlock(content: seq<Byte>)
    requires !IsBlank(content) && !IsBlockQuoteLine(content) && NoMarkup(content)
    requires LF !in content && CR !in content
    ensures LineCount(content) == 1 && Line(content, 0) == content && BlockStop(content, 0) == 1
    ensures BlockAt(content, 0) == AstNode(Paragraph, Span(0, |content|), [Plain(0, |content|)])
  {
    SingleLine(content);
    assert ParaStop(content, 0) == 1;
    assert LineStart(content, 0) == 0;
    PlainLineParagraph(content, 0);
  }

  /// A single line of plain text with no markup, no line break and no `>` in front is a
  /// Document holding one Paragraph with one PlainText node, all three over the whole text.
  lemma PlainLineDocument(content: seq<Byte>)
    requires !IsBlank(content) && !IsBlockQuoteLine(content) && NoMarkup(content)
    requires LF !in content && CR !in content
    ensures DocumentAsWritten(content) == DocumentOf(content) == AstNode(Document, Span(0, |content|), [
              AstNode(Paragraph, Span(0, |content|), [Plain(0, |content|)])])
  {
    SingleLine(content);
    PlainLineBlock(content);
    DocumentStep(content, 0);
    assert DocumentBlocks(content, 1) == [];
    OneLineParagraphsAgree(content, 0);
  }

  // ---------------------------------------------------------------------------
  // parse_document over the line context
  // ---------------------------------------------------------------------------

  /// Moving a block from the front of the blocks still to come to the end of the blocks
  /// collected keeps the whole sequence.
  lemma AppendBlock(children: seq<AstNode>, block: AstNode, rest: seq<AstNode>, blocks: seq<AstNode>)
    requires children + ([block] + rest) == blocks
    ensures (children + [block]) + rest == blocks
  {
    assert (children + [block]) + rest == children + ([block] + rest);
  }

  /// `parse_document`: skip blank lines, parse a block at every other line, and wrap the
  /// blocks in a Document spanning the whole source text.
  method ParseDocument(content: seq<Byte>) returns (doc: AstNode)
    ensures doc == DocumentAsWritten(content)
  {
    var ctx := new Context(content);
    ghost var blocks := AsWrittenBlocks(ctx.buf, 0);
    assert blocks == DocumentAsWritten(content).children;
    var children: seq<AstNode> := [];
    while !ctx.IsEof()
      invariant ctx.Valid()
      invariant children + AsWrittenBlocks(ctx.buf, ctx.curLinePosition) == blocks
      decreases |ctx.lineRange| - ctx.curLinePosition
    {
      AsWrittenStep(ctx.buf, ctx.curLinePosition);
      if IsBlank(ctx.CurrentLine()) {
        ctx.Advance();
        continue;
      }
      ghost var rest := AsWrittenBlocks(ctx.buf, BlockStop(ctx.buf, ctx.curLinePosition));
      var block := ParseBlock(ctx);
      AppendBlock(children, block, rest, blocks);
      children := children + [block];
    }
    doc := AstNode(Document, Span(0, |content|), children);
  }
}
