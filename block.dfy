/// The block parser (src/parser/block.rs): a paragraph is a run of non-blank lines, a
/// block quote a run of lines starting with `>`, split into paragraphs at blank quoted
/// lines. Each block is specified as a function of the normalized buffer and the line it
/// starts on; the methods are proved to compute it while moving the context's cursor.
module Block {
  import opened Ast
  import opened LineContext
  import opened Inline

  const GT: Byte := 0x3E
  const SPACE: Byte := 0x20

  // ---------------------------------------------------------------------------
  // Lines of the buffer
  // ---------------------------------------------------------------------------

  /// Where line `k` starts in the buffer (`line_range[k].start`).
  function LineStart(buf: seq<Byte>, k: nat): nat
    requires k < LineCount(buf)
  {
    LineIndex(buf)[k].start
  }

  /// Where line `k`'s range ends, its LF included (`line_range[k].end`).
  function LineStop(buf: seq<Byte>, k: nat): nat
    requires k < LineCount(buf)
  {
    LineIndex(buf)[k].end
  }

  /// Where line `k` starts, or the end of the buffer past the last line.
  function LinePos(buf: seq<Byte>, k: nat): nat
    requires k <= LineCount(buf)
  {
    if k < LineCount(buf) then LineStart(buf, k) else |buf|
  }

  /// A line's text ends inside its range, and the next line starts where the range ends.
  lemma LineOrder(buf: seq<Byte>, k: nat)
    requires k < LineCount(buf)
    ensures LineStart(buf, k) + |Line(buf, k)| <= LineStop(buf, k) <= |buf|
    ensures k + 1 < LineCount(buf) ==> LineStop(buf, k) == LineStart(buf, k + 1)
  {
    LineIndexWellFormed(buf);
  }

  // ---------------------------------------------------------------------------
  // Nodes laid out one run after another
  // ---------------------------------------------------------------------------

  /// A run of laid-out nodes may start later than the bound it was laid out from.
  lemma {:induction false} LaidRaiseLow(ns: seq<AstNode>, lo: int, lo2: int, hi: int)
    requires Laid(ns, lo2, hi) && lo <= lo2
    ensures Laid(ns, lo, hi)
    decreases |ns|
  {
    if |ns| > 0 {
      LaidRaiseLow(ns[..|ns| - 1], lo, lo2, ns[|ns| - 1].span.start);
    }
  }

  /// Two runs, the second starting after the first one's bound, lie one after the other.
  lemma {:induction false} LaidConcat(a: seq<AstNode>, b: seq<AstNode>, lo: int, mid: int, mid2: int, hi: int)
    requires Laid(a, lo, mid) && Laid(b, mid2, hi) && mid <= mid2
    ensures Laid(a + b, lo, hi)
    decreases |b|
  {
    if |b| == 0 {
      assert a + b == a;
      LaidBounds(a, lo, mid);
      LaidWiden(a, lo, mid, hi);
    } else {
      var init := b[..|b| - 1];
      LaidConcat(a, init, lo, mid, mid2, b[|b| - 1].span.start);
      assert (a + b)[..|a + b| - 1] == a + init;
    }
  }

  /// The upper bound of laid-out nodes may be raised.
  lemma LaidWiden(ns: seq<AstNode>, lo: int, hi: int, hi2: int)
    requires Laid(ns, lo, hi) && hi <= hi2
    ensures Laid(ns, lo, hi2)
  {
  }

  /// A non-empty run lies between its first node's start and its last node's end, after
  /// whatever precedes it.
  lemma {:induction false} LaidSplit(a: seq<AstNode>, b: seq<AstNode>, lo: int, hi: int)
    requires Laid(a + b, lo, hi) && |b| > 0
    ensures Laid(a, lo, b[0].span.start)
    ensures Laid(b, b[0].span.start, b[|b| - 1].span.end)
    decreases |b|
  {
    var init := b[..|b| - 1];
    assert (a + b)[..|a + b| - 1] == a + init;
    if |init| == 0 {
      assert a + init == a;
      LaidBounds(a, lo, b[0].span.start);
    } else {
      LaidSplit(a, init, lo, b[|b| - 1].span.start);
      assert init[0] == b[0];
      LaidBounds(init, b[0].span.start, init[|init| - 1].span.end);
      LaidWiden(init, b[0].span.start, init[|init| - 1].span.end, b[|b| - 1].span.start);
    }
  }

  // ---------------------------------------------------------------------------
  // Block quote markers and flushing
  // ---------------------------------------------------------------------------

  /// `is_block_quote_line`: the line starts with `>`.
  predicate IsBlockQuoteLine(line: seq<Byte>)
  {
    |line| > 0 && line[0] == GT
  }

  /// `strip_block_quote_marker`: the rest of the line after `"> "`, else after `">"`,
  /// else the whole line, with the length of the marker removed.
  function StripBlockQuoteMarker(line: seq<Byte>): (r: (seq<Byte>, nat))
    ensures r.1 <= 2 && r.1 <= |line| && r.0 == line[r.1..]
    ensures line[..r.1] == [GT, SPACE][..r.1]
    ensures r.1 < 2 ==> !(|line| >= 2 && line[..2] == [GT, SPACE])
    ensures r.1 == 0 <==> !IsBlockQuoteLine(line)
  {
    if |line| >= 2 && line[0] == GT && line[1] == SPACE then (line[2..], 2)
    else if |line| >= 1 && line[0] == GT then (line[1..], 1)
    else (line, 0)
  }

  /// `flush_paragraph`: the pending nodes, when there are any, become one Paragraph that
  /// spans from the first one's start to the last one's end; the pending list is emptied.
  function FlushParagraph(children: seq<AstNode>, para: seq<AstNode>): (r: (seq<AstNode>, seq<AstNode>))
    ensures r.1 == []
    ensures |para| == 0 ==> r.0 == children
    ensures |para| > 0 ==>
              && |r.0| == |children| + 1 && r.0[..|children|] == children
              && r.0[|children|].kind == Paragraph && r.0[|children|].children == para
              && r.0[|children|].span == Span(para[0].span.start, para[|para| - 1].span.end)
  {
    if |para| == 0 then (children, para)
    else
      var paragraph := AstNode(Paragraph, Span(para[0].span.start, para[|para| - 1].span.end), para);
      (children + [paragraph], [])
  }

  /// Flushing keeps the layout: pending nodes laid out after the finished paragraphs
  /// become one well-spanned Paragraph inside the same bounds.
  lemma FlushLaid(children: seq<AstNode>, para: seq<AstNode>, lo: int, hi: int)
    requires Laid(children + para, lo, hi)
    ensures Laid(FlushParagraph(children, para).0, lo, hi)
  {
    if |para| == 0 {
      assert children + para == children;
    } else {
      LaidSplit(children, para, lo, hi);
      LaidBounds(para, para[0].span.start, para[|para| - 1].span.end);
      var p := FlushParagraph(children, para).0[|children|];
      assert WellSpanned(p);
      LaidBounds(children + para, lo, hi);
      assert (children + para)[|children + para| - 1] == para[|para| - 1];
      LaidAppend(children, lo, para[0].span.start, p, hi);
    }
  }

  // ---------------------------------------------------------------------------
  // Paragraphs
  // ---------------------------------------------------------------------------

  /// The line on which a paragraph starting at line `k` stops: the first blank line at or
  /// after `k`, or the line count.
  function ParaStop(buf: seq<Byte>, k: nat): (e: nat)
    requires k <= LineCount(buf)
    ensures k <= e <= LineCount(buf)
    ensures forall j :: k <= j < e ==> !IsBlank(Line(buf, j))
    ensures e < LineCount(buf) ==> IsBlank(Line(buf, e))
    decreases LineCount(buf) - k
  {
    if k == LineCount(buf) || IsBlank(Line(buf, k)) then k else ParaStop(buf, k + 1)
  }

  /// The inline nodes of lines [k, e), line after line, each parsed at its line's start.
  function ParaInlines(buf: seq<Byte>, k: nat, e: nat): seq<AstNode>
    requires k <= e <= LineCount(buf)
    decreases e - k, 1
  {
    if e == k then [] else ParaInlinesUpTo(buf, k, e)
  }

  /// The inline nodes of at least one line [k, e): those of [k, e - 1), then line e - 1's.
  function ParaInlinesUpTo(buf: seq<Byte>, k: nat, e: nat): seq<AstNode>
    requires k < e <= LineCount(buf)
    decreases e - k, 0
  {
    ParaInlines(buf, k, e - 1) + Inlines(Line(buf, e - 1), LineStart(buf, e - 1))
  }

  /// The end of a paragraph made of lines [k, e): the end of the last line's text, or
  /// the first line's start when there are no lines.
  function ParaEnd(buf: seq<Byte>, k: nat, e: nat): nat
    requires k < LineCount(buf) && k <= e <= LineCount(buf)
  {
    if e == k then LineStart(buf, k) else LineStart(buf, e - 1) + |Line(buf, e - 1)|
  }

  /// `parse_paragraph` from line `k`, with the paragraph's end at the end of its last line.
  function ParagraphAt(buf: seq<Byte>, k: nat): AstNode
    requires k < LineCount(buf)
  {
    var e := ParaStop(buf, k);
    AstNode(Paragraph, Span(LineStart(buf, k), ParaEnd(buf, k, e)), ParaInlines(buf, k, e))
  }

  /// A line's inline nodes, parsed at `offset`, follow nodes laid out before `offset` and
  /// end by the end of the line's text.
  lemma InlinesFollow(acc: seq<AstNode>, lo: int, mid: int, line: seq<Byte>, offset: nat, hi: int)
    requires Laid(acc, lo, mid) && mid <= offset && offset + |line| <= hi
    ensures Laid(acc + Inlines(line, offset), lo, hi)
  {
    InlinesLaid(line, offset);
    LaidConcat(acc, Inlines(line, offset), lo, mid, offset, hi);
  }

  /// The inline nodes of lines [k, e) lie in order between the first line's start and the
  /// end of the last line's text.
  lemma {:induction false} ParaInlinesLaid(buf: seq<Byte>, k: nat, e: nat)
    requires k < LineCount(buf) && k <= e <= LineCount(buf)
    ensures Laid(ParaInlines(buf, k, e), LineStart(buf, k), ParaEnd(buf, k, e))
    decreases e - k
  {
    if e > k {
      ParaInlinesLaid(buf, k, e - 1);
      ParaLaidStep(buf, k, e);
    }
  }

  /// Adding line `e - 1` to a paragraph keeps its inline nodes laid out.
  lemma ParaLaidStep(buf: seq<Byte>, k: nat, e: nat)
    requires k < e <= LineCount(buf)
    requires Laid(ParaInlines(buf, k, e - 1), LineStart(buf, k), ParaEnd(buf, k, e - 1))
    ensures Laid(ParaInlines(buf, k, e), LineStart(buf, k), ParaEnd(buf, k, e))
  {
    var j := e - 1;
    if j > k {
      LineOrder(buf, j - 1);
    }
    InlinesFollow(ParaInlines(buf, k, j), LineStart(buf, k), ParaEnd(buf, k, j),
                  Line(buf, j), LineStart(buf, j), ParaEnd(buf, k, e));
    assert ParaInlines(buf, k, e) == ParaInlinesUpTo(buf, k, e);
  }

  /// One more line of a paragraph: its inline nodes are appended; the end as written grows
  /// by the line's length, while the corrected end becomes the end of the line's text.
  lemma ParaStep(buf: seq<Byte>, k: nat, p: nat, line: seq<Byte>, offset: nat, nodes: seq<AstNode>)
    requires k <= p < LineCount(buf)
    requires line == Line(buf, p) && offset == LineStart(buf, p) && nodes == Inlines(line, offset)
    ensures ParaInlines(buf, k, p + 1) == ParaInlines(buf, k, p) + nodes
    ensures ParagraphEndAsWritten(buf, k, p + 1) == ParagraphEndAsWritten(buf, k, p) + |line|
    ensures ParaEnd(buf, k, p + 1) == offset + |line|
  {
  }

  /// A non-blank line at or before a paragraph's stop lies before it.
  lemma ParaStopAfter(buf: seq<Byte>, k: nat, p: nat)
    requires p < LineCount(buf) && k <= p <= ParaStop(buf, k) && !IsBlank(Line(buf, p))
    ensures p < ParaStop(buf, k)
  {
  }

  /// A paragraph stops at the first line at or after its start that is blank or past the end.
  lemma ParaStopAt(buf: seq<Byte>, k: nat, p: nat)
    requires k <= p <= LineCount(buf) && p <= ParaStop(buf, k)
    requires p == LineCount(buf) || IsBlank(Line(buf, p))
    ensures p == ParaStop(buf, k)
  {
  }

  /// A paragraph's children lie in order inside its span, which lies inside the buffer.
  lemma ParagraphWellSpanned(buf: seq<Byte>, k: nat)
    requires k < LineCount(buf)
    ensures var p := ParagraphAt(buf, k);
            WellSpanned(p) && LineStart(buf, k) == p.span.start && p.span.end <= |buf|
  {
    var e := ParaStop(buf, k);
    ParaInlinesLaid(buf, k, e);
    LaidBounds(ParaInlines(buf, k, e), LineStart(buf, k), ParaEnd(buf, k, e));
    if e > k {
      LineOrder(buf, e - 1);
    } else {
      LineOrder(buf, k);
    }
  }

  /// A paragraph started on a non-blank line takes at least that line.
  lemma ParagraphProgress(buf: seq<Byte>, k: nat)
    requires k < LineCount(buf) && !IsBlank(Line(buf, k))
    ensures ParaStop(buf, k) > k
  {
  }

  /// The paragraph end as `parse_paragraph` computes it: the first line's start plus the
  /// lengths of all the lines' texts, their LFs left out.
  function ParagraphEndAsWritten(buf: seq<Byte>, k: nat, e: nat): (r: nat)
    requires k < LineCount(buf) && k <= e <= LineCount(buf)
    ensures LineStart(buf, k) <= r <= ParaEnd(buf, k, e)
    decreases e - k
  {
    if e == k then LineStart(buf, k)
    else
      if e - 1 > k then LineOrder(buf, e - 2); ParagraphEndAsWritten(buf, k, e - 1) + |Line(buf, e - 1)|
      else ParagraphEndAsWritten(buf, k, e - 1) + |Line(buf, e - 1)|
  }

  /// `parse_paragraph` from line `k` as the program computes it: the paragraph of
  /// `ParagraphAt` with the end as written.
  function ParagraphAsWritten(buf: seq<Byte>, k: nat): AstNode
    requires k < LineCount(buf)
  {
    var e := ParaStop(buf, k);
    AstNode(Paragraph, Span(LineStart(buf, k), ParagraphEndAsWritten(buf, k, e)), ParaInlines(buf, k, e))
  }

  /// The paragraph as the program computes it differs from the corrected one only in its
  /// end, which falls one byte short per line break: the two are equal exactly when the
  /// paragraph has at most one line.
  lemma AsWrittenParagraph(buf: seq<Byte>, k: nat)
    requires k < LineCount(buf)
    ensures var p := ParagraphAsWritten(buf, k); var q := ParagraphAt(buf, k); var e := ParaStop(buf, k);
            && p.kind == q.kind == Paragraph && p.children == q.children
            && p.span.start == q.span.start <= p.span.end <= q.span.end
            && (e > k ==> p.span.end + (e - 1 - k) == q.span.end)
            && (p == q <==> e <= k + 1)
  {
    var e := ParaStop(buf, k);
    if e > k {
      AsWrittenFallsShort(buf, k, e);
    }
  }

  /// On a one-line paragraph the end as written is the end of the line's text.
  lemma AsWrittenAgreesOnOneLine(buf: seq<Byte>, k: nat)
    requires k < LineCount(buf) && ParaStop(buf, k) <= k + 1
    ensures ParagraphEndAsWritten(buf, k, ParaStop(buf, k)) == ParagraphAt(buf, k).span.end
  {
  }

  /// A line that is not the last one ends in an LF just past its text.
  lemma LineBeforeLf(buf: seq<Byte>, k: nat)
    requires k + 1 < LineCount(buf)
    ensures LineStart(buf, k) + |Line(buf, k)| + 1 == LineStop(buf, k) == LineStart(buf, k + 1)
  {
    LineIndexWellFormed(buf);
  }

  /// On a paragraph of several lines the end as written falls one byte short of the end
  /// of the last line's text for every line break inside the paragraph.
  lemma {:induction false} AsWrittenFallsShort(buf: seq<Byte>, k: nat, e: nat)
    requires k < e <= LineCount(buf)
    ensures ParagraphEndAsWritten(buf, k, e) + (e - 1 - k) == ParaEnd(buf, k, e)
    decreases e - k
  {
    if e - 1 > k {
      AsWrittenFallsShort(buf, k, e - 1);
      LineBeforeLf(buf, e - 2);
    }
  }

  /// The buffer "ab\ncd".
  predicate IsAbCd(buf: seq<Byte>)
  {
    |buf| == 5 && buf[0] == 0x61 && buf[1] == 0x62 && buf[2] == LF && buf[3] == 0x63 && buf[4] == 0x64
  }

  /// "ab\ncd" has the lines "ab" at 0 and "cd" at 3.
  lemma AbCdIndex(buf: seq<Byte>)
    requires IsAbCd(buf)
    ensures LineIndex(buf) == [LineRange(0, 3), LineRange(3, 5)]
    ensures Line(buf, 0) == buf[0..2] && Line(buf, 1) == buf[3..5]
  {
    LinesFromAtLf(buf, 0, 2);
    LinesFromLast(buf, 3);
  }

  /// Both lines of "ab\ncd" are non-blank and parse to one PlainText node each.
  lemma AbCdPlain(buf: seq<Byte>)
    requires IsAbCd(buf)
    ensures !IsBlank(buf[0..2]) && !IsBlank(buf[3..5])
    ensures Inlines(buf[0..2], 0) == [Plain(0, 2)] && Inlines(buf[3..5], 3) == [Plain(3, 5)]
  {
    PrintableStartNotBlank(buf[0..2]);
    PrintableStartNotBlank(buf[3..5]);
    PlainLine(buf[0..2], 0);
    PlainLine(buf[3..5], 3);
  }

  /// The paragraph of "ab\ncd": the end as written is 4, yet the second line's PlainText
  /// node spans [3, 5), past that end; the end of the last line's text is 5.
  lemma ParagraphEndEscapes(buf: seq<Byte>)
    requires IsAbCd(buf)
    ensures ParaStop(buf, 0) == 2
    ensures ParagraphEndAsWritten(buf, 0, 2) == 4
    ensures ParagraphAt(buf, 0).children == [Plain(0, 2), Plain(3, 5)]
    ensures ParagraphAt(buf, 0).span == Span(0, 5)
  {
    AbCdIndex(buf);
    AbCdPlain(buf);
    assert ParaStop(buf, 1) == 2;
  }

  // ---------------------------------------------------------------------------
  // Block quotes
  // ---------------------------------------------------------------------------

  /// The line on which a block quote starting at line `k` stops: the first line at or
  /// after `k` that does not start with `>`, or the line count.
  function QuoteStop(buf: seq<Byte>, k: nat): (e: nat)
    requires k <= LineCount(buf)
    ensures k <= e <= LineCount(buf)
    ensures forall j :: k <= j < e ==> IsBlockQuoteLine(Line(buf, j))
    ensures e < LineCount(buf) ==> !IsBlockQuoteLine(Line(buf, e))
    decreases LineCount(buf) - k
  {
    if k == LineCount(buf) || !IsBlockQuoteLine(Line(buf, k)) then k else QuoteStop(buf, k + 1)
  }

  /// One quoted line, given the finished paragraphs and the pending nodes: a line that is
  /// blank once its marker is stripped flushes the pending nodes, any other line adds its
  /// inline nodes, parsed at the position just past the marker.
  function QuoteLine(buf: seq<Byte>, j: nat, acc: (seq<AstNode>, seq<AstNode>)): (seq<AstNode>, seq<AstNode>)
    requires j < LineCount(buf)
  {
    var m := StripBlockQuoteMarker(Line(buf, j));
    if IsBlank(m.0) then FlushParagraph(acc.0, acc.1)
    else (acc.0, acc.1 + Inlines(m.0, LineStart(buf, j) + m.1))
  }

  /// The finished paragraphs and the pending nodes after the quoted lines [k, e).
  function QuoteScan(buf: seq<Byte>, k: nat, e: nat): (seq<AstNode>, seq<AstNode>)
    requires k <= e <= LineCount(buf)
    decreases e - k, 1
  {
    if e == k then ([], []) else QuoteScanUpTo(buf, k, e)
  }

  /// The scan of at least one quoted line [k, e): the scan of [k, e - 1), then line e - 1.
  function QuoteScanUpTo(buf: seq<Byte>, k: nat, e: nat): (seq<AstNode>, seq<AstNode>)
    requires k < e <= LineCount(buf)
    decreases e - k, 0
  {
    QuoteLine(buf, e - 1, QuoteScan(buf, k, e - 1))
  }

  /// The end of a block quote made of lines [k, e): the end of the last line's range, its
  /// LF included, or the first line's start when there are no lines.
  function QuoteEnd(buf: seq<Byte>, k: nat, e: nat): nat
    requires k < LineCount(buf) && k <= e <= LineCount(buf)
  {
    if e == k then LineStart(buf, k) else LineStop(buf, e - 1)
  }

  /// `parse_block_quote` from line `k`: the quoted lines' paragraphs, the last one flushed
  /// at the end of the quote.
  function BlockQuoteAt(buf: seq<Byte>, k: nat): AstNode
    requires k < LineCount(buf)
  {
    var e := QuoteStop(buf, k);
    var acc := QuoteScan(buf, k, e);
    AstNode(BlockQuote, Span(LineStart(buf, k), QuoteEnd(buf, k, e)), FlushParagraph(acc.0, acc.1).0)
  }

  /// Every node is a Paragraph with at least one child.
  predicate AllParagraphs(ns: seq<AstNode>)
  {
    forall i :: 0 <= i < |ns| ==> ns[i].kind == Paragraph && |ns[i].children| > 0
  }

  /// Flushing adds only a Paragraph with children.
  lemma FlushParagraphs(children: seq<AstNode>, para: seq<AstNode>)
    requires AllParagraphs(children)
    ensures AllParagraphs(FlushParagraph(children, para).0)
  {
  }

  /// One quoted line keeps the layout: nodes laid out before the line's start are, after
  /// the line, laid out before the end of its range, and flushing adds only Paragraphs.
  lemma QuoteLineLaid(buf: seq<Byte>, j: nat, acc: (seq<AstNode>, seq<AstNode>), lo: int, mid: int)
    requires j < LineCount(buf) && mid <= LineStart(buf, j)
    requires Laid(acc.0 + acc.1, lo, mid) && AllParagraphs(acc.0)
    ensures var next := QuoteLine(buf, j, acc);
            Laid(next.0 + next.1, lo, LineStop(buf, j)) && AllParagraphs(next.0)
  {
    LineOrder(buf, j);
    var m := StripBlockQuoteMarker(Line(buf, j));
    if IsBlank(m.0) {
      FlushLaid(acc.0, acc.1, lo, mid);
      FlushParagraphs(acc.0, acc.1);
      var next := FlushParagraph(acc.0, acc.1);
      assert next.0 + next.1 == next.0;
      LaidWiden(next.0, lo, mid, LineStop(buf, j));
    } else {
      QuoteInlinesLaid(buf, j, acc, lo, mid, m.0, m.1);
    }
  }

  /// The inline nodes of a quoted line's content, parsed past its marker, follow the
  /// pending nodes laid out before the line's start.
  lemma QuoteInlinesLaid(buf: seq<Byte>, j: nat, acc: (seq<AstNode>, seq<AstNode>), lo: int, mid: int,
                         content: seq<Byte>, markerLen: nat)
    requires j < LineCount(buf) && mid <= LineStart(buf, j)
    requires Laid(acc.0 + acc.1, lo, mid)
    requires markerLen <= |Line(buf, j)| && content == Line(buf, j)[markerLen..]
    ensures Laid(acc.0 + (acc.1 + Inlines(content, LineStart(buf, j) + markerLen)), lo, LineStop(buf, j))
  {
    LineOrder(buf, j);
    var nodes := Inlines(content, LineStart(buf, j) + markerLen);
    InlinesFollow(acc.0 + acc.1, lo, mid, content, LineStart(buf, j) + markerLen, LineStop(buf, j));
    assert acc.0 + acc.1 + nodes == acc.0 + (acc.1 + nodes);
  }


  /// After the quoted lines [k, e) the finished paragraphs and then the pending nodes lie
  /// in order between the first line's start and the end of the last line's range.
  lemma {:induction false} QuoteScanLaid(buf: seq<Byte>, k: nat, e: nat)
    requires k < LineCount(buf) && k <= e <= LineCount(buf)
    ensures var acc := QuoteScan(buf, k, e);
            Laid(acc.0 + acc.1, LineStart(buf, k), QuoteEnd(buf, k, e)) && AllParagraphs(acc.0)
    decreases e - k
  {
    if e > k {
      var j := e - 1;
      QuoteScanLaid(buf, k, j);
      if j > k {
        LineOrder(buf, j - 1);
      }
      QuoteLineLaid(buf, j, QuoteScan(buf, k, j), LineStart(buf, k), QuoteEnd(buf, k, j));
    }
  }

  /// A block quote's children are Paragraphs with children, they lie in order inside its
  /// span, and its span lies inside the buffer.
  lemma BlockQuoteWellSpanned(buf: seq<Byte>, k: nat)
    requires k < LineCount(buf)
    ensures var q := BlockQuoteAt(buf, k);
            && WellSpanned(q) && LineStart(buf, k) == q.span.start && q.span.end <= |buf|
            && AllParagraphs(q.children)
  {
    var e := QuoteStop(buf, k);
    var acc := QuoteScan(buf, k, e);
    var children := FlushParagraph(acc.0, acc.1).0;
    QuoteScanLaid(buf, k, e);
    FlushLaid(acc.0, acc.1, LineStart(buf, k), QuoteEnd(buf, k, e));
    FlushParagraphs(acc.0, acc.1);
    LaidBounds(children, LineStart(buf, k), QuoteEnd(buf, k, e));
    assert BlockQuoteAt(buf, k) == AstNode(BlockQuote, Span(LineStart(buf, k), QuoteEnd(buf, k, e)), children);
    if e > k {
      LineOrder(buf, e - 1);
    } else {
      LineOrder(buf, k);
    }
  }

  // ---------------------------------------------------------------------------
  // Blocks
  // ---------------------------------------------------------------------------

  /// `parse_block` at line `k`: a block quote when the line starts with `>`, a paragraph
  /// otherwise.
  function BlockAt(buf: seq<Byte>, k: nat): AstNode
    requires k < LineCount(buf)
  {
    if IsBlockQuoteLine(Line(buf, k)) then BlockQuoteAt(buf, k) else ParagraphAt(buf, k)
  }

  /// `parse_block` at line `k` as the program computes it: a paragraph takes the end as
  /// written.
  function BlockAsWritten(buf: seq<Byte>, k: nat): AstNode
    requires k < LineCount(buf)
  {
    if IsBlockQuoteLine(Line(buf, k)) then BlockQuoteAt(buf, k) else ParagraphAsWritten(buf, k)
  }

  /// The block as the program computes it has the kind, start and children of `BlockAt`
  /// and ends no later; the two are equal exactly on a block quote or a paragraph of at
  /// most one line.
  lemma AsWrittenBlock(buf: seq<Byte>, k: nat)
    requires k < LineCount(buf)
    ensures var b := BlockAsWritten(buf, k); var c := BlockAt(buf, k);
            && b.kind == c.kind && b.children == c.children
            && b.span.start == c.span.start <= b.span.end <= c.span.end
            && (b == c <==> IsBlockQuoteLine(Line(buf, k)) || ParaStop(buf, k) <= k + 1)
  {
    if IsBlockQuoteLine(Line(buf, k)) {
      BlockQuoteWellSpanned(buf, k);
    } else {
      AsWrittenParagraph(buf, k);
    }
  }

  /// The line on which the block at line `k` stops.
  function BlockStop(buf: seq<Byte>, k: nat): nat
    requires k < LineCount(buf)
  {
    if IsBlockQuoteLine(Line(buf, k)) then QuoteStop(buf, k) else ParaStop(buf, k)
  }

  /// A paragraph of one line holds that line's inline nodes and spans its text.
  lemma OneLineParagraph(buf: seq<Byte>, k: nat)
    requires k < LineCount(buf) && ParaStop(buf, k) == k + 1
    ensures var a := LineStart(buf, k);
            ParagraphAt(buf, k) == AstNode(Paragraph, Span(a, a + |Line(buf, k)|), Inlines(Line(buf, k), a))
  {
    var line := Line(buf, k);
    var a := LineStart(buf, k);
    ParaStep(buf, k, k, line, a, Inlines(line, a));
    assert [] + Inlines(line, a) == Inlines(line, a);
  }

  /// A line of plain text, not starting with `>`, with a blank line or the end of the
  /// buffer after it, is a block of its own: one Paragraph holding one PlainText node,
  /// both over the line's text.
  lemma PlainLineParagraph(buf: seq<Byte>, k: nat)
    requires k < LineCount(buf) && ParaStop(buf, k) == k + 1
    requires !IsBlockQuoteLine(Line(buf, k)) && NoMarkup(Line(buf, k))
    ensures var a := LineStart(buf, k); var b := a + |Line(buf, k)|;
            && BlockStop(buf, k) == k + 1
            && BlockAt(buf, k) == AstNode(Paragraph, Span(a, b), [Plain(a, b)])
  {
    assert |Line(buf, k)| > 0;
    OneLineParagraph(buf, k);
    PlainLine(Line(buf, k), LineStart(buf, k));
  }

  /// A block is a BlockQuote exactly when its first line starts with `>`, and a Paragraph
  /// otherwise; it starts at its first line, is well spanned, ends no later than where the
  /// line it stops on starts, and on a non-blank line it takes at least that line.
  lemma BlockShape(buf: seq<Byte>, k: nat)
    requires k < LineCount(buf)
    ensures var b := BlockAt(buf, k);
            && (b.kind == BlockQuote <==> IsBlockQuoteLine(Line(buf, k)))
            && (b.kind == Paragraph <==> !IsBlockQuoteLine(Line(buf, k)))
            && WellSpanned(b) && b.span.start == LineStart(buf, k) && b.span.end <= |buf|
    ensures k <= BlockStop(buf, k) <= LineCount(buf)
    ensures BlockAt(buf, k).span.end <= LinePos(buf, BlockStop(buf, k))
    ensures !IsBlank(Line(buf, k)) ==> BlockStop(buf, k) > k
  {
    if IsBlockQuoteLine(Line(buf, k)) {
      QuoteBlockShape(buf, k);
    } else {
      ParagraphBlockShape(buf, k);
    }
  }

  /// A line starting with `>` is never blank, and the block at it is the block quote, in
  /// the program's parse and the corrected one alike.
  lemma QuoteLineIsQuote(buf: seq<Byte>, k: nat)
    requires k < LineCount(buf) && IsBlockQuoteLine(Line(buf, k))
    ensures !IsBlank(Line(buf, k)) && BlockStop(buf, k) == QuoteStop(buf, k)
    ensures BlockAt(buf, k) == BlockAsWritten(buf, k) == BlockQuoteAt(buf, k)
  {
    PrintableStartNotBlank(Line(buf, k));
  }

  /// A block quote takes at least its first line and ends no later than where the line
  /// after it starts.
  lemma QuoteBlockShape(buf: seq<Byte>, k: nat)
    requires k < LineCount(buf) && IsBlockQuoteLine(Line(buf, k))
    ensures var q := BlockQuoteAt(buf, k);
            && WellSpanned(q) && q.span.start == LineStart(buf, k) && q.span.end <= |buf|
            && k < QuoteStop(buf, k) && q.span.end <= LinePos(buf, QuoteStop(buf, k))
  {
    BlockQuoteWellSpanned(buf, k);
    var e := QuoteStop(buf, k);
    assert e > k;
    LineOrder(buf, e - 1);
  }

  /// The content of quoted line `j` parsed as plain text: one PlainText node over the
  /// bytes after the marker.
  function QuotedPlain(buf: seq<Byte>, j: nat): AstNode
    requires j < LineCount(buf)
  {
    var m := StripBlockQuoteMarker(Line(buf, j));
    Plain(LineStart(buf, j) + m.1, LineStart(buf, j) + m.1 + |m.0|)
  }

  /// The node over quoted line `j`'s content covers exactly the bytes after the marker.
  lemma QuotedPlainText(buf: seq<Byte>, j: nat)
    requires j < LineCount(buf)
    ensures var p := QuotedPlain(buf, j);
            p.span.start <= p.span.end <= |buf| && buf[p.span.start..p.span.end] == StripBlockQuoteMarker(Line(buf, j)).0
  {
    LineHasNoLf(buf, j);
    LineOrder(buf, j);
    var line := Line(buf, j);
    var a := LineStart(buf, j);
    var m := StripBlockQuoteMarker(line);
    assert buf[a..a + |line|] == line;
    assert buf[a + m.1..a + |line|] == buf[a..a + |line|][m.1..];
  }

  /// Line `j` starts with `>`, and what follows the marker is text without markup that
  /// is not blank.
  predicate PlainQuoted(buf: seq<Byte>, j: nat)
    requires j < LineCount(buf)
  {
    var m := StripBlockQuoteMarker(Line(buf, j));
    IsBlockQuoteLine(Line(buf, j)) && !IsBlank(m.0) && NoMarkup(m.0)
  }

  /// A quoted line of plain text adds one PlainText node over its content to the pending
  /// nodes.
  lemma PlainQuotedLine(buf: seq<Byte>, j: nat, acc: (seq<AstNode>, seq<AstNode>))
    requires j < LineCount(buf) && PlainQuoted(buf, j)
    ensures QuoteLine(buf, j, acc) == (acc.0, acc.1 + [QuotedPlain(buf, j)])
  {
    var m := StripBlockQuoteMarker(Line(buf, j));
    PlainLine(m.0, LineStart(buf, j) + m.1);
  }

  /// Scanning one more quoted line of plain text adds its PlainText node to the pending
  /// nodes.
  lemma PlainQuotedStep(buf: seq<Byte>, k: nat, e: nat, acc: (seq<AstNode>, seq<AstNode>))
    requires k <= e < LineCount(buf) && PlainQuoted(buf, e) && QuoteScan(buf, k, e) == acc
    ensures QuoteScan(buf, k, e + 1) == (acc.0, acc.1 + [QuotedPlain(buf, e)])
  {
    assert QuoteScan(buf, k, e + 1) == QuoteLine(buf, e, acc);
    PlainQuotedLine(buf, e, acc);
  }

  /// Scanning one more quoted line that is blank after its marker flushes the pending
  /// nodes.
  lemma BlankQuotedStep(buf: seq<Byte>, k: nat, e: nat, acc: (seq<AstNode>, seq<AstNode>))
    requires k <= e < LineCount(buf) && IsBlank(StripBlockQuoteMarker(Line(buf, e)).0)
    requires QuoteScan(buf, k, e) == acc
    ensures QuoteScan(buf, k, e + 1) == FlushParagraph(acc.0, acc.1)
  {
    assert QuoteScan(buf, k, e + 1) == QuoteLine(buf, e, acc);
  }

  /// The quoted lines [k, k + 5) of `QuoteOfTwoParagraphs` leave one finished paragraph
  /// of the first three lines and the last line's node pending.
  lemma TwoParagraphScan(buf: seq<Byte>, k: nat)
    requires k + 5 <= LineCount(buf)
    requires PlainQuoted(buf, k) && PlainQuoted(buf, k + 1) && PlainQuoted(buf, k + 2) && PlainQuoted(buf, k + 4)
    requires IsBlank(StripBlockQuoteMarker(Line(buf, k + 3)).0)
    ensures var p0, p2 := QuotedPlain(buf, k), QuotedPlain(buf, k + 2);
            QuoteScan(buf, k, k + 5)
              == ([AstNode(Paragraph, Span(p0.span.start, p2.span.end), [p0, QuotedPlain(buf, k + 1), p2])],
                  [QuotedPlain(buf, k + 4)])
  {
    var p0 := QuotedPlain(buf, k);
    var p1 := QuotedPlain(buf, k + 1);
    var p2 := QuotedPlain(buf, k + 2);
    var a0: seq<AstNode> := [];
    var a1, a2, a3 := a0 + [p0], a0 + [p0] + [p1], a0 + [p0] + [p1] + [p2];
    PlainQuotedStep(buf, k, k, (a0, a0));
    PlainQuotedStep(buf, k, k + 1, (a0, a1));
    PlainQuotedStep(buf, k, k + 2, (a0, a2));
    BlankQuotedStep(buf, k, k + 3, (a0, a3));
    assert a3 == [p0, p1, p2];
    var para := AstNode(Paragraph, Span(p0.span.start, p2.span.end), [p0, p1, p2]);
    var p4 := QuotedPlain(buf, k + 4);
    PlainQuotedStep(buf, k, k + 4, (a0 + [para], a0));
    assert a0 + [para] == [para] && a0 + [p4] == [p4];
  }

  /// Three quoted lines of plain text, a quoted line blank after its marker, one more
  /// quoted line of plain text, and the end of the quote: a block quote of two
  /// paragraphs, the first holding the first three lines' PlainText nodes and spanning
  /// from the first one's start to the third one's end, the second holding the last
  /// line's PlainText node and spanning it.
  lemma QuoteOfTwoParagraphs(buf: seq<Byte>, k: nat)
    requires k + 5 <= LineCount(buf)
    requires PlainQuoted(buf, k) && PlainQuoted(buf, k + 1) && PlainQuoted(buf, k + 2) && PlainQuoted(buf, k + 4)
    requires IsBlockQuoteLine(Line(buf, k + 3)) && IsBlank(StripBlockQuoteMarker(Line(buf, k + 3)).0)
    requires k + 5 == LineCount(buf) || !IsBlockQuoteLine(Line(buf, k + 5))
    ensures var first := [QuotedPlain(buf, k), QuotedPlain(buf, k + 1), QuotedPlain(buf, k + 2)];
            var q := BlockAt(buf, k);
            && q.kind == BlockQuote
            && q.children == [AstNode(Paragraph, Span(first[0].span.start, first[2].span.end), first),
                              AstNode(Paragraph, QuotedPlain(buf, k + 4).span, [QuotedPlain(buf, k + 4)])]
  {
    assert QuoteStop(buf, k) == k + 5 by {
      assert QuoteStop(buf, k + 5) == k + 5;
      assert QuoteStop(buf, k + 3) == QuoteStop(buf, k + 4) == k + 5;
      assert QuoteStop(buf, k + 1) == QuoteStop(buf, k + 2) == k + 5;
    }
    TwoParagraphScan(buf, k);
  }

  /// A paragraph takes at least its first line when that line is not blank, and ends no
  /// later than where the line it stops on starts.
  lemma ParagraphBlockShape(buf: seq<Byte>, k: nat)
    requires k < LineCount(buf)
    ensures var p := ParagraphAt(buf, k);
            && WellSpanned(p) && p.span.start == LineStart(buf, k) && p.span.end <= |buf|
            && p.span.end <= LinePos(buf, ParaStop(buf, k))
            && (!IsBlank(Line(buf, k)) ==> ParaStop(buf, k) > k)
  {
    ParagraphWellSpanned(buf, k);
    var e := ParaStop(buf, k);
    if e > k {
      LineOrder(buf, e - 1);
    }
  }

  // ---------------------------------------------------------------------------
  // The block parsers over the line context
  // ---------------------------------------------------------------------------

  /// The work of one iteration of `parse_paragraph`'s loop on the current line: its inline
  /// nodes, parsed at its start, extend the paragraph's nodes, and its length is added to
  /// the paragraph's end.
  method ParagraphLine(ctx: Context, ghost k: nat, end0: nat) returns (nodes: seq<AstNode>, end: nat)
    requires ctx.Valid() && !ctx.IsEof() && !IsBlank(ctx.CurrentLine())
    requires k <= ctx.curLinePosition <= ParaStop(ctx.buf, k)
    requires end0 == ParagraphEndAsWritten(ctx.buf, k, ctx.curLinePosition)
    ensures ctx.curLinePosition < ParaStop(ctx.buf, k)
    ensures ParaInlines(ctx.buf, k, ctx.curLinePosition + 1) == ParaInlines(ctx.buf, k, ctx.curLinePosition) + nodes
    ensures end == ParagraphEndAsWritten(ctx.buf, k, ctx.curLinePosition + 1)
  {
    var offset := ctx.lineRange[ctx.curLinePosition].start;
    var line := ctx.CurrentLine();
    nodes := ParseInline(line, offset);
    end := end0 + |ctx.CurrentLine()|;
    ParaStep(ctx.buf, k, ctx.curLinePosition, line, offset, nodes);
    ParaStopAfter(ctx.buf, k, ctx.curLinePosition);
  }

  /// `parse_paragraph`: consume lines up to the first blank line or the end, parsing each
  /// one's inline nodes at its start. The end is the first line's start plus the lines'
  /// lengths, the end as written.
  method ParseParagraph(ctx: Context) returns (node: AstNode)
    requires ctx.Valid() && !ctx.IsEof()
    modifies ctx
    ensures ctx.Valid()
    ensures node == ParagraphAsWritten(ctx.buf, old(ctx.curLinePosition))
    ensures ctx.curLinePosition == ParaStop(ctx.buf, old(ctx.curLinePosition))
  {
    var k := ctx.curLinePosition;
    var children: seq<AstNode> := [];
    var start := ctx.lineRange[k].start;
    var end := start;
    while !ctx.IsEof() && !IsBlank(ctx.CurrentLine())
      invariant ctx.Valid() && k <= ctx.curLinePosition <= ParaStop(ctx.buf, k)
      invariant children == ParaInlines(ctx.buf, k, ctx.curLinePosition)
      invariant end == ParagraphEndAsWritten(ctx.buf, k, ctx.curLinePosition)
      decreases |ctx.lineRange| - ctx.curLinePosition
    {
      var nodes;
      nodes, end := ParagraphLine(ctx, k, end);
      children := children + nodes;
      ctx.Advance();
    }
    ParaStopAt(ctx.buf, k, ctx.curLinePosition);
    node := AstNode(Paragraph, Span(start, end), children);
  }

  /// The work of one iteration of `parse_block_quote`'s loop on a line starting with `>`:
  /// strip the marker, flush the pending nodes on a blank content or add the content's
  /// inline nodes, parsed just past the marker, and take the end of the line's range.
  method BlockQuoteLine(ctx: Context, ghost k: nat, children: seq<AstNode>, para: seq<AstNode>)
    returns (nextChildren: seq<AstNode>, nextPara: seq<AstNode>, end: nat)
    requires ctx.Valid() && !ctx.IsEof() && IsBlockQuoteLine(ctx.CurrentLine())
    requires k <= ctx.curLinePosition <= QuoteStop(ctx.buf, k)
    requires children == QuoteScan(ctx.buf, k, ctx.curLinePosition).0
    requires para == QuoteScan(ctx.buf, k, ctx.curLinePosition).1
    ensures ctx.curLinePosition < QuoteStop(ctx.buf, k)
    ensures (nextChildren, nextPara) == QuoteScan(ctx.buf, k, ctx.curLinePosition + 1)
    ensures end == QuoteEnd(ctx.buf, k, ctx.curLinePosition + 1)
  {
    QuoteStep(ctx.buf, k, ctx.curLinePosition);
    QuoteStopAfter(ctx.buf, k, ctx.curLinePosition);
    var lineIdx := ctx.curLinePosition;
    var lineStart := ctx.lineRange[lineIdx].start;
    var lineEnd := ctx.lineRange[lineIdx].end;
    var line := ctx.CurrentLine();
    var stripped := StripBlockQuoteMarker(line);
    var content, markerLen := stripped.0, stripped.1;
    var contentOffset := lineStart + markerLen;
    if IsBlank(content) {
      var flushed := FlushParagraph(children, para);
      nextChildren, nextPara := flushed.0, flushed.1;
    } else {
      var nodes := ParseInline(content, contentOffset);
      nextChildren, nextPara := children, para + nodes;
    }
    end := lineEnd;
  }

  /// A block quote stops at the first line at or after its start that does not start with
  /// `>` or is past the end.
  lemma QuoteStopAt(buf: seq<Byte>, k: nat, p: nat)
    requires k <= p <= LineCount(buf) && p <= QuoteStop(buf, k)
    requires p == LineCount(buf) || !IsBlockQuoteLine(Line(buf, p))
    ensures p == QuoteStop(buf, k)
  {
  }

  /// A line starting with `>` at or before a block quote's stop lies before it.
  lemma QuoteStopAfter(buf: seq<Byte>, k: nat, p: nat)
    requires p < LineCount(buf) && k <= p <= QuoteStop(buf, k) && IsBlockQuoteLine(Line(buf, p))
    ensures p < QuoteStop(buf, k)
  {
  }

  /// One more quoted line: the scan takes it in, and the end of its range is the new end.
  lemma QuoteStep(buf: seq<Byte>, k: nat, p: nat)
    requires k <= p < LineCount(buf)
    ensures QuoteScan(buf, k, p + 1) == QuoteLine(buf, p, QuoteScan(buf, k, p))
    ensures QuoteEnd(buf, k, p + 1) == LineStop(buf, p)
  {
  }

  /// `parse_block_quote`: consume the lines starting with `>`; a line blank after its
  /// marker flushes the pending paragraph, any other adds its inline nodes to it.
  method ParseBlockQuote(ctx: Context) returns (node: AstNode)
    requires ctx.Valid() && !ctx.IsEof()
    modifies ctx
    ensures ctx.Valid()
    ensures node == BlockQuoteAt(ctx.buf, old(ctx.curLinePosition))
    ensures ctx.curLinePosition == QuoteStop(ctx.buf, old(ctx.curLinePosition))
  {
    var k := ctx.curLinePosition;
    var start := ctx.lineRange[k].start;
    var end := start;
    var children: seq<AstNode> := [];
    var para: seq<AstNode> := [];
    while !ctx.IsEof()
      invariant ctx.Valid() && k <= ctx.curLinePosition <= QuoteStop(ctx.buf, k)
      invariant children == QuoteScan(ctx.buf, k, ctx.curLinePosition).0
      invariant para == QuoteScan(ctx.buf, k, ctx.curLinePosition).1
      invariant end == QuoteEnd(ctx.buf, k, ctx.curLinePosition)
      decreases |ctx.lineRange| - ctx.curLinePosition
    {
      if !IsBlockQuoteLine(ctx.CurrentLine()) {
        break;
      }
      children, para, end := BlockQuoteLine(ctx, k, children, para);
      ctx.Advance();
    }
    QuoteStopAt(ctx.buf, k, ctx.curLinePosition);
    var flushed := FlushParagraph(children, para);
    children := flushed.0;
    node := AstNode(BlockQuote, Span(start, end), children);
  }

  /// `parse_block`: a block quote on a line starting with `>`, a paragraph otherwise.
  method ParseBlock(ctx: Context) returns (node: AstNode)
    requires ctx.Valid() && !ctx.IsEof()
    modifies ctx
    ensures ctx.Valid()
    ensures node == BlockAsWritten(ctx.buf, old(ctx.curLinePosition))
    ensures ctx.curLinePosition == BlockStop(ctx.buf, old(ctx.curLinePosition))
  {
    if IsBlockQuoteLine(ctx.CurrentLine()) {
      node := ParseBlockQuote(ctx);
    } else {
      node := ParseParagraph(ctx);
    }
  }
}
