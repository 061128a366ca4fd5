/// The HTML renderer (src/render.rs): a structural walk of the tree. Only Document,
/// Paragraph and PlainText have arms of their own; every other kind renders its children
/// with no tag. Output is the bytes of the produced `String`; `None` stands for the panic
/// of `Span::as_str` on a span that is out of bounds or cuts through a UTF-8 character.
module Render {
  import opened Ast
  import opened LineContext
  import opened Inline
  import opened Block
  import opened Parser

  const LT: Byte := 0x3C     // '<'
  const SLASH: Byte := 0x2F  // '/'

  /// The tag name of a paragraph, "p".
  const TAG_P: seq<Byte> := [0x70]

  /// `"<" + tag + ">"`.
  function OpenTag(tag: seq<Byte>): seq<Byte>
  {
    [LT] + tag + [GT]
  }

  /// `"</" + tag + ">"`.
  function CloseTag(tag: seq<Byte>): seq<Byte>
  {
    [LT, SLASH] + tag + [GT]
  }

  /// The tags around an ASCII name are ASCII, hence well-formed UTF-8.
  lemma TagsAreUtf8(tag: seq<Byte>)
    requires IsAscii(tag)
    ensures ValidUtf8(OpenTag(tag)) && ValidUtf8(CloseTag(tag))
  {
    var o := OpenTag(tag);
    var c := CloseTag(tag);
    assert forall i :: 0 <= i < |tag| ==> o[i + 1] == tag[i] && c[i + 2] == tag[i];
    AsciiIsUtf8(o);
    AsciiIsUtf8(c);
  }

  // ---------------------------------------------------------------------------
  // UTF-8 is closed under concatenation
  // ---------------------------------------------------------------------------

  /// The first character of `s` is also the first character of `s + t`.
  lemma CharLenPrefix(s: seq<Byte>, t: seq<Byte>)
    requires CharLen(s) > 0
    ensures CharLen(s + t) == CharLen(s)
  {
    var k := CharLen(s);
    assert forall i :: 0 <= i < |s| ==> (s + t)[i] == s[i];
    if k >= 2 { assert (s + t)[1] == s[1]; }
    if k >= 3 { assert (s + t)[2] == s[2]; }
    if k >= 4 { assert (s + t)[3] == s[3]; }
  }

  /// Two well-formed UTF-8 texts, one after the other, are well-formed UTF-8.
  lemma {:induction false} Utf8Concat(s: seq<Byte>, t: seq<Byte>)
    requires ValidUtf8(s) && ValidUtf8(t)
    ensures ValidUtf8(s + t)
    decreases |s|
  {
    if |s| == 0 {
      assert s + t == t;
    } else {
      var k := CharLen(s);
      CharLenPrefix(s, t);
      assert (s + t)[k..] == s[k..] + t;
      Utf8Concat(s[k..], t);
    }
  }

  // ---------------------------------------------------------------------------
  // convert_ast_to_html, render_children, wrap_with_tag
  // ---------------------------------------------------------------------------

  /// Rendering does not panic: every PlainText node of the tree covers a slice of `src`
  /// that `as_str` accepts. The children of a PlainText node are never rendered.
  predicate Renderable(node: AstNode, src: seq<Byte>)
    decreases node
  {
    if node.kind == PlainText then ValidSlice(node.span, src)
    else forall i :: 0 <= i < |node.children| ==> Renderable(node.children[i], src)
  }

  /// `convert_ast_to_html`: a Document is the concatenation of its children, a Paragraph
  /// is wrapped in `<p>`, a PlainText node is its span's source text (no escaping), and
  /// any other kind is its children. The result is absent exactly when the walk reaches
  /// a PlainText span `as_str` rejects, and is well-formed UTF-8 otherwise.
  function Html(node: AstNode, src: seq<Byte>): (r: Option<seq<Byte>>)
    ensures r.Some? <==> Renderable(node, src)
    ensures r.Some? ==> ValidUtf8(r.value)
    decreases node, 1, 0
  {
    match node.kind
    case Document => ChildrenHtml(node, 0, src)
    case Paragraph => WrapWithTag(TAG_P, node, src)
    case PlainText => if ValidSlice(node.span, src) then Some(AsStr(node.span, src)) else None
    case _ => ChildrenHtml(node, 0, src)
  }

  /// `render_children` (and the Document arm, which is the same iteration): the
  /// renderings of the children from index `i` on, in order and with nothing between.
  function ChildrenHtml(node: AstNode, i: nat, src: seq<Byte>): (r: Option<seq<Byte>>)
    requires i <= |node.children|
    ensures r.Some? <==> forall j :: i <= j < |node.children| ==> Renderable(node.children[j], src)
    ensures r.Some? ==> ValidUtf8(r.value)
    decreases node, 0, |node.children| - i
  {
    if i == |node.children| then Some([])
    else
      var head := Html(node.children[i], src);
      var tail := ChildrenHtml(node, i + 1, src);
      if head.Some? && tail.Some? then
        Utf8Concat(head.value, tail.value);
        Some(head.value + tail.value)
      else None
  }

  /// `wrap_with_tag`: the children's rendering between `<tag>` and `</tag>`.
  function WrapWithTag(tag: seq<Byte>, node: AstNode, src: seq<Byte>): (r: Option<seq<Byte>>)
    requires IsAscii(tag)
    ensures r.Some? <==> forall j :: 0 <= j < |node.children| ==> Renderable(node.children[j], src)
    ensures r.Some? ==> ValidUtf8(r.value)
    decreases node, 0, |node.children| + 1
  {
    var body := ChildrenHtml(node, 0, src);
    if body.Some? then
      TagsAreUtf8(tag);
      Utf8Concat(OpenTag(tag), body.value);
      Utf8Concat(OpenTag(tag) + body.value, CloseTag(tag));
      Some(OpenTag(tag) + body.value + CloseTag(tag))
    else None
  }

  // ---------------------------------------------------------------------------
  // What a rendering is made of
  // ---------------------------------------------------------------------------

  /// The text of a tree: the source text of its PlainText nodes, in document order.
  function Text(node: AstNode, src: seq<Byte>): seq<Byte>
    requires Renderable(node, src)
    decreases node, 1, 0
  {
    if node.kind == PlainText then AsStr(node.span, src) else ChildrenText(node, 0, src)
  }

  /// The text of the children from index `i` on.
  function ChildrenText(node: AstNode, i: nat, src: seq<Byte>): seq<Byte>
    requires i <= |node.children| && node.kind != PlainText && Renderable(node, src)
    decreases node, 0, |node.children| - i
  {
    if i == |node.children| then [] else Text(node.children[i], src) + ChildrenText(node, i + 1, src)
  }

  /// The tree holds no Paragraph outside PlainText leaves, whose children are never rendered.
  predicate NoParagraph(node: AstNode)
    decreases node
  {
    node.kind != Paragraph
    && (node.kind != PlainText ==> forall i :: 0 <= i < |node.children| ==> NoParagraph(node.children[i]))
  }

  /// Without paragraphs a tree renders to its text and nothing else: Document and all the
  /// kinds of the default arm add no markup, and PlainText is copied unescaped.
  lemma {:induction false} NoParagraphRendersText(node: AstNode, src: seq<Byte>)
    requires NoParagraph(node) && Renderable(node, src)
    ensures Html(node, src) == Some(Text(node, src))
    decreases node, 1, 0
  {
    if node.kind != PlainText {
      NoParagraphChildren(node, 0, src);
    }
  }

  /// The children from `i` on render to their text.
  lemma {:induction false} NoParagraphChildren(node: AstNode, i: nat, src: seq<Byte>)
    requires i <= |node.children| && node.kind != PlainText
    requires NoParagraph(node) && Renderable(node, src)
    ensures ChildrenHtml(node, i, src) == Some(ChildrenText(node, i, src))
    decreases node, 0, |node.children| - i
  {
    if i < |node.children| {
      NoParagraphRendersText(node.children[i], src);
      NoParagraphChildren(node, i + 1, src);
    }
  }

  /// A Paragraph is `<p>`, the rendering of its children, `</p>`; a childless node of the
  /// default arm (Code, MathInline and MathDisplay as the parser builds them) renders as
  /// the empty text.
  lemma ParagraphAndLeafShapes(node: AstNode, src: seq<Byte>)
    requires Renderable(node, src)
    ensures node.kind == Paragraph ==>
              Html(node, src) == Some(OpenTag(TAG_P) + ChildrenHtml(node, 0, src).value + CloseTag(TAG_P))
    ensures node.kind != Paragraph && node.kind != PlainText && node.children == [] ==> Html(node, src) == Some([])
  {
  }

  /// A Paragraph holding one PlainText node renders as `<p>`, that node's text, `</p>`.
  lemma ParagraphOfPlain(a: nat, b: nat, s: nat, e: nat, src: seq<Byte>)
    requires ValidSlice(Span(s, e), src)
    ensures Html(AstNode(Paragraph, Span(a, b), [Plain(s, e)]), src)
              == Some(OpenTag(TAG_P) + src[s..e] + CloseTag(TAG_P))
  {
    var p := AstNode(Paragraph, Span(a, b), [Plain(s, e)]);
    assert Html(Plain(s, e), src) == Some(src[s..e]);
    assert ChildrenHtml(p, 1, src) == Some([]);
    assert src[s..e] + [] == src[s..e];
    assert ChildrenHtml(p, 0, src) == Some(src[s..e]);
    assert Html(p, src) == WrapWithTag(TAG_P, p, src);
  }

  // ---------------------------------------------------------------------------
  // Rendering what the parser builds
  // ---------------------------------------------------------------------------

  /// Every well-spanned tree inside an ASCII text renders: each of its spans lies in the
  /// text, and every slice of ASCII text is well-formed UTF-8.
  lemma {:induction false} SpannedAsciiRenderable(node: AstNode, src: seq<Byte>)
    requires IsAscii(src) && WellSpanned(node) && node.span.end <= |src|
    ensures Renderable(node, src)
    decreases node
  {
    if node.kind == PlainText {
      var t := src[node.span.start..node.span.end];
      assert IsAscii(t) by {
        forall i | 0 <= i < |t| ensures t[i] < 0x80 {
          assert t[i] == src[node.span.start + i];
        }
      }
      AsciiIsUtf8(t);
    } else {
      LaidBounds(node.children, node.span.start, node.span.end);
      forall i | 0 <= i < |node.children| ensures Renderable(node.children[i], src) {
        SpannedAsciiRenderable(node.children[i], src);
      }
    }
  }

  /// Two nodes with the same children render their children alike.
  lemma {:induction false} SameChildrenHtml(x: AstNode, y: AstNode, i: nat, src: seq<Byte>)
    requires x.children == y.children && i <= |x.children|
    ensures ChildrenHtml(x, i, src) == ChildrenHtml(y, i, src)
    decreases |x.children| - i
  {
    if i < |x.children| {
      SameChildrenHtml(x, y, i + 1, src);
    }
  }

  /// The rendering of a node other than PlainText does not depend on its span.
  lemma SpanIgnored(x: AstNode, y: AstNode, src: seq<Byte>)
    requires x.kind == y.kind && x.kind != PlainText && x.children == y.children
    ensures Html(x, src) == Html(y, src)
  {
    SameChildrenHtml(x, y, 0, src);
  }

  /// Documents whose blocks agree but for ends, none of them PlainText, render alike
  /// from child `i` on.
  lemma {:induction false} SameButEndsHtml(x: AstNode, y: AstNode, i: nat, src: seq<Byte>)
    requires SameButEnds(x.children, y.children) && i <= |x.children|
    requires forall j :: 0 <= j < |x.children| ==> x.children[j].kind != PlainText
    ensures ChildrenHtml(x, i, src) == ChildrenHtml(y, i, src)
    decreases |x.children| - i
  {
    if i < |x.children| {
      SameButEndsHtml(x, y, i + 1, src);
      SpanIgnored(x.children[i], y.children[i], src);
    }
  }

  /// The Document the program builds renders exactly as the one with the corrected
  /// paragraph ends: the renderer reads only the spans of PlainText nodes.
  lemma AsWrittenHtml(content: seq<Byte>, src: seq<Byte>)
    ensures Html(DocumentAsWritten(content), src) == Html(DocumentOf(content), src)
  {
    DocumentAsWrittenMatches(content);
    SameButEndsHtml(DocumentAsWritten(content), DocumentOf(content), 0, src);
  }

  /// The document parsed from an ASCII text renders against that same text (as the site
  /// generator calls the renderer), whatever its line endings.
  lemma ParsedAsciiRenders(content: seq<Byte>)
    requires IsAscii(content)
    ensures Html(DocumentAsWritten(content), content).Some?
    ensures Html(DocumentOf(content), content).Some?
  {
    DocumentWellSpanned(content);
    SpannedAsciiRenderable(DocumentOf(content), content);
    AsWrittenHtml(content, content);
  }

  /// The page the site generator writes (src/main.rs:24-26): the Document parsed from the
  /// file's text, rendered against that text as read. The spans index the normalized
  /// buffer, so after a CR LF pair they point before the bytes they were parsed from.
  function PageAsWritten(content: seq<Byte>): Option<seq<Byte>>
  {
    Html(DocumentAsWritten(content), content)
  }

  /// The page rendered against the buffer its spans index: the normalized text.
  function Page(content: seq<Byte>): Option<seq<Byte>>
  {
    Html(DocumentAsWritten(content), NormalizeNewlines(content))
  }

  /// Every ASCII text's page renders, whatever its line endings; for a text without CR it
  /// is the page the site generator writes.
  lemma PageRenders(content: seq<Byte>)
    requires IsAscii(content)
    ensures Page(content).Some?
    ensures CR !in content ==> Page(content) == PageAsWritten(content)
  {
    var buf := NormalizeNewlines(content);
    NormalizeKeepsAscii(content);
    NormalizeIdempotent(content);
    DocumentWellSpanned(buf);
    SpannedAsciiRenderable(DocumentOf(buf), buf);
    SpanIgnored(DocumentOf(content), DocumentOf(buf), buf);
    AsWrittenHtml(content, buf);
    if CR !in content {
      NormalizeKeepsCrFree(content);
    }
  }

  /// "a\r\n\r\nb", rendered against the normalized "a\n\nb": `<p>a</p><p>b</p>`.
  lemma CrLfPage(content: seq<Byte>)
    requires IsACrLfB(content)
    ensures Page(content)
              == Some(OpenTag(TAG_P) + [0x61] + CloseTag(TAG_P) + OpenTag(TAG_P) + [0x62] + CloseTag(TAG_P))
  {
    ACrLfBBlocks(content);
    var buf := NormalizeNewlines(content);
    assert buf[0..1] == [0x61] && buf[3..4] == [0x62];
    AsciiIsUtf8(buf[0..1]);
    AsciiIsUtf8(buf[3..4]);
    TwoParagraphsHtml(0, 1, 3, 4, Span(0, 6), buf);
  }

  /// "a\r\n\r\nb" as the site generator renders it: the second paragraph's span [3, 4)
  /// is read from the text as written, where byte 3 is the CR of the second pair, so the
  /// page shows `<p>a</p><p>` CR `</p>` instead of the corrected page.
  lemma CrLfShifted(content: seq<Byte>)
    requires IsACrLfB(content)
    ensures PageAsWritten(content)
              == Some(OpenTag(TAG_P) + [0x61] + CloseTag(TAG_P) + OpenTag(TAG_P) + [CR] + CloseTag(TAG_P))
    ensures PageAsWritten(content) != Page(content)
  {
    ACrLfBBlocks(content);
    assert content[0..1] == [0x61] && content[3..4] == [CR];
    AsciiIsUtf8(content[0..1]);
    AsciiIsUtf8(content[3..4]);
    TwoParagraphsHtml(0, 1, 3, 4, Span(0, 6), content);
    CrLfPage(content);
    LastParagraphDiffers(OpenTag(TAG_P) + [0x61] + CloseTag(TAG_P), CR, 0x62);
  }

  /// Two pages that differ in the one byte of their last paragraph are different pages.
  lemma LastParagraphDiffers(before: seq<Byte>, u: Byte, v: Byte)
    requires u != v
    ensures before + OpenTag(TAG_P) + [u] + CloseTag(TAG_P) != before + OpenTag(TAG_P) + [v] + CloseTag(TAG_P)
  {
    var i := |before| + |OpenTag(TAG_P)|;
    assert (before + OpenTag(TAG_P) + [u] + CloseTag(TAG_P))[i] == u;
    assert (before + OpenTag(TAG_P) + [v] + CloseTag(TAG_P))[i] == v;
  }

  /// A Document of two blocks renders as the first block's HTML followed by the second's.
  lemma TwoBlocksHtml(first: AstNode, second: AstNode, sp: Span, src: seq<Byte>)
    requires Html(first, src).Some? && Html(second, src).Some?
    ensures Html(AstNode(Document, sp, [first, second]), src)
              == Some(Html(first, src).value + Html(second, src).value)
  {
    var doc := AstNode(Document, sp, [first, second]);
    var h2 := Html(second, src).value;
    assert ChildrenHtml(doc, 2, src) == Some([]);
    assert h2 + [] == h2;
    assert ChildrenHtml(doc, 1, src) == Some(h2);
  }

  /// A Document of two one-node paragraphs renders as the two texts, each in `<p>`.
  lemma TwoParagraphsHtml(a: nat, b: nat, c: nat, d: nat, sp: Span, src: seq<Byte>)
    requires ValidSlice(Span(a, b), src) && ValidSlice(Span(c, d), src)
    ensures Html(AstNode(Document, sp, [AstNode(Paragraph, Span(a, b), [Plain(a, b)]),
                                        AstNode(Paragraph, Span(c, d), [Plain(c, d)])]), src)
              == Some(OpenTag(TAG_P) + src[a..b] + CloseTag(TAG_P) + OpenTag(TAG_P) + src[c..d] + CloseTag(TAG_P))
  {
    ParagraphOfPlain(a, b, a, b, src);
    ParagraphOfPlain(c, d, c, d, src);
    TwoBlocksHtml(AstNode(Paragraph, Span(a, b), [Plain(a, b)]), AstNode(Paragraph, Span(c, d), [Plain(c, d)]), sp, src);
    var p1 := OpenTag(TAG_P) + src[a..b] + CloseTag(TAG_P);
    var p2 := OpenTag(TAG_P) + src[c..d] + CloseTag(TAG_P);
    assert p1 + p2 == OpenTag(TAG_P) + src[a..b] + CloseTag(TAG_P) + OpenTag(TAG_P) + src[c..d] + CloseTag(TAG_P);
  }

  /// The words of "first\n\nsecond\n" are ASCII, so `as_str` accepts them.
  lemma FirstSecondSlices(content: seq<Byte>)
    requires IsFirstSecond(content)
    ensures ValidSlice(Span(0, 5), content) && ValidSlice(Span(7, 13), content)
  {
    assert IsAscii(content[0..5]) && IsAscii(content[7..13]);
    AsciiIsUtf8(content[0..5]);
    AsciiIsUtf8(content[7..13]);
  }

  /// `multiple_blocks`, rendered: "first\n\nsecond\n" becomes `<p>first</p><p>second</p>`.
  lemma MultipleBlocksHtml(content: seq<Byte>)
    requires IsFirstSecond(content)
    ensures Html(DocumentAsWritten(content), content)
              == Some(OpenTag(TAG_P) + content[0..5] + CloseTag(TAG_P) + OpenTag(TAG_P) + content[7..13] + CloseTag(TAG_P))
  {
    MultipleBlocks(content);
    FirstSecondSlices(content);
    TwoParagraphsHtml(0, 5, 7, 13, Span(0, 14), content);
  }

  /// A single line of plain text with no markup, no line break and no `>` in front is
  /// rendered as one paragraph holding exactly that text: `<p>` + text + `</p>`.
  lemma PlainLineHtml(content: seq<Byte>)
    requires !IsBlank(content) && !IsBlockQuoteLine(content) && NoMarkup(content) && ValidUtf8(content)
    requires LF !in content && CR !in content
    ensures Html(DocumentAsWritten(content), content) == Some(OpenTag(TAG_P) + content + CloseTag(TAG_P))
  {
    PlainLineDocument(content);
    var para := AstNode(Paragraph, Span(0, |content|), [Plain(0, |content|)]);
    var doc := AstNode(Document, Span(0, |content|), [para]);
    assert content[0..|content|] == content;
    ParagraphOfPlain(0, |content|, 0, |content|, content);
    var html := OpenTag(TAG_P) + content + CloseTag(TAG_P);
    assert ChildrenHtml(doc, 1, content) == Some([]);
    assert html + [] == html;
  }
}
