/// The syntax tree shared by the parser and the renderer (src/ast.rs).
/// Nodes address the source text by byte offsets instead of copying it.
module Ast {

  /// One byte of UTF-8 encoded text.
  type Byte = b: int | 0 <= b < 256

  /// An unsigned 8-bit number (the heading level of the reserved Heading kind).
  type U8 = b: int | 0 <= b < 256

  datatype Option<T> = None | Some(value: T)

  /// A half-open byte range [start, end) into the source buffer.
  datatype Span = Span(start: nat, end: nat)

  datatype ListKind = Bullet | Ordered

  datatype Align = AlignLeft | AlignCenter | AlignRight | AlignNone

  /// The node kinds. Only Document, Paragraph, BlockQuote, PlainText, Emph, Strong, Code,
  /// Link, Image, Sub, Sup, Insert, Delete, Mark, MathInline and MathDisplay are built by
  /// the parser; the other kinds are reserved and reach only the renderer's default arm.
  datatype AstKind =
    | Document
    | Paragraph
    | Heading(level: U8)
    | BlockQuote
    | List(listKind: ListKind)
    | ListItem
    | CodeBlock(fence: nat, lang: Option<string>, rawFormat: Option<string>)
    | Div
    | Table(aligns: seq<Align>)
    | ThematicBreak
    | Attributes
    | PlainText
    | Emph
    | Strong
    | Code
    | Verbatim(format: Option<string>)
    | Link(destSpan: Option<Span>, titleSpan: Option<Span>)
    | Image(destSpan: Option<Span>, titleSpan: Option<Span>)
    | Sub
    | Sup
    | Insert
    | Delete
    | Mark
    | MathInline
    | MathDisplay

  /// A node: its kind, the source extent it covers and its ordered children.
  /// Equality of nodes is Dafny's structural datatype equality, as the derived
  /// `PartialEq` of the source compares every field.
  datatype AstNode = AstNode(kind: AstKind, span: Span, children: seq<AstNode>)

  /// The marker kinds of the inline delimiter table.
  datatype DelimKind =
    | Star
    | Underscore
    | Backtick(run: nat)
    | LBracket
    | BangLBracket
    | Paren
    | Tilde
    | Caret
    | Insert
    | Delete
    | Mark
    | QuoteSingle
    | QuoteDouble

  /// A leaf node holding plain source text.
  function Plain(start: nat, end: nat): AstNode
  {
    AstNode(PlainText, Span(start, end), [])
  }

  predicate IsContinuation(b: Byte)
  {
    0x80 <= b <= 0xBF
  }

  /// The length of the well-formed UTF-8 sequence (section 4 of RFC 3629) that starts
  /// `s`, or 0 when `s` does not start with one.
  function CharLen(s: seq<Byte>): (k: nat)
    ensures k <= |s|
    ensures k > 0 ==> |s| > 0 && (s[0] < 0x80 <==> k == 1)
  {
    if |s| == 0 then 0
    else
      var b := s[0];
      if b <= 0x7F then 1
      else if 0xC2 <= b <= 0xDF then
        if |s| >= 2 && IsContinuation(s[1]) then 2 else 0
      else if b == 0xE0 then
        if |s| >= 3 && 0xA0 <= s[1] <= 0xBF && IsContinuation(s[2]) then 3 else 0
      else if (0xE1 <= b <= 0xEC) || (0xEE <= b <= 0xEF) then
        if |s| >= 3 && IsContinuation(s[1]) && IsContinuation(s[2]) then 3 else 0
      else if b == 0xED then
        if |s| >= 3 && 0x80 <= s[1] <= 0x9F && IsContinuation(s[2]) then 3 else 0
      else if b == 0xF0 then
        if |s| >= 4 && 0x90 <= s[1] <= 0xBF && IsContinuation(s[2]) && IsContinuation(s[3]) then 4 else 0
      else if 0xF1 <= b <= 0xF3 then
        if |s| >= 4 && IsContinuation(s[1]) && IsContinuation(s[2]) && IsContinuation(s[3]) then 4 else 0
      else if b == 0xF4 then
        if |s| >= 4 && 0x80 <= s[1] <= 0x8F && IsContinuation(s[2]) && IsContinuation(s[3]) then 4 else 0
      else 0
  }

  /// `s` is a sequence of well-formed UTF-8 characters (what `std::str::from_utf8` accepts).
  predicate ValidUtf8(s: seq<Byte>)
    decreases |s|
  {
    |s| == 0 || (CharLen(s) > 0 && ValidUtf8(s[CharLen(s)..]))
  }

  predicate IsAscii(s: seq<Byte>)
  {
    forall i :: 0 <= i < |s| ==> s[i] < 0x80
  }

  /// Every ASCII text is valid UTF-8.
  lemma {:induction false} AsciiIsUtf8(s: seq<Byte>)
    requires IsAscii(s)
    ensures ValidUtf8(s)
    decreases |s|
  {
    if |s| > 0 {
      assert CharLen(s) == 1;
      assert IsAscii(s[1..]) by {
        forall i | 0 <= i < |s[1..]| ensures s[1..][i] < 0x80 {
          assert s[1..][i] == s[i + 1];
        }
      }
      AsciiIsUtf8(s[1..]);
    }
  }

  /// `as_str` can resolve the span in `src` without panicking: the slice is in bounds
  /// and the bytes it selects are valid UTF-8.
  predicate ValidSlice(sp: Span, src: seq<Byte>)
  {
    sp.start <= sp.end <= |src| && ValidUtf8(src[sp.start..sp.end])
  }

  /// `Span::as_str`: the text the span covers, byte for byte.
  function AsStr(sp: Span, src: seq<Byte>): (s: seq<Byte>)
    requires ValidSlice(sp, src)
    ensures |s| == sp.end - sp.start && ValidUtf8(s)
    ensures forall i :: 0 <= i < |s| ==> s[i] == src[sp.start + i]
  {
    src[sp.start..sp.end]
  }

  /// `AstNode::text_view`: every kind exposes the text of its own span, never None.
  function TextView(node: AstNode, src: seq<Byte>): (r: Option<seq<Byte>>)
    requires ValidSlice(node.span, src)
    ensures r.Some? && |r.value| == node.span.end - node.span.start
    ensures forall i :: 0 <= i < |r.value| ==> r.value[i] == src[node.span.start + i]
  {
    match node.kind
    case _ => Some(AsStr(node.span, src))
  }
}
