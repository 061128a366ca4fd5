/// The byte-level recognizers of the inline parser (src/parser/inline.rs): the delimiter
/// table, backtick code spans, and links and images.
module InlineSyntax {
  import opened Ast

  const BANG: Byte := 0x21       // '!'
  const DOLLAR: Byte := 0x24     // '$'
  const LPAREN: Byte := 0x28     // '('
  const RPAREN: Byte := 0x29     // ')'
  const STAR: Byte := 0x2A       // '*'
  const PLUS: Byte := 0x2B       // '+'
  const MINUS: Byte := 0x2D      // '-'
  const EQUALS: Byte := 0x3D     // '='
  const LBRACKET: Byte := 0x5B   // '['
  const RBRACKET: Byte := 0x5D   // ']'
  const CARET: Byte := 0x5E      // '^'
  const UNDERSCORE: Byte := 0x5F // '_'
  const BACKTICK: Byte := 0x60   // '`'
  const LBRACE: Byte := 0x7B     // '{'
  const RBRACE: Byte := 0x7D     // '}'
  const TILDE: Byte := 0x7E      // '~'
  const SPACE: Byte := 0x20      // ' '

  // ---------------------------------------------------------------------------
  // The delimiter table
  // ---------------------------------------------------------------------------

  /// One row of the table: the marker kind, its open marker and its close marker.
  datatype DelimiterDef = DelimiterDef(kind: DelimKind, open: seq<Byte>, close: seq<Byte>)

  /// An index into `DELIMITERS`.
  type DefIndex = i: nat | i < 7

  /// `DELIMITERS`, in priority order.
  const DELIMITERS: seq<DelimiterDef> := [
    DelimiterDef(DelimKind.Mark, [LBRACE, EQUALS], [EQUALS, RBRACE]),
    DelimiterDef(DelimKind.Insert, [LBRACE, PLUS], [PLUS, RBRACE]),
    DelimiterDef(DelimKind.Delete, [LBRACE, MINUS], [MINUS, RBRACE]),
    DelimiterDef(Underscore, [UNDERSCORE], [UNDERSCORE]),
    DelimiterDef(Star, [STAR], [STAR]),
    DelimiterDef(Tilde, [TILDE], [TILDE]),
    DelimiterDef(Caret, [CARET], [CARET])
  ]

  /// `DelimiterDef::ast_kind`: the node kind a matched pair of markers produces.
  function AstKindOf(kind: DelimKind): (k: AstKind)
    ensures kind in {Underscore, Star, Tilde, Caret, DelimKind.Mark, DelimKind.Insert, DelimKind.Delete}
            <==> k != PlainText
  {
    match kind
    case Underscore => Emph
    case Star => Strong
    case Tilde => Sub
    case Caret => Sup
    case Mark => AstKind.Mark
    case Insert => AstKind.Insert
    case Delete => AstKind.Delete
    case _ => PlainText
  }

  /// An open inline delimiter (`Delimiter`): which table row, where its open marker
  /// starts, where its content starts, and the nodes collected inside it so far.
  datatype Delimiter = Delimiter(defIndex: DefIndex, openPos: nat, contentStart: nat, children: seq<AstNode>)

  /// `starts_with`: `pat` occurs in `bytes` at `idx`.
  predicate StartsWith(bytes: seq<Byte>, idx: nat, pat: seq<Byte>)
  {
    idx + |pat| <= |bytes| && bytes[idx..idx + |pat|] == pat
  }

  /// A pattern occurs at `idx` exactly when each of its bytes is found at its place; a
  /// pattern made of two parts occurs exactly when its first part does and the second
  /// follows it.
  lemma StartsWithParts(bytes: seq<Byte>, idx: nat, p: seq<Byte>, q: seq<Byte>)
    ensures StartsWith(bytes, idx, p) <==>
              idx + |p| <= |bytes| && forall j :: 0 <= j < |p| ==> bytes[idx + j] == p[j]
    ensures StartsWith(bytes, idx, p + q) <==> StartsWith(bytes, idx, p) && StartsWith(bytes, idx + |p|, q)
  {
    var m := idx + |p|;
    if m + |q| <= |bytes| {
      assert bytes[idx..m + |q|] == bytes[idx..m] + bytes[m..m + |q|];
      if StartsWith(bytes, idx, p + q) {
        assert bytes[idx..m] == (p + q)[..|p|] == p;
        assert bytes[m..m + |q|] == (p + q)[|p|..] == q;
      }
    }
  }

  /// `match_closing`: the close marker of the innermost open delimiter (and only that
  /// one) occurs at `idx`; gives its table row and the marker's length.
  function MatchClosing(bytes: seq<Byte>, idx: nat, stack: seq<Delimiter>): (r: Option<(DefIndex, nat)>)
    ensures r.Some? <==> |stack| > 0 && StartsWith(bytes, idx, DELIMITERS[stack[|stack| - 1].defIndex].close)
    ensures r.Some? ==> (r.value.0 == stack[|stack| - 1].defIndex
                         && r.value.1 == |DELIMITERS[r.value.0].close| > 0)
  {
    if |stack| == 0 then None
    else
      var top := stack[|stack| - 1];
      var def := DELIMITERS[top.defIndex];
      if StartsWith(bytes, idx, def.close) then Some((top.defIndex, |def.close|)) else None
  }

  /// The `for` loop of `match_opening` over the rows of `table` from `i` on, with the best
  /// match so far.
  function OpeningFrom(table: seq<DelimiterDef>, bytes: seq<Byte>, idx: nat, i: nat, best: Option<(nat, nat)>)
    : Option<(nat, nat)>
    requires i <= |table|
    decreases |table| - i
  {
    if i == |table| then best
    else
      var def := table[i];
      var better := StartsWith(bytes, idx, def.open) && (best.None? || |def.open| > best.value.1);
      OpeningFrom(table, bytes, idx, i + 1, if better then Some((i, |def.open|)) else best)
  }

  /// `best` is the longest open marker of `table` that occurs at `idx` among rows [0, i),
  /// the earliest row on a tie; None when none of them occurs.
  predicate BestAmong(table: seq<DelimiterDef>, bytes: seq<Byte>, idx: nat, i: nat, best: Option<(nat, nat)>)
    requires i <= |table|
  {
    && (best.None? <==> forall j :: 0 <= j < i ==> !StartsWith(bytes, idx, table[j].open))
    && (best.Some? ==>
          && best.value.0 < i
          && StartsWith(bytes, idx, table[best.value.0].open)
          && best.value.1 == |table[best.value.0].open|
          && forall j :: 0 <= j < i && StartsWith(bytes, idx, table[j].open) ==>
               |table[j].open| < best.value.1 ||
               (|table[j].open| == best.value.1 && best.value.0 <= j))
  }

  /// The table loop keeps the best match: longest marker first, then earliest row.
  lemma {:induction false} OpeningFromBest(table: seq<DelimiterDef>, bytes: seq<Byte>, idx: nat, i: nat,
                                           best: Option<(nat, nat)>)
    requires i <= |table|
    requires BestAmong(table, bytes, idx, i, best)
    ensures BestAmong(table, bytes, idx, |table|, OpeningFrom(table, bytes, idx, i, best))
    decreases |table| - i
  {
    if i < |table| {
      var def := table[i];
      var len := |def.open|;
      if StartsWith(bytes, idx, def.open) && (best.None? || len > best.value.1) {
        forall j | 0 <= j < i + 1 && StartsWith(bytes, idx, table[j].open)
          ensures |table[j].open| < len || (|table[j].open| == len && i <= j)
        {
          if j < i {
            assert best.Some? && |table[j].open| <= best.value.1;
          }
        }
        OpeningFromBest(table, bytes, idx, i + 1, Some((i, len)));
      } else {
        OpeningFromBest(table, bytes, idx, i + 1, best);
      }
    }
  }

  /// `match_opening`: the longest open marker at `idx`, the earliest table row on a tie.
  function OpeningMatch(bytes: seq<Byte>, idx: nat): (r: Option<(DefIndex, nat)>)
    ensures r.Some? ==> (StartsWith(bytes, idx, DELIMITERS[r.value.0].open)
                         && r.value.1 == |DELIMITERS[r.value.0].open| > 0)
  {
    OpeningFromBest(DELIMITERS, bytes, idx, 0, None);
    match OpeningFrom(DELIMITERS, bytes, idx, 0, None)
    case None => None
    case Some((i, len)) => Some((i, len))
  }

  /// `match_opening` finds an open marker whenever one occurs at `idx`, and the one it
  /// finds is the longest, the earliest table row among equally long ones.
  lemma OpeningMatchIsBest(bytes: seq<Byte>, idx: nat)
    ensures var r := OpeningMatch(bytes, idx);
            r.None? <==> forall j :: 0 <= j < |DELIMITERS| ==> !StartsWith(bytes, idx, DELIMITERS[j].open)
    ensures var r := OpeningMatch(bytes, idx);
            r.Some? ==> forall j :: 0 <= j < |DELIMITERS| && StartsWith(bytes, idx, DELIMITERS[j].open) ==>
                          |DELIMITERS[j].open| < r.value.1 ||
                          (|DELIMITERS[j].open| == r.value.1 && r.value.0 <= j)
  {
    OpeningFromBest(DELIMITERS, bytes, idx, 0, None);
  }

  /// A pattern occurring at `idx` starts with the byte at `idx`.
  lemma StartsWithFirst(bytes: seq<Byte>, idx: nat, pat: seq<Byte>)
    requires |pat| > 0
    ensures StartsWith(bytes, idx, pat) ==> idx < |bytes| && bytes[idx] == pat[0]
  {
    if StartsWith(bytes, idx, pat) {
      assert bytes[idx..idx + |pat|][0] == bytes[idx];
    }
  }

  /// `match_opening`, with its loop over the table.
  method MatchOpening(bytes: seq<Byte>, idx: nat) returns (best: Option<(DefIndex, nat)>)
    ensures best == OpeningMatch(bytes, idx)
  {
    var found: Option<(nat, nat)> := None;
    for i := 0 to |DELIMITERS|
      invariant found.Some? ==> found.value.0 < i
      invariant OpeningFrom(DELIMITERS, bytes, idx, i, found) == OpeningFrom(DELIMITERS, bytes, idx, 0, None)
    {
      var def := DELIMITERS[i];
      if StartsWith(bytes, idx, def.open) {
        var len := |def.open|;
        if found.None? || len > found.value.1 {
          found := Some((i, len));
        }
      }
    }
    best := if found.None? then None else Some((found.value.0, found.value.1));
  }

  // ---------------------------------------------------------------------------
  // Backtick code spans
  // ---------------------------------------------------------------------------

  /// The number of consecutive backticks starting at `i`.
  function BacktickRun(bytes: seq<Byte>, i: nat): (c: nat)
    ensures i + c <= |bytes| || c == 0
    ensures forall p :: i <= p < i + c ==> bytes[p] == BACKTICK
    ensures i + c >= |bytes| || bytes[i + c] != BACKTICK
    decreases |bytes| - i
  {
    if i < |bytes| && bytes[i] == BACKTICK then 1 + BacktickRun(bytes, i + 1) else 0
  }

  /// `count_backticks`.
  method CountBackticks(bytes: seq<Byte>, idx: nat) returns (count: nat)
    ensures count == BacktickRun(bytes, idx)
  {
    count := 0;
    while idx + count < |bytes| && bytes[idx + count] == BACKTICK
      invariant count + BacktickRun(bytes, idx + count) == BacktickRun(bytes, idx)
      decreases |bytes| - (idx + count)
    {
      count := count + 1;
    }
  }

  /// A run of backticks starts at `q` for a scan that began at `i`: `q` holds a backtick
  /// and is either the scan's first position or follows a non-backtick.
  predicate RunStart(bytes: seq<Byte>, i: nat, q: nat)
    requires i <= q < |bytes|
  {
    bytes[q] == BACKTICK && (q == i || bytes[q - 1] != BACKTICK)
  }

  /// `find_backtick_closer`: the first run, at or after `i`, of exactly `run` backticks,
  /// as (position, run); (end of input, 0) when there is none.
  function BacktickCloser(bytes: seq<Byte>, i: nat, run: nat): (r: (nat, nat))
    requires run > 0
    ensures r.1 == run || r == (|bytes|, 0)
    ensures r.1 == run ==> (i <= r.0 && r.0 + run <= |bytes| && RunStart(bytes, i, r.0)
                            && BacktickRun(bytes, r.0) == run)
    decreases |bytes| - i
  {
    if i >= |bytes| then (|bytes|, 0)
    else if bytes[i] == BACKTICK then
      var count := BacktickRun(bytes, i);
      if count == run then (i, run)
      else
        var r := BacktickCloser(bytes, i + count, run);
        assert forall q :: i < q < i + count ==> !RunStart(bytes, i, q);
        r
    else BacktickCloser(bytes, i + 1, run)
  }

  /// No run of exactly `run` backticks starts before the closer `BacktickCloser` finds.
  lemma {:induction false} BacktickCloserIsFirst(bytes: seq<Byte>, i: nat, run: nat)
    requires run > 0
    ensures forall q :: i <= q < |bytes| && q < BacktickCloser(bytes, i, run).0 && RunStart(bytes, i, q) ==>
              BacktickRun(bytes, q) != run
    decreases |bytes| - i
  {
    if i < |bytes| {
      if bytes[i] == BACKTICK {
        var count := BacktickRun(bytes, i);
        if count != run {
          BacktickCloserIsFirst(bytes, i + count, run);
          assert forall q :: i < q < i + count ==> !RunStart(bytes, i, q);
          assert forall q :: i + count <= q < |bytes| ==> (RunStart(bytes, i + count, q) <==> RunStart(bytes, i, q));
        }
      } else {
        BacktickCloserIsFirst(bytes, i + 1, run);
        assert forall q :: i + 1 <= q < |bytes| ==> (RunStart(bytes, i + 1, q) <==> RunStart(bytes, i, q));
      }
    }
  }

  /// `find_backtick_closer`, with its scanning loop (the inner run count is `count_backticks`).
  method FindBacktickCloser(bytes: seq<Byte>, idx0: nat, run: nat) returns (pos: nat, len: nat)
    requires run > 0
    ensures (pos, len) == BacktickCloser(bytes, idx0, run)
  {
    var n := |bytes|;
    var idx := idx0;
    while idx < n
      invariant BacktickCloser(bytes, idx, run) == BacktickCloser(bytes, idx0, run)
      decreases n - idx
    {
      if bytes[idx] == BACKTICK {
        var count := CountBackticks(bytes, idx);
        if count == run {
          return idx, run;
        }
        idx := idx + if count > 1 then count else 1;
      } else {
        idx := idx + 1;
      }
    }
    return n, 0;
  }

  /// What `extract_backtick_span` finds at `idx`: the content span (start, end) and the
  /// position where scanning resumes.
  datatype CodeSpan = CodeSpan(start: nat, end: nat, next: nat)

  /// `extract_backtick_span`: a code span opened by the run of backticks at `idx`.
  /// The closer is the first run of exactly as many backticks; without one the span runs
  /// to the end of the line. One space is trimmed after the opener when a backtick follows
  /// it, and one space before the closer when a backtick precedes it.
  function BacktickSpan(bytes: seq<Byte>, idx: nat): (r: Option<CodeSpan>)
    ensures r.None? <==> idx >= |bytes| || bytes[idx] != BACKTICK
    ensures r.Some? ==> idx + BacktickRun(bytes, idx) <= r.value.start <= r.value.end <= r.value.next <= |bytes|
    ensures r.Some? ==> idx < r.value.next
  {
    var run := BacktickRun(bytes, idx);
    if run == 0 then None
    else
      var contentStartRaw := idx + run;
      var (contentEndRaw, closeLen) := BacktickCloser(bytes, contentStartRaw, run);
      var terminated := closeLen == run;
      var spanEnd0 := if terminated then contentEndRaw else |bytes|;
      var spanStart :=
        if contentStartRaw + 1 < |bytes| && contentStartRaw < spanEnd0
           && bytes[contentStartRaw] == SPACE && bytes[contentStartRaw + 1] == BACKTICK
        then contentStartRaw + 1 else contentStartRaw;
      var spanEnd :=
        if terminated && spanStart < spanEnd0 && spanEnd0 > 0 && bytes[spanEnd0 - 1] == SPACE
           && spanEnd0 >= spanStart + 2 && bytes[spanEnd0 - 2] == BACKTICK
        then spanEnd0 - 1 else spanEnd0;
      var next := if terminated then contentEndRaw + run else |bytes|;
      Some(CodeSpan(spanStart, spanEnd, next))
  }

  /// Where a code span's content lies: after the opening run, less one space exactly when
  /// a backtick follows that space inside the content; up to the closing run, less one
  /// space exactly when a backtick precedes that space inside the content; to the end of
  /// the line when no closing run exists.
  lemma BacktickSpanShape(bytes: seq<Byte>, idx: nat)
    requires BacktickSpan(bytes, idx).Some?
    ensures var r := BacktickSpan(bytes, idx).value;
            var run := BacktickRun(bytes, idx);
            var cs := idx + run;
            var closer := BacktickCloser(bytes, cs, run);
            var end0 := if closer.1 == run then closer.0 else |bytes|;
            && (r.start == cs || r.start == cs + 1)
            && (r.start == cs + 1 <==>
                  cs + 1 < |bytes| && cs < end0 && bytes[cs] == SPACE && bytes[cs + 1] == BACKTICK)
    ensures var r := BacktickSpan(bytes, idx).value;
            var run := BacktickRun(bytes, idx);
            var closer := BacktickCloser(bytes, idx + run, run);
            if closer.1 == run then
              && r.next == closer.0 + run
              && (r.end == closer.0 || r.end == closer.0 - 1)
              && (r.end == closer.0 - 1 <==>
                    r.start + 2 <= closer.0 && bytes[closer.0 - 1] == SPACE && bytes[closer.0 - 2] == BACKTICK)
            else
              r.next == |bytes| && r.end == |bytes|
  {
  }

  /// `extract_backtick_span`, with the trimming done on local variables.
  method ExtractBacktickSpan(bytes: seq<Byte>, idx: nat) returns (r: Option<CodeSpan>)
    ensures r == BacktickSpan(bytes, idx)
  {
    var run := CountBackticks(bytes, idx);
    if run == 0 {
      return None;
    }
    var contentStartRaw := idx + run;
    var contentEndRaw, closeLen := FindBacktickCloser(bytes, contentStartRaw, run);
    var spanStart := contentStartRaw;
    var spanEnd := if closeLen == run then contentEndRaw else |bytes|;
    if spanStart + 1 < |bytes| && spanStart < spanEnd && bytes[spanStart] == SPACE
       && bytes[spanStart + 1] == BACKTICK {
      spanStart := spanStart + 1;
    }
    if closeLen == run && spanStart < spanEnd && spanEnd > 0 && bytes[spanEnd - 1] == SPACE
       && spanEnd >= spanStart + 2 && bytes[spanEnd - 2] == BACKTICK {
      spanEnd := spanEnd - 1;
    }
    var next := if closeLen == run then contentEndRaw + run else |bytes|;
    return Some(CodeSpan(spanStart, spanEnd, next));
  }

  // ---------------------------------------------------------------------------
  // Links and images
  // ---------------------------------------------------------------------------

  /// `u8::is_ascii_whitespace`: space, tab, LF, form feed or CR.
  predicate IsAsciiWs(b: Byte)
  {
    b == 0x20 || b == 0x09 || b == 0x0A || b == 0x0C || b == 0x0D
  }

  /// `find_matching`: the first position at or after `i` that holds `target`.
  function FirstIndexOf(bytes: seq<Byte>, i: nat, target: Byte): (r: Option<nat>)
    ensures r.Some? ==> i <= r.value < |bytes| && bytes[r.value] == target
    decreases |bytes| - i
  {
    if i >= |bytes| then None
    else if bytes[i] == target then Some(i)
    else FirstIndexOf(bytes, i + 1, target)
  }

  /// `FirstIndexOf` finds the first occurrence: `target` occurs nowhere before it.
  lemma {:induction false} FirstIndexOfIsFirst(bytes: seq<Byte>, i: nat, target: Byte)
    ensures var r := FirstIndexOf(bytes, i, target);
            forall q :: i <= q < |bytes| && (r.None? || q < r.value) ==> bytes[q] != target
    decreases |bytes| - i
  {
    if i < |bytes| && bytes[i] != target {
      FirstIndexOfIsFirst(bytes, i + 1, target);
    }
  }

  /// `find_matching`, with its loop.
  method FindMatching(bytes: seq<Byte>, idx0: nat, target: Byte) returns (r: Option<nat>)
    ensures r == FirstIndexOf(bytes, idx0, target)
  {
    var idx := idx0;
    while idx < |bytes|
      invariant FirstIndexOf(bytes, idx, target) == FirstIndexOf(bytes, idx0, target)
      decreases |bytes| - idx
    {
      if bytes[idx] == target {
        return Some(idx);
      }
      idx := idx + 1;
    }
    return None;
  }

  /// Skip ASCII whitespace forwards from `lo`, stopping at `hi`.
  function TrimStart(bytes: seq<Byte>, lo: nat, hi: nat): (p: nat)
    requires lo <= hi <= |bytes|
    ensures lo <= p <= hi
    ensures p < hi ==> !IsAsciiWs(bytes[p])
    decreases hi - lo
  {
    if lo < hi && IsAsciiWs(bytes[lo]) then TrimStart(bytes, lo + 1, hi) else lo
  }

  /// Everything `TrimStart` skips is whitespace.
  lemma {:induction false} TrimStartSkipsWs(bytes: seq<Byte>, lo: nat, hi: nat)
    requires lo <= hi <= |bytes|
    ensures forall q :: lo <= q < TrimStart(bytes, lo, hi) ==> IsAsciiWs(bytes[q])
    decreases hi - lo
  {
    if lo < hi && IsAsciiWs(bytes[lo]) {
      TrimStartSkipsWs(bytes, lo + 1, hi);
    }
  }

  /// Skip ASCII whitespace backwards from `hi`, stopping at `lo`.
  function TrimEnd(bytes: seq<Byte>, lo: nat, hi: nat): (p: nat)
    requires lo <= hi <= |bytes|
    ensures lo <= p <= hi
    ensures p > lo ==> !IsAsciiWs(bytes[p - 1])
    decreases hi - lo
  {
    if hi > lo && IsAsciiWs(bytes[hi - 1]) then TrimEnd(bytes, lo, hi - 1) else hi
  }

  /// Everything `TrimEnd` drops is whitespace.
  lemma {:induction false} TrimEndSkipsWs(bytes: seq<Byte>, lo: nat, hi: nat)
    requires lo <= hi <= |bytes|
    ensures forall q :: TrimEnd(bytes, lo, hi) <= q < hi ==> IsAsciiWs(bytes[q])
    decreases hi - lo
  {
    if hi > lo && IsAsciiWs(bytes[hi - 1]) {
      TrimEndSkipsWs(bytes, lo, hi - 1);
    }
  }

  /// The node `parse_link_or_image` builds from the trimmed label and destination ranges
  /// (relative to the line, shifted by `offset`).
  function LinkNode(isImage: bool, labelInnerStart: nat, labelInnerEnd: nat, destStart: nat, destEnd: nat, offset: nat): AstNode
  {
    var children := if labelInnerStart < labelInnerEnd
                    then [Plain(labelInnerStart + offset, labelInnerEnd + offset)] else [];
    var destSpan := if destStart < destEnd then Some(Span(destStart + offset, destEnd + offset)) else None;
    var kind := if isImage then Image(destSpan, None) else Link(destSpan, None);
    AstNode(kind, Span(labelInnerStart + offset, labelInnerEnd + offset), children)
  }

  /// `parse_link_or_image`: `[label](dest)` or `![label](dest)` at `idx`, where the label
  /// ends at the first `]`, which must be followed directly by `(`, and the destination at
  /// the first `)` after it. Gives the node and the position after the `)`.
  function LinkOrImage(bytes: seq<Byte>, idx: nat, offset: nat): (r: Option<(AstNode, nat)>)
    requires idx < |bytes|
  {
    var isImage := bytes[idx] == BANG && idx + 1 < |bytes| && bytes[idx + 1] == LBRACKET;
    if !isImage && bytes[idx] != LBRACKET then None
    else LinkAfterOpener(bytes, isImage, if isImage then idx + 2 else idx + 1, offset)
  }

  /// The rest of `parse_link_or_image` once the opener is seen: the label runs to the
  /// first `]`, which a `(` must follow directly.
  function LinkAfterOpener(bytes: seq<Byte>, isImage: bool, labelStart: nat, offset: nat): Option<(AstNode, nat)>
  {
    match FirstIndexOf(bytes, labelStart, RBRACKET)
    case None => None
    case Some(closeBracket) =>
      if closeBracket + 1 >= |bytes| || bytes[closeBracket + 1] != LPAREN then None
      else LinkAfterLabel(bytes, isImage, labelStart, closeBracket, offset)
  }

  /// The rest of `parse_link_or_image` once `](` is seen: the destination runs to the
  /// first `)`; label and destination are trimmed of ASCII whitespace.
  function LinkAfterLabel(bytes: seq<Byte>, isImage: bool, labelStart: nat, closeBracket: nat, offset: nat)
    : Option<(AstNode, nat)>
    requires labelStart <= closeBracket < |bytes|
  {
    match FirstIndexOf(bytes, closeBracket + 2, RPAREN)
    case None => None
    case Some(destEndRaw) =>
      var destStart := TrimStart(bytes, closeBracket + 2, destEndRaw);
      var destEnd := TrimEnd(bytes, destStart, destEndRaw);
      var labelInnerStart := TrimStart(bytes, labelStart, closeBracket);
      var labelInnerEnd := TrimEnd(bytes, labelInnerStart, closeBracket);
      Some((LinkNode(isImage, labelInnerStart, labelInnerEnd, destStart, destEnd, offset), destEndRaw + 1))
  }

  /// What a recognized link or image looks like: it ends at a `)`, its kind follows the
  /// opening byte, it has no title, its span lies strictly inside the consumed text and
  /// holds one plain child exactly when the trimmed label is not empty, and the destination
  /// span follows the label.
  lemma LinkOrImageBounds(bytes: seq<Byte>, idx: nat, offset: nat)
    requires idx < |bytes|
    requires LinkOrImage(bytes, idx, offset).Some?
    ensures bytes[idx] == LBRACKET || (bytes[idx] == BANG && idx + 1 < |bytes| && bytes[idx + 1] == LBRACKET)
    ensures var (node, next) := LinkOrImage(bytes, idx, offset).value;
              && idx < next <= |bytes| && bytes[next - 1] == RPAREN
              && (node.kind.Link? <==> bytes[idx] == LBRACKET)
              && (node.kind.Image? <==> bytes[idx] == BANG)
              && (node.kind.Link? || node.kind.Image?)
              && node.kind.titleSpan.None?
              && idx + offset < node.span.start <= node.span.end < next + offset
              && node.children == (if node.span.start < node.span.end then [Plain(node.span.start, node.span.end)] else [])
              && (node.kind.destSpan.Some? ==>
                    node.span.end < node.kind.destSpan.value.start < node.kind.destSpan.value.end < next + offset)
  {
  }

  /// `bytes[lo..hi]` trimmed of ASCII whitespace is `bytes[s..e]`.
  predicate TrimmedTo(bytes: seq<Byte>, lo: nat, hi: nat, s: nat, e: nat)
    requires lo <= hi <= |bytes|
  {
    && lo <= s <= e <= hi
    && (forall q :: lo <= q < s ==> IsAsciiWs(bytes[q]))
    && (forall q :: e <= q < hi ==> IsAsciiWs(bytes[q]))
    && (s < e ==> !IsAsciiWs(bytes[s]) && !IsAsciiWs(bytes[e - 1]))
  }

  /// A link or image is recognized by its opener, the first `]` after it and a `(`
  /// directly after that `]`; the rest is decided by `LinkAfterLabel`.
  lemma LinkOpener(bytes: seq<Byte>, idx: nat, offset: nat)
    requires idx < |bytes|
    requires LinkOrImage(bytes, idx, offset).Some?
    ensures var isImage := bytes[idx] == BANG && idx + 1 < |bytes| && bytes[idx + 1] == LBRACKET;
            var labelStart := if isImage then idx + 2 else idx + 1;
            var closeBracket := FirstIndexOf(bytes, labelStart, RBRACKET);
            && (isImage || bytes[idx] == LBRACKET)
            && closeBracket.Some?
            && closeBracket.value + 1 < |bytes| && bytes[closeBracket.value + 1] == LPAREN
            && LinkOrImage(bytes, idx, offset) == LinkAfterLabel(bytes, isImage, labelStart, closeBracket.value, offset)
  {
  }

  /// After `](`: the destination runs to the first `)`, and the node spans the label
  /// trimmed of ASCII whitespace.
  lemma LinkLabelTrimmed(bytes: seq<Byte>, isImage: bool, labelStart: nat, closeBracket: nat, offset: nat)
    requires labelStart <= closeBracket < |bytes|
    requires LinkAfterLabel(bytes, isImage, labelStart, closeBracket, offset).Some?
    ensures var (node, next) := LinkAfterLabel(bytes, isImage, labelStart, closeBracket, offset).value;
            && closeBracket + 2 < next <= |bytes|
            && FirstIndexOf(bytes, closeBracket + 2, RPAREN) == Some(next - 1)
            && node.span.start >= offset && node.span.end >= offset
            && TrimmedTo(bytes, labelStart, closeBracket, node.span.start - offset, node.span.end - offset)
  {
    var labelInnerStart := TrimStart(bytes, labelStart, closeBracket);
    TrimStartSkipsWs(bytes, labelStart, closeBracket);
    TrimEndSkipsWs(bytes, labelInnerStart, closeBracket);
  }

  /// After `](`: the destination span is the destination trimmed of ASCII whitespace; an
  /// all-whitespace destination gives no destination span.
  lemma LinkDestTrimmed(bytes: seq<Byte>, isImage: bool, labelStart: nat, closeBracket: nat, offset: nat)
    requires labelStart <= closeBracket < |bytes|
    requires LinkAfterLabel(bytes, isImage, labelStart, closeBracket, offset).Some?
    ensures var (node, next) := LinkAfterLabel(bytes, isImage, labelStart, closeBracket, offset).value;
            && closeBracket + 2 < next <= |bytes|
            && (node.kind.destSpan.Some? ==>
                  var d := node.kind.destSpan.value;
                  && d.start >= offset && d.end >= offset && d.start < d.end
                  && TrimmedTo(bytes, closeBracket + 2, next - 1, d.start - offset, d.end - offset))
            && (node.kind.destSpan.None? ==>
                  forall q :: closeBracket + 2 <= q < next - 1 ==> IsAsciiWs(bytes[q]))
  {
    var destEndRaw := FirstIndexOf(bytes, closeBracket + 2, RPAREN).value;
    var destStart := TrimStart(bytes, closeBracket + 2, destEndRaw);
    TrimStartSkipsWs(bytes, closeBracket + 2, destEndRaw);
    TrimEndSkipsWs(bytes, destStart, destEndRaw);
  }

  /// One of the forward trimming loops of `parse_link_or_image`.
  method SkipWsForward(bytes: seq<Byte>, lo: nat, hi: nat) returns (p: nat)
    requires lo <= hi <= |bytes|
    ensures p == TrimStart(bytes, lo, hi)
  {
    p := lo;
    while p < hi && IsAsciiWs(bytes[p])
      invariant lo <= p <= hi
      invariant TrimStart(bytes, p, hi) == TrimStart(bytes, lo, hi)
      decreases hi - p
    {
      p := p + 1;
    }
  }

  /// One of the backward trimming loops of `parse_link_or_image`.
  method SkipWsBackward(bytes: seq<Byte>, lo: nat, hi: nat) returns (p: nat)
    requires lo <= hi <= |bytes|
    ensures p == TrimEnd(bytes, lo, hi)
  {
    p := hi;
    while p > lo && IsAsciiWs(bytes[p - 1])
      invariant lo <= p <= hi
      invariant TrimEnd(bytes, lo, p) == TrimEnd(bytes, lo, hi)
      decreases p
    {
      p := p - 1;
    }
  }

  /// `parse_link_or_image`, with its four trimming loops (one helper call each).
  method ParseLinkOrImage(bytes: seq<Byte>, idx: nat, offset: nat) returns (r: Option<(AstNode, nat)>)
    requires idx < |bytes|
    ensures r == LinkOrImage(bytes, idx, offset)
  {
    var isImage := bytes[idx] == BANG && idx + 1 < |bytes| && bytes[idx + 1] == LBRACKET;
    if !isImage && bytes[idx] != LBRACKET {
      return None;
    }
    var labelStart := if isImage then idx + 2 else idx + 1;

    var found := FindMatching(bytes, labelStart, RBRACKET);
    if found.None? {
      return None;
    }
    var closeBracket := found.value;
    if closeBracket + 1 >= |bytes| || bytes[closeBracket + 1] != LPAREN {
      return None;
    }

    var destStartRaw := closeBracket + 2;
    var foundEnd := FindMatching(bytes, destStartRaw, RPAREN);
    if foundEnd.None? {
      return None;
    }
    var destEndRaw := foundEnd.value;

    var destStart := SkipWsForward(bytes, destStartRaw, destEndRaw);
    var destEnd := SkipWsBackward(bytes, destStart, destEndRaw);
    var labelInnerStart := SkipWsForward(bytes, labelStart, closeBracket);
    var labelInnerEnd := SkipWsBackward(bytes, labelInnerStart, closeBracket);

    var node := LinkNode(isImage, labelInnerStart, labelInnerEnd, destStart, destEnd, offset);
    return Some((node, destEndRaw + 1));
  }
}
