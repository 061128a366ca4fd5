/// The lines of the inline parser's own examples (src/parser/inline.rs, its tests module),
/// and the general facts behind them: text that starts no markup is skipped byte by
/// byte, and a pair of markers around such text acts like the emission of one node.
module InlineCases {
  import opened Ast
  import opened InlineSyntax
  import opened Inline

  // ---------------------------------------------------------------------------
  // Steps of the scan
  // ---------------------------------------------------------------------------

  /// A byte that starts nothing: no link or image, no math, no code span, and no open or
  /// close marker of any row of the table.
  predicate Inert(b: Byte)
  {
    && b != LBRACKET && b != BANG && b != DOLLAR && b != BACKTICK && b != LBRACE
    && b != EQUALS && b != PLUS && b != MINUS
    && b != UNDERSCORE && b != STAR && b != TILDE && b != CARET
  }

  /// Text made of inert bytes.
  predicate InertText(t: seq<Byte>)
  {
    forall i :: 0 <= i < |t| ==> Inert(t[i])
  }

  /// Every marker of the table is non-empty and starts with a byte that is not inert and
  /// that opens no link, math or code span.
  lemma MarkerFirstBytes(d: DefIndex)
    ensures var o := DELIMITERS[d].open;
            |o| > 0 && !Inert(o[0]) && o[0] != LBRACKET && o[0] != BANG && o[0] != DOLLAR && o[0] != BACKTICK
    ensures var c := DELIMITERS[d].close;
            |c| > 0 && !Inert(c[0]) && c[0] != LBRACKET && c[0] != BANG && c[0] != DOLLAR && c[0] != BACKTICK
  {
  }

  /// At most one open marker occurs at any position: the rows' markers differ in their
  /// first byte, or, after `{`, in their second.
  lemma OpenMarkersDistinct(bytes: seq<Byte>, idx: nat, j: DefIndex, d: DefIndex)
    requires StartsWith(bytes, idx, DELIMITERS[j].open) && StartsWith(bytes, idx, DELIMITERS[d].open)
    ensures j == d
  {
    var oj := DELIMITERS[j].open;
    var od := DELIMITERS[d].open;
    assert bytes[idx] == oj[0] == od[0] by {
      assert bytes[idx..idx + |oj|][0] == bytes[idx];
      assert bytes[idx..idx + |od|][0] == bytes[idx];
    }
    if od[0] == LBRACE {
      assert bytes[idx + 1] == oj[1] == od[1] by {
        assert bytes[idx..idx + |oj|][1] == bytes[idx + 1];
        assert bytes[idx..idx + |od|][1] == bytes[idx + 1];
      }
    }
  }

  /// The rest of the loop from `s`. Stating the step lemmas through this non-recursive
  /// name keeps each proof from unrolling the loop into a second decision.
  ghost function Rest(line: seq<Byte>, offset: nat, s: ScanState): ScanState
    requires s.lastEmit <= s.idx <= |line|
  {
    ScanFrom(line, offset, s)
  }

  /// The loop from a state on which it takes action `a` goes on from the state after `a`.
  lemma RestStep(line: seq<Byte>, offset: nat, s: ScanState, a: Action)
    requires s.lastEmit <= s.idx < |line| && NextAction(line, offset, s) == a
    requires a.Close? ==> |s.stack| > 0
    ensures var t := Apply(s, a, offset);
            && t.lastEmit <= t.idx <= |line|
            && Rest(line, offset, s) == Rest(line, offset, t)
  {
    ScanFromStep(line, offset, s);
  }

  /// A loop that ends with no delimiter open: the line parses to the nodes it emitted and
  /// a PlainText node over the text after the last emission, when there is any.
  lemma InlinesAfterScan(line: seq<Byte>, offset: nat, s: ScanState)
    requires s.lastEmit <= s.idx == |line| && s.stack == []
    requires Rest(line, offset, Start()) == Rest(line, offset, s)
    ensures Inlines(line, offset)
              == s.nodes + (if s.lastEmit < |line| then [Plain(s.lastEmit + offset, |line| + offset)] else [])
  {
    assert Rest(line, offset, s) == s;
  }

  /// An inert byte is plain text: the loop moves past it, whatever delimiters are open.
  lemma InertSkips(line: seq<Byte>, offset: nat, s: ScanState)
    requires s.idx < |line| && Inert(line[s.idx])
    ensures NextAction(line, offset, s) == Skip
  {
    assert LinkOrImage(line, s.idx, offset).None?;
    assert NextAction(line, offset, s) == AfterLink(line, offset, s);
    assert BacktickSpan(line, s.idx).None?;
    assert MatchClosing(line, s.idx, s.stack).None? by {
      if |s.stack| > 0 {
        var d := s.stack[|s.stack| - 1].defIndex;
        MarkerFirstBytes(d);
        StartsWithFirst(line, s.idx, DELIMITERS[d].close);
      }
    }
    assert OpeningMatch(line, s.idx).None? by {
      forall j: DefIndex ensures !StartsWith(line, s.idx, DELIMITERS[j].open) {
        MarkerFirstBytes(j);
        StartsWithFirst(line, s.idx, DELIMITERS[j].open);
      }
      OpeningMatchIsBest(line, s.idx);
    }
  }

  /// A run of inert bytes is skipped: the loop resumes after it in the same state.
  lemma {:induction false} InertRun(line: seq<Byte>, offset: nat, s: ScanState, j: nat)
    requires s.lastEmit <= s.idx <= j <= |line|
    requires forall i :: s.idx <= i < j ==> Inert(line[i])
    ensures Rest(line, offset, s) == Rest(line, offset, s.(idx := j))
    decreases j - s.idx
  {
    if s.idx < j {
      var t := s.(idx := s.idx + 1);
      InertSkips(line, offset, s);
      assert Apply(s, Skip, offset) == t;
      RestStep(line, offset, s, Skip);
      InertRun(line, offset, t, j);
      assert t.(idx := j) == s.(idx := j);
    }
  }

  /// The open marker of row `d` opens a delimiter of that row, unless it is the close
  /// marker of the innermost open delimiter.
  lemma OpensAt(line: seq<Byte>, offset: nat, s: ScanState, d: DefIndex)
    requires StartsWith(line, s.idx, DELIMITERS[d].open)
    requires |s.stack| == 0 || !StartsWith(line, s.idx, DELIMITERS[s.stack[|s.stack| - 1].defIndex].close)
    ensures s.idx < |line| && NextAction(line, offset, s) == Open(d, |DELIMITERS[d].open|)
  {
    MarkerFirstBytes(d);
    StartsWithFirst(line, s.idx, DELIMITERS[d].open);
    assert LinkOrImage(line, s.idx, offset).None?;
    assert NextAction(line, offset, s) == AfterLink(line, offset, s);
    assert BacktickSpan(line, s.idx).None?;
    assert MatchClosing(line, s.idx, s.stack).None?;
    OpeningMatchIsBest(line, s.idx);
    var r := OpeningMatch(line, s.idx);
    OpenMarkersDistinct(line, s.idx, r.value.0, d);
  }

  /// The close marker of the innermost open delimiter closes it.
  lemma ClosesAt(line: seq<Byte>, offset: nat, s: ScanState)
    requires |s.stack| > 0
    requires StartsWith(line, s.idx, DELIMITERS[s.stack[|s.stack| - 1].defIndex].close)
    ensures var d := s.stack[|s.stack| - 1].defIndex;
            s.idx < |line| && NextAction(line, offset, s) == Close(d, |DELIMITERS[d].close|)
  {
    var d := s.stack[|s.stack| - 1].defIndex;
    MarkerFirstBytes(d);
    StartsWithFirst(line, s.idx, DELIMITERS[d].close);
    assert LinkOrImage(line, s.idx, offset).None?;
    assert NextAction(line, offset, s) == AfterLink(line, offset, s);
    assert BacktickSpan(line, s.idx).None?;
  }

  // ---------------------------------------------------------------------------
  // Pairs of markers
  // ---------------------------------------------------------------------------

  /// The node a pair of row-`d` markers makes of the text between them at [start, end):
  /// the row's kind, holding one PlainText node over the same text.
  function PairNode(d: DefIndex, start: nat, end: nat): AstNode
  {
    AstNode(AstKindOf(DELIMITERS[d].kind), Span(start, end), [Plain(start, end)])
  }

  /// The bytes of `line` in [i, j) are inert.
  predicate InertBetween(line: seq<Byte>, i: nat, j: nat)
    requires i <= j <= |line|
  {
    forall q :: i <= q < j ==> Inert(line[q])
  }

  /// The three parts of a concatenation, found back by their positions.
  lemma ThreeParts(x: seq<Byte>, y: seq<Byte>, z: seq<Byte>)
    ensures var w := x + y + z;
            && w[0..|x|] == x && w[|x|..|x| + |y|] == y && w[|x| + |y|..|w|] == z
            && StartsWith(w, 0, x) && StartsWith(w, |x| + |y|, z)
            && (InertText(x) ==> InertBetween(w, 0, |x|))
            && (InertText(y) ==> InertBetween(w, |x|, |x| + |y|))
            && (InertText(z) ==> InertBetween(w, |x| + |y|, |w|))
  {
    var w := x + y + z;
    assert w[0..|x|] == x;
    assert w[|x| + |y|..|w|] == z;
    assert forall q :: 0 <= q < |x| ==> w[q] == x[q];
    assert forall q :: |x| <= q < |x| + |y| ==> w[q] == y[q - |x|];
    assert forall q :: |x| + |y| <= q < |w| ==> w[q] == z[q - |x| - |y|];
  }

  /// The state after the open marker of row `d` at `s.idx`: the pending text is pushed
  /// and an empty frame of row `d` whose content starts after the marker is put on top.
  function Opened(s: ScanState, d: DefIndex, offset: nat): ScanState
  {
    var p := PushPlain(s.stack, s.nodes, s.lastEmit, s.idx, offset);
    var a := s.idx + |DELIMITERS[d].open|;
    ScanState(a, a, p.1, p.0 + [Delimiter(d, s.idx, a, [])])
  }

  /// The loop at an open marker of row `d` continues from `Opened`.
  lemma OpenStep(line: seq<Byte>, offset: nat, s: ScanState, d: DefIndex)
    requires s.lastEmit <= s.idx
    requires StartsWith(line, s.idx, DELIMITERS[d].open)
    requires |s.stack| == 0 || !StartsWith(line, s.idx, DELIMITERS[s.stack[|s.stack| - 1].defIndex].close)
    ensures s.idx < |line|
    ensures Rest(line, offset, s) == Rest(line, offset, Opened(s, d, offset))
  {
    OpensAt(line, offset, s, d);
    assert Apply(s, Open(d, |DELIMITERS[d].open|), offset) == Opened(s, d, offset);
    RestStep(line, offset, s, Open(d, |DELIMITERS[d].open|));
  }

  /// The loop at the close marker of the innermost open delimiter, of row `d`, continues
  /// from the state that closes it.
  lemma CloseStep(line: seq<Byte>, offset: nat, s: ScanState, d: DefIndex)
    requires s.lastEmit <= s.idx && |s.stack| > 0 && s.stack[|s.stack| - 1].defIndex == d
    requires StartsWith(line, s.idx, DELIMITERS[d].close)
    ensures s.idx < |line|
    ensures Rest(line, offset, s) == Rest(line, offset, Apply(s, Close(d, |DELIMITERS[d].close|), offset))
  {
    ClosesAt(line, offset, s);
    RestStep(line, offset, s, Close(d, |DELIMITERS[d].close|));
  }

  /// The state after the open marker of row `d` at `s.idx` and the text `t` after it.
  function OpenedAt(s: ScanState, d: DefIndex, t: seq<Byte>, offset: nat): ScanState
  {
    Opened(s, d, offset).(idx := s.idx + |DELIMITERS[d].open| + |t|)
  }

  /// The state after a pair of row-`d` markers around the text `t`, opened at `s.idx`:
  /// the pair's node emitted and the scan resumed after the close marker.
  function AfterPair(s: ScanState, d: DefIndex, t: seq<Byte>, offset: nat): ScanState
  {
    var a := s.idx + |DELIMITERS[d].open|;
    var b := a + |t|;
    EmitNode(s, PairNode(d, a + offset, b + offset), b + |DELIMITERS[d].close|, offset)
  }

  /// Opening row `d`, moving over the non-empty text `t` and closing leaves the state that
  /// emitting the pair's node would.
  lemma PairState(s: ScanState, d: DefIndex, t: seq<Byte>, offset: nat)
    requires |t| > 0
    ensures |OpenedAt(s, d, t, offset).stack| > 0
    ensures Apply(OpenedAt(s, d, t, offset), Close(d, |DELIMITERS[d].close|), offset) == AfterPair(s, d, t, offset)
  {
    var a := s.idx + |DELIMITERS[d].open|;
    var b := a + |t|;
    var p := PushPlain(s.stack, s.nodes, s.lastEmit, s.idx, offset);
    var frame := Delimiter(d, s.idx, a, []);
    var plain := Plain(a + offset, b + offset);
    assert (p.0 + [frame])[..|p.0|] == p.0;
    assert frame.children + [plain] == [plain];
    assert PushPlain(p.0 + [frame], p.1, a, b, offset) == (p.0 + [frame.(children := [plain])], p.1);
    assert (p.0 + [frame.(children := [plain])])[..|p.0|] == p.0;
  }

  /// The bytes of `x`, `y` and `z` laid out at `i`: `x` occurs at `i`, the bytes of `y`
  /// follow it (inert when `y` is), and `z` occurs after them.
  lemma SliceParts(line: seq<Byte>, i: nat, x: seq<Byte>, y: seq<Byte>, z: seq<Byte>)
    requires i + |x| + |y| + |z| <= |line| && line[i..i + |x| + |y| + |z|] == x + y + z
    ensures StartsWith(line, i, x)
    ensures InertText(y) ==> InertBetween(line, i + |x|, i + |x| + |y|)
    ensures StartsWith(line, i + |x| + |y|, z)
  {
    var e := i + |x| + |y| + |z|;
    var w := line[i..e];
    assert line[i..i + |x|] == w[..|x|] == x;
    assert line[i + |x| + |y|..e] == w[|x| + |y|..] == z;
    forall q | i + |x| <= q < i + |x| + |y| ensures line[q] == y[q - i - |x|] {
      assert line[q] == w[q - i];
    }
  }

  /// The open marker of row `d` and the inert text `t` after it: the loop continues from
  /// the opened state at the end of the text.
  lemma OpenThenText(line: seq<Byte>, offset: nat, s: ScanState, d: DefIndex, t: seq<Byte>)
    requires s.lastEmit <= s.idx
    requires StartsWith(line, s.idx, DELIMITERS[d].open)
    requires |s.stack| == 0 || !StartsWith(line, s.idx, DELIMITERS[s.stack[|s.stack| - 1].defIndex].close)
    requires s.idx + |DELIMITERS[d].open| + |t| <= |line|
    requires InertBetween(line, s.idx + |DELIMITERS[d].open|, s.idx + |DELIMITERS[d].open| + |t|)
    ensures Rest(line, offset, s) == Rest(line, offset, OpenedAt(s, d, t, offset))
  {
    var s1 := Opened(s, d, offset);
    OpenStep(line, offset, s, d);
    assert s1.lastEmit == s1.idx == s.idx + |DELIMITERS[d].open|;
    InertRun(line, offset, s1, s.idx + |DELIMITERS[d].open| + |t|);
  }

  /// The close marker of row `d` after the non-empty text `t` after its open marker: the
  /// loop continues as after emitting the pair's node.
  lemma CloseAfterText(line: seq<Byte>, offset: nat, s: ScanState, d: DefIndex, t: seq<Byte>)
    requires s.lastEmit <= s.idx && |t| > 0
    requires StartsWith(line, s.idx + |DELIMITERS[d].open| + |t|, DELIMITERS[d].close)
    ensures Rest(line, offset, OpenedAt(s, d, t, offset)) == Rest(line, offset, AfterPair(s, d, t, offset))
  {
    PairState(s, d, t, offset);
    CloseStep(line, offset, OpenedAt(s, d, t, offset), d);
  }

  /// An open marker of row `d`, non-empty inert text and the row's close marker act like
  /// the emission of one node: the pending text is pushed, then the pair's node, and the
  /// scan resumes after the close marker.
  lemma PairFrom(line: seq<Byte>, offset: nat, s: ScanState, d: DefIndex, t: seq<Byte>)
    requires s.lastEmit <= s.idx
    requires |t| > 0 && InertText(t)
    requires var o := DELIMITERS[d].open; var c := DELIMITERS[d].close;
             s.idx + |o| + |t| + |c| <= |line| && line[s.idx..s.idx + |o| + |t| + |c|] == o + t + c
    requires |s.stack| == 0 || !StartsWith(line, s.idx, DELIMITERS[s.stack[|s.stack| - 1].defIndex].close)
    ensures Rest(line, offset, s) == Rest(line, offset, AfterPair(s, d, t, offset))
  {
    SliceParts(line, s.idx, DELIMITERS[d].open, t, DELIMITERS[d].close);
    OpenThenText(line, offset, s, d, t);
    CloseAfterText(line, offset, s, d, t);
  }

  /// The PlainText node over [0, i) that a scan emits before a pair opened at `i`, when
  /// there is any text there.
  function Lead(i: nat, offset: nat): seq<AstNode>
  {
    if i > 0 then [Plain(offset, i + offset)] else []
  }

  /// The state a scan of inert text, a pair of row-`d` markers at `i` around the text `t`
  /// and inert text ends in: the lead text's node and the pair's node emitted, the text
  /// after the pair pending and no delimiter open.
  function PairScanEnd(line: seq<Byte>, i: nat, d: DefIndex, t: seq<Byte>, offset: nat): ScanState
  {
    var a := i + |DELIMITERS[d].open|;
    var b := a + |t|;
    ScanState(|line|, b + |DELIMITERS[d].close|, Lead(i, offset) + [PairNode(d, a + offset, b + offset)], [])
  }

  /// The scan of a line holding inert text, a pair of row-`d` markers at `i` around
  /// non-empty inert text, then inert text, ends with the lead text's node and the pair's
  /// node emitted, the text after the pair pending and no delimiter open.
  lemma PairScan(line: seq<Byte>, offset: nat, i: nat, d: DefIndex, t: seq<Byte>)
    requires |t| > 0 && InertText(t)
    requires i + |DELIMITERS[d].open| + |t| + |DELIMITERS[d].close| <= |line|
    requires InertBetween(line, 0, i)
    requires line[i..i + |DELIMITERS[d].open| + |t| + |DELIMITERS[d].close|] == DELIMITERS[d].open + t + DELIMITERS[d].close
    requires InertBetween(line, i + |DELIMITERS[d].open| + |t| + |DELIMITERS[d].close|, |line|)
    ensures Rest(line, offset, Start()) == Rest(line, offset, PairScanEnd(line, i, d, t, offset))
  {
    var a := i + |DELIMITERS[d].open|;
    var b := a + |t|;
    var e := b + |DELIMITERS[d].close|;
    var s := ScanState(i, 0, [], []);
    assert Start().(idx := i) == s;
    InertRun(line, offset, Start(), i);
    PairFrom(line, offset, s, d, t);
    var node := PairNode(d, a + offset, b + offset);
    var s1 := ScanState(e, e, Lead(i, offset) + [node], []);
    assert AfterPair(s, d, t, offset) == s1;
    InertRun(line, offset, s1, |line|);
    assert s1.(idx := |line|) == PairScanEnd(line, i, d, t, offset);
  }

  /// Inert text, a pair of row-`d` markers around non-empty inert text, then inert text:
  /// a PlainText node over the text before (when there is any), the pair's node, and a
  /// PlainText node over the text after (when there is any).
  lemma TextAroundPair(before: seq<Byte>, t: seq<Byte>, after: seq<Byte>, d: DefIndex, offset: nat)
    requires InertText(before) && |t| > 0 && InertText(t) && InertText(after)
    ensures var o := DELIMITERS[d].open; var c := DELIMITERS[d].close;
            var line := before + (o + t + c) + after;
            var a := |before| + |o|; var b := a + |t|; var e := b + |c|;
            Inlines(line, offset)
              == (if |before| > 0 then [Plain(offset, |before| + offset)] else [])
                 + [PairNode(d, a + offset, b + offset)]
                 + (if |after| > 0 then [Plain(e + offset, |line| + offset)] else [])
  {
    var o := DELIMITERS[d].open;
    var c := DELIMITERS[d].close;
    var line := before + (o + t + c) + after;
    var a := |before| + |o|;
    var b := a + |t|;
    var e := b + |c|;
    ThreeParts(before, o + t + c, after);
    PairScan(line, offset, |before|, d, t);
    InlinesAfterScan(line, offset, PairScanEnd(line, |before|, d, t, offset));
  }

  /// A line made of a pair of row-`d` markers around non-empty inert text is one node of
  /// the row's kind over the text, holding one PlainText node over the same text.
  lemma PairedLine(t: seq<Byte>, d: DefIndex, offset: nat)
    requires |t| > 0 && InertText(t)
    ensures var o := DELIMITERS[d].open;
            Inlines(o + t + DELIMITERS[d].close, offset)
              == [AstNode(AstKindOf(DELIMITERS[d].kind), Span(|o| + offset, |o| + |t| + offset),
                          [Plain(|o| + offset, |o| + |t| + offset)])]
  {
    var o := DELIMITERS[d].open;
    var c := DELIMITERS[d].close;
    TextAroundPair([], t, [], d, offset);
    assert [] + (o + t + c) + [] == o + t + c;
  }

  /// The PlainText node over [i, j) that a scan emits between two pairs, when there is
  /// any text there.
  function Between(i: nat, j: nat, offset: nat): seq<AstNode>
  {
    if i < j then [Plain(i + offset, j + offset)] else []
  }

  /// The state a scan of two pairs ends in: both pairs' nodes emitted around a PlainText
  /// node over the text between them (when there is any), and no delimiter open.
  function TwoPairsEnd(line: seq<Byte>, d1: DefIndex, t1: seq<Byte>, m: nat, d2: DefIndex, t2: seq<Byte>, offset: nat)
    : ScanState
  {
    var a1 := |DELIMITERS[d1].open|;
    var a2 := m + |DELIMITERS[d2].open|;
    ScanState(|line|, |line|,
              [PairNode(d1, a1 + offset, a1 + |t1| + offset)] + Between(a1 + |t1| + |DELIMITERS[d1].close|, m, offset)
              + [PairNode(d2, a2 + offset, a2 + |t2| + offset)], [])
  }

  /// The state after the first of two pairs: its node emitted and no delimiter open.
  function FirstPairEnd(d1: DefIndex, t1: seq<Byte>, offset: nat): ScanState
  {
    var a1 := |DELIMITERS[d1].open|;
    var e1 := a1 + |t1| + |DELIMITERS[d1].close|;
    ScanState(e1, e1, [PairNode(d1, a1 + offset, a1 + |t1| + offset)], [])
  }

  /// A first pair at the start of a line ends in `FirstPairEnd`.
  lemma FirstPairState(d1: DefIndex, t1: seq<Byte>, offset: nat)
    ensures AfterPair(Start(), d1, t1, offset) == FirstPairEnd(d1, t1, offset)
  {
  }

  /// A second pair opened at `m`, after the first pair and inert text, ends in
  /// `TwoPairsEnd` when it ends the line.
  lemma SecondPairState(line: seq<Byte>, d1: DefIndex, t1: seq<Byte>, m: nat, d2: DefIndex, t2: seq<Byte>, offset: nat)
    requires |DELIMITERS[d1].open| + |t1| + |DELIMITERS[d1].close| <= m
    requires m + |DELIMITERS[d2].open| + |t2| + |DELIMITERS[d2].close| == |line|
    ensures AfterPair(FirstPairEnd(d1, t1, offset).(idx := m), d2, t2, offset) == TwoPairsEnd(line, d1, t1, m, d2, t2, offset)
  {
  }

  /// The scan of a line holding a pair of row-`d1` markers at the start, inert text up to
  /// `m`, and a pair of row-`d2` markers ending the line, ends in `TwoPairsEnd`.
  lemma TwoPairsScan(line: seq<Byte>, offset: nat, d1: DefIndex, t1: seq<Byte>, m: nat, d2: DefIndex, t2: seq<Byte>)
    requires |t1| > 0 && InertText(t1) && |t2| > 0 && InertText(t2)
    requires var e1 := |DELIMITERS[d1].open| + |t1| + |DELIMITERS[d1].close|;
             && e1 <= m && m + |DELIMITERS[d2].open| + |t2| + |DELIMITERS[d2].close| == |line|
             && line[0..e1] == DELIMITERS[d1].open + t1 + DELIMITERS[d1].close
             && InertBetween(line, e1, m)
             && line[m..|line|] == DELIMITERS[d2].open + t2 + DELIMITERS[d2].close
    ensures Rest(line, offset, Start()) == Rest(line, offset, TwoPairsEnd(line, d1, t1, m, d2, t2, offset))
  {
    PairFrom(line, offset, Start(), d1, t1);
    FirstPairState(d1, t1, offset);
    var s1 := FirstPairEnd(d1, t1, offset);
    InertRun(line, offset, s1, m);
    PairFrom(line, offset, s1.(idx := m), d2, t2);
    SecondPairState(line, d1, t1, m, d2, t2, offset);
  }

  /// The line of `TwoPairs`: a pair of row-`d1` markers around `t1`, the text `mid`, and a
  /// pair of row-`d2` markers around `t2`.
  function TwoPairsLine(t1: seq<Byte>, d1: DefIndex, mid: seq<Byte>, t2: seq<Byte>, d2: DefIndex): seq<Byte>
  {
    (DELIMITERS[d1].open + t1 + DELIMITERS[d1].close) + mid + (DELIMITERS[d2].open + t2 + DELIMITERS[d2].close)
  }

  /// The scan of two pairs with inert text between them ends in `TwoPairsEnd`.
  lemma TwoPairsRest(t1: seq<Byte>, d1: DefIndex, mid: seq<Byte>, t2: seq<Byte>, d2: DefIndex, offset: nat, m: nat)
    requires |t1| > 0 && InertText(t1) && InertText(mid) && |t2| > 0 && InertText(t2)
    requires m == |DELIMITERS[d1].open| + |t1| + |DELIMITERS[d1].close| + |mid|
    ensures Rest(TwoPairsLine(t1, d1, mid, t2, d2), offset, Start())
              == Rest(TwoPairsLine(t1, d1, mid, t2, d2), offset, TwoPairsEnd(TwoPairsLine(t1, d1, mid, t2, d2), d1, t1, m, d2, t2, offset))
  {
    var x := DELIMITERS[d1].open + t1 + DELIMITERS[d1].close;
    var y := DELIMITERS[d2].open + t2 + DELIMITERS[d2].close;
    var e1 := |DELIMITERS[d1].open| + |t1| + |DELIMITERS[d1].close|;
    assert |x| == e1;
    ThreeParts(x, mid, y);
    var line := TwoPairsLine(t1, d1, mid, t2, d2);
    assert line == x + mid + y;
    assert line[0..e1] == x;
    assert InertBetween(line, e1, m);
    TwoPairsScan(line, offset, d1, t1, m, d2, t2);
  }

  /// Two pairs with inert text between them: the first pair's node, a PlainText node over
  /// the text between (when there is any), and the second pair's node.
  lemma TwoPairs(t1: seq<Byte>, d1: DefIndex, mid: seq<Byte>, t2: seq<Byte>, d2: DefIndex, offset: nat)
    requires |t1| > 0 && InertText(t1) && InertText(mid) && |t2| > 0 && InertText(t2)
    ensures var o1 := DELIMITERS[d1].open; var c1 := DELIMITERS[d1].close;
            var o2 := DELIMITERS[d2].open; var c2 := DELIMITERS[d2].close;
            var line := (o1 + t1 + c1) + mid + (o2 + t2 + c2);
            var e1 := |o1| + |t1| + |c1|; var a2 := e1 + |mid| + |o2|;
            Inlines(line, offset)
              == [PairNode(d1, |o1| + offset, |o1| + |t1| + offset)]
                 + (if |mid| > 0 then [Plain(e1 + offset, e1 + |mid| + offset)] else [])
                 + [PairNode(d2, a2 + offset, a2 + |t2| + offset)]
  {
    var line := TwoPairsLine(t1, d1, mid, t2, d2);
    var m := |DELIMITERS[d1].open| + |t1| + |DELIMITERS[d1].close| + |mid|;
    TwoPairsRest(t1, d1, mid, t2, d2, offset, m);
    InlinesAfterScan(line, offset, TwoPairsEnd(line, d1, t1, m, d2, t2, offset));
  }

  /// The state a scan of a pair nested in a pair ends in: one node of `d1`'s kind holding
  /// the inner pair's node, and no delimiter open.
  function NestedEnd(line: seq<Byte>, d1: DefIndex, d2: DefIndex, t: seq<Byte>, offset: nat): ScanState
  {
    var a1 := |DELIMITERS[d1].open|;
    var a := a1 + |DELIMITERS[d2].open|;
    var b := a + |t|;
    var outer := AstNode(AstKindOf(DELIMITERS[d1].kind), Span(a1 + offset, b + |DELIMITERS[d2].close| + offset),
                         [PairNode(d2, a + offset, b + offset)]);
    ScanState(|line|, |line|, [outer], [])
  }

  /// The state after the outer open marker at the start of a line.
  function OuterOpened(d1: DefIndex): ScanState
  {
    var a1 := |DELIMITERS[d1].open|;
    ScanState(a1, a1, [], [Delimiter(d1, 0, a1, [])])
  }

  /// The state after the inner pair: its node collected by the outer frame.
  function InnerClosed(d1: DefIndex, d2: DefIndex, t: seq<Byte>, offset: nat): ScanState
  {
    var a1 := |DELIMITERS[d1].open|;
    var a := a1 + |DELIMITERS[d2].open|;
    var b := a + |t|;
    var e2 := b + |DELIMITERS[d2].close|;
    ScanState(e2, e2, [], [Delimiter(d1, 0, a1, [PairNode(d2, a + offset, b + offset)])])
  }

  /// The outer open marker at the start of a line leaves `OuterOpened`.
  lemma OuterOpenState(d1: DefIndex, offset: nat)
    ensures Opened(Start(), d1, offset) == OuterOpened(d1)
  {
  }

  /// The inner pair right after the outer open marker leaves `InnerClosed`.
  lemma InnerPairState(d1: DefIndex, d2: DefIndex, t: seq<Byte>, offset: nat)
    ensures AfterPair(OuterOpened(d1), d2, t, offset) == InnerClosed(d1, d2, t, offset)
  {
    var inner := PairNode(d2, |DELIMITERS[d1].open| + |DELIMITERS[d2].open| + offset,
                          |DELIMITERS[d1].open| + |DELIMITERS[d2].open| + |t| + offset);
    var frame := Delimiter(d1, 0, |DELIMITERS[d1].open|, []);
    assert [frame][..0] == [] && frame.children + [inner] == [inner];
  }

  /// The outer close marker after the inner pair, ending the line, leaves `NestedEnd`.
  lemma OuterCloseState(line: seq<Byte>, d1: DefIndex, d2: DefIndex, t: seq<Byte>, offset: nat)
    requires InnerClosed(d1, d2, t, offset).idx + |DELIMITERS[d1].close| == |line|
    ensures Apply(InnerClosed(d1, d2, t, offset), Close(d1, |DELIMITERS[d1].close|), offset) == NestedEnd(line, d1, d2, t, offset)
  {
  }

  /// The scan of a line holding a pair of row-`d2` markers around non-empty inert text
  /// directly inside a pair of row-`d1` markers ends in `NestedEnd`, provided the inner
  /// open marker does not start like the outer close marker.
  lemma NestedScan(line: seq<Byte>, offset: nat, d1: DefIndex, d2: DefIndex, t: seq<Byte>)
    requires |t| > 0 && InertText(t)
    requires DELIMITERS[d2].open[0] != DELIMITERS[d1].close[0]
    requires var a1 := |DELIMITERS[d1].open|;
             var e2 := a1 + |DELIMITERS[d2].open| + |t| + |DELIMITERS[d2].close|;
             && e2 + |DELIMITERS[d1].close| == |line|
             && StartsWith(line, 0, DELIMITERS[d1].open)
             && line[a1..e2] == DELIMITERS[d2].open + t + DELIMITERS[d2].close
             && StartsWith(line, e2, DELIMITERS[d1].close)
    ensures Rest(line, offset, Start()) == Rest(line, offset, NestedEnd(line, d1, d2, t, offset))
  {
    var a1 := |DELIMITERS[d1].open|;
    var e2 := a1 + |DELIMITERS[d2].open| + |t| + |DELIMITERS[d2].close|;
    MarkerFirstBytes(d2);
    MarkerFirstBytes(d1);
    OpenStep(line, offset, Start(), d1);
    OuterOpenState(d1, offset);
    assert line[a1] == DELIMITERS[d2].open[0] by {
      assert line[a1..e2][0] == DELIMITERS[d2].open[0];
    }
    StartsWithFirst(line, a1, DELIMITERS[d1].close);
    PairFrom(line, offset, OuterOpened(d1), d2, t);
    InnerPairState(d1, d2, t, offset);
    CloseStep(line, offset, InnerClosed(d1, d2, t, offset), d1);
    OuterCloseState(line, d1, d2, t, offset);
  }

  /// A pair of row-`d2` markers nested directly inside a pair of row-`d1` markers, around
  /// non-empty inert text: one node of `d1`'s kind holding one node of `d2`'s kind, which
  /// holds one PlainText node over the text; provided the inner open marker does not start
  /// like the outer close marker.
  lemma NestedPairs(t: seq<Byte>, d1: DefIndex, d2: DefIndex, offset: nat)
    requires |t| > 0 && InertText(t)
    requires DELIMITERS[d2].open[0] != DELIMITERS[d1].close[0]
    ensures var o1 := DELIMITERS[d1].open; var c1 := DELIMITERS[d1].close;
            var o2 := DELIMITERS[d2].open; var c2 := DELIMITERS[d2].close;
            var a := |o1| + |o2|; var b := a + |t|;
            Inlines(o1 + (o2 + t + c2) + c1, offset)
              == [AstNode(AstKindOf(DELIMITERS[d1].kind), Span(|o1| + offset, b + |c2| + offset),
                          [PairNode(d2, a + offset, b + offset)])]
  {
    var o1 := DELIMITERS[d1].open;
    var c1 := DELIMITERS[d1].close;
    var o2 := DELIMITERS[d2].open;
    var c2 := DELIMITERS[d2].close;
    var line := o1 + (o2 + t + c2) + c1;
    var a := |o1| + |o2|;
    var b := a + |t|;
    ThreeParts(o1, o2 + t + c2, c1);
    NestedScan(line, offset, d1, d2, t);
    InlinesAfterScan(line, offset, NestedEnd(line, d1, d2, t, offset));
  }

  // ---------------------------------------------------------------------------
  // Lines with one emitted node: code spans, math, links and images
  // ---------------------------------------------------------------------------

  /// `t` does not hold the byte `b`.
  predicate Without(t: seq<Byte>, b: Byte)
  {
    forall i :: 0 <= i < |t| ==> t[i] != b
  }

  /// Inert text, a construct at `i` that the loop emits as one node resuming at `next`,
  /// then inert text: the lead text's node, that node, and the trailing text's node.
  lemma EmitScan(line: seq<Byte>, offset: nat, i: nat, node: AstNode, next: nat)
    requires i < next <= |line|
    requires InertBetween(line, 0, i) && InertBetween(line, next, |line|)
    requires NextAction(line, offset, ScanState(i, 0, [], [])) == Emit(node, next)
    ensures Inlines(line, offset) == Lead(i, offset) + [node] + Between(next, |line|, offset)
  {
    var s := ScanState(i, 0, [], []);
    assert Start().(idx := i) == s;
    InertRun(line, offset, Start(), i);
    RestStep(line, offset, s, Emit(node, next));
    var s1 := ScanState(next, next, Lead(i, offset) + [node], []);
    assert EmitNode(s, node, next, offset) == s1;
    InertRun(line, offset, s1, |line|);
    InlinesAfterScan(line, offset, s1.(idx := |line|));
  }

  /// At a backtick the loop emits the code span that the backtick run opens: a childless
  /// Code node over the span's content, resuming where the span ends.
  lemma CodeAt(line: seq<Byte>, offset: nat, s: ScanState)
    requires s.idx < |line| && line[s.idx] == BACKTICK
    ensures var c := BacktickSpan(line, s.idx).value;
            NextAction(line, offset, s) == Emit(AstNode(Code, Span(c.start + offset, c.end + offset), []), c.next)
  {
    assert LinkOrImage(line, s.idx, offset).None?;
    assert NextAction(line, offset, s) == AfterLink(line, offset, s);
  }

  /// The search for a closing backtick run moves past bytes that are not backticks.
  lemma {:induction false} CloserSkips(line: seq<Byte>, i: nat, j: nat, run: nat)
    requires run > 0 && i <= j <= |line|
    requires forall q :: i <= q < j ==> line[q] != BACKTICK
    ensures BacktickCloser(line, i, run) == BacktickCloser(line, j, run)
    decreases j - i
  {
    if i < j {
      CloserSkips(line, i + 1, j, run);
    }
  }

  /// `n` bytes without backticks between two backticks at `i`, no other backtick right
  /// after the second, and not a lone space between them.
  predicate TickedAt(line: seq<Byte>, i: nat, n: nat)
  {
    && 0 < n && i + n + 2 <= |line|
    && line[i] == BACKTICK && line[i + n + 1] == BACKTICK
    && (forall q :: i < q <= i + n ==> line[q] != BACKTICK)
    && !(n == 1 && line[i + 1] == SPACE)
    && (i + n + 2 == |line| || line[i + n + 2] != BACKTICK)
  }

  /// The backtick runs around ticked text: one backtick opens, the closing backtick is the
  /// first run of one, and neither trimming rule applies.
  lemma TickedRuns(line: seq<Byte>, i: nat, n: nat)
    requires TickedAt(line, i, n)
    ensures var e := i + 1 + n;
            && BacktickRun(line, i) == 1
            && BacktickCloser(line, i + 1, 1) == (e, 1)
            && !(line[i + 1] == SPACE && line[i + 2] == BACKTICK)
            && (e >= i + 3 ==> line[e - 2] != BACKTICK)
  {
    var e := i + 1 + n;
    assert BacktickRun(line, i + 1) == 0;
    assert BacktickRun(line, i) == 1;
    CloserSkips(line, i + 1, e, 1);
    assert BacktickRun(line, e + 1) == 0;
    assert BacktickCloser(line, e, 1) == (e, 1);
  }

  /// Ticked text is a code span over exactly the text, resuming after the closing
  /// backtick.
  lemma TickedSpan(line: seq<Byte>, i: nat, n: nat)
    requires TickedAt(line, i, n)
    ensures BacktickSpan(line, i) == Some(CodeSpan(i + 1, i + 1 + n, i + n + 2))
  {
    TickedRuns(line, i, n);
  }

  /// A backtick, non-empty text without backticks (other than a lone space) and a backtick
  /// is one childless Code node over exactly the text.
  lemma CodeLine(t: seq<Byte>, offset: nat)
    requires |t| > 0 && Without(t, BACKTICK) && t != [SPACE]
    ensures Inlines([BACKTICK] + t + [BACKTICK], offset) == [AstNode(Code, Span(1 + offset, 1 + |t| + offset), [])]
  {
    var line := [BACKTICK] + t + [BACKTICK];
    assert forall q :: 0 < q <= |t| ==> line[q] == t[q - 1];
    assert |t| == 1 ==> t == [t[0]];
    TickedSpan(line, 0, |t|);
    CodeOnly(line, offset);
  }

  /// A backtick that no closing backtick follows opens a code span to the end of the line:
  /// the line is one childless Code node over everything after the backtick.
  lemma UnterminatedCode(t: seq<Byte>, offset: nat)
    requires Without(t, BACKTICK)
    ensures Inlines([BACKTICK] + t, offset) == [AstNode(Code, Span(1 + offset, 1 + |t| + offset), [])]
  {
    var line := [BACKTICK] + t;
    assert forall q :: 1 <= q < |line| ==> line[q] == t[q - 1];
    assert BacktickRun(line, 1) == 0;
    assert BacktickRun(line, 0) == 1;
    CloserSkips(line, 1, |line|, 1);
    assert BacktickSpan(line, 0) == Some(CodeSpan(1, |line|, |line|));
    CodeAt(line, offset, ScanState(0, 0, [], []));
    EmitScan(line, offset, 0, AstNode(Code, Span(1 + offset, 1 + |t| + offset), []), |line|);
  }

  /// A line that one code span opened at its start covers entirely is one childless
  /// Code node over the span's content.
  lemma CodeOnly(line: seq<Byte>, offset: nat)
    requires |line| > 0 && line[0] == BACKTICK && BacktickSpan(line, 0).value.next == |line|
    ensures var c := BacktickSpan(line, 0).value;
            Inlines(line, offset) == [AstNode(Code, Span(c.start + offset, c.end + offset), [])]
  {
    var c := BacktickSpan(line, 0).value;
    CodeAt(line, offset, ScanState(0, 0, [], []));
    EmitScan(line, offset, 0, AstNode(Code, Span(c.start + offset, c.end + offset), []), |line|);
  }

  /// The code span of `BacktickInsideCode`'s line.
  lemma BacktickInsideSpan(x: seq<Byte>, y: seq<Byte>)
    requires |x| > 0 && Without(x, BACKTICK) && x[0] != SPACE
    requires |y| > 0 && Without(y, BACKTICK) && y[|y| - 1] != SPACE
    ensures var line := [BACKTICK, BACKTICK] + x + [BACKTICK] + y + [BACKTICK, BACKTICK];
            BacktickSpan(line, 0) == Some(CodeSpan(2, 3 + |x| + |y|, |line|))
  {
    var line := [BACKTICK, BACKTICK] + x + [BACKTICK] + y + [BACKTICK, BACKTICK];
    var m := 2 + |x|;
    var e := m + 1 + |y|;
    assert forall q :: 2 <= q < m ==> line[q] == x[q - 2];
    assert forall q :: m + 1 <= q < e ==> line[q] == y[q - m - 1];
    assert line[m] == BACKTICK && line[e] == BACKTICK && line[e + 1] == BACKTICK && |line| == e + 2;
    assert BacktickRun(line, 0) == 2 by {
      assert BacktickRun(line, 2) == 0;
    }
    CloserSkips(line, 2, m, 2);
    assert BacktickRun(line, m) == 1 by {
      assert BacktickRun(line, m + 1) == 0;
    }
    CloserSkips(line, m + 1, e, 2);
    assert BacktickRun(line, e) == 2 by {
      assert BacktickRun(line, e + 2) == 0;
    }
  }

  /// Two backticks, text without backticks holding one backtick in its middle, and two
  /// backticks: the single backtick does not close the span, and the line is one childless
  /// Code node over everything between the outer pairs.
  lemma BacktickInsideCode(x: seq<Byte>, y: seq<Byte>, offset: nat)
    requires |x| > 0 && Without(x, BACKTICK) && x[0] != SPACE
    requires |y| > 0 && Without(y, BACKTICK) && y[|y| - 1] != SPACE
    ensures Inlines([BACKTICK, BACKTICK] + x + [BACKTICK] + y + [BACKTICK, BACKTICK], offset)
              == [AstNode(Code, Span(2 + offset, 3 + |x| + |y| + offset), [])]
  {
    BacktickInsideSpan(x, y);
    CodeOnly([BACKTICK, BACKTICK] + x + [BACKTICK] + y + [BACKTICK, BACKTICK], offset);
  }

  /// The code span of `PaddedCode`'s line.
  lemma PaddedSpan(x: seq<Byte>)
    requires |x| > 0 && Without(x, BACKTICK)
    ensures var line := [BACKTICK, BACKTICK, SPACE, BACKTICK] + x + [BACKTICK, SPACE, BACKTICK, BACKTICK];
            BacktickSpan(line, 0) == Some(CodeSpan(3, 5 + |x|, |line|))
  {
    var line := [BACKTICK, BACKTICK, SPACE, BACKTICK] + x + [BACKTICK, SPACE, BACKTICK, BACKTICK];
    var e := 4 + |x|;
    assert forall q :: 4 <= q < e ==> line[q] == x[q - 4];
    assert line[e] == BACKTICK && line[e + 1] == SPACE && line[e + 2] == BACKTICK && line[e + 3] == BACKTICK;
    assert |line| == e + 4;
    assert BacktickRun(line, 0) == 2 by {
      assert BacktickRun(line, 2) == 0;
    }
    assert BacktickRun(line, 3) == 1 by {
      assert BacktickRun(line, 4) == 0;
    }
    assert BacktickCloser(line, 2, 2) == BacktickCloser(line, 3, 2) == BacktickCloser(line, 4, 2);
    CloserSkips(line, 4, e, 2);
    assert BacktickRun(line, e) == 1 by {
      assert BacktickRun(line, e + 1) == 0;
    }
    assert BacktickRun(line, e + 2) == 2 by {
      assert BacktickRun(line, e + 4) == 0;
    }
    assert BacktickCloser(line, e, 2) == BacktickCloser(line, e + 1, 2) == BacktickCloser(line, e + 2, 2) == (e + 2, 2);
  }

  /// Two backticks and a space, a backtick, text without backticks, a backtick, and a
  /// space and two backticks: the spaces that separate the content's own backticks from
  /// the delimiters are trimmed, and the line is one childless Code node from the inner
  /// opening backtick through the inner closing one.
  lemma PaddedCode(x: seq<Byte>, offset: nat)
    requires |x| > 0 && Without(x, BACKTICK)
    ensures Inlines([BACKTICK, BACKTICK, SPACE, BACKTICK] + x + [BACKTICK, SPACE, BACKTICK, BACKTICK], offset)
              == [AstNode(Code, Span(3 + offset, 5 + |x| + offset), [])]
  {
    PaddedSpan(x);
    CodeOnly([BACKTICK, BACKTICK, SPACE, BACKTICK] + x + [BACKTICK, SPACE, BACKTICK, BACKTICK], offset);
  }

  /// The `$` or `$$` that opens math.
  function Dollars(double: bool): seq<Byte>
  {
    if double then [DOLLAR, DOLLAR] else [DOLLAR]
  }

  /// The node math over [c, c + n) is: MathDisplay after `$$`, MathInline after `$`,
  /// without children.
  function MathNode(double: bool, c: nat, n: nat, offset: nat): AstNode
  {
    AstNode(if double then MathDisplay else MathInline, Span(c + offset, c + n + offset), [])
  }

  /// At `$` (or `$$`) directly followed by a code span over [cs + 1, cs + 1 + n) that
  /// resumes at cs + n + 2, the loop emits the math node over that content and resumes
  /// there too.
  lemma MathAt(line: seq<Byte>, offset: nat, i: nat, double: bool, n: nat)
    requires var cs := i + |Dollars(double)|;
             && cs < |line| && line[i] == DOLLAR && (double <==> line[i + 1] == DOLLAR)
             && BacktickSpan(line, cs) == Some(CodeSpan(cs + 1, cs + 1 + n, cs + n + 2))
    ensures var cs := i + |Dollars(double)|;
            NextAction(line, offset, ScanState(i, 0, [], [])) == Emit(MathNode(double, cs + 1, n, offset), cs + n + 2)
  {
    assert MathRun(line, i) == |Dollars(double)|;
    MathAfterLink(line, offset, ScanState(i, 0, [], []), double, n);
  }

  /// The link branch passes over a `$`, and the math branch emits once the run of dollars
  /// is known.
  lemma MathAfterLink(line: seq<Byte>, offset: nat, s: ScanState, double: bool, n: nat)
    requires var cs := s.idx + |Dollars(double)|;
             && cs < |line| && line[s.idx] == DOLLAR && MathRun(line, s.idx) == |Dollars(double)|
             && BacktickSpan(line, cs) == Some(CodeSpan(cs + 1, cs + 1 + n, cs + n + 2))
    ensures var cs := s.idx + |Dollars(double)|;
            NextAction(line, offset, s) == Emit(MathNode(double, cs + 1, n, offset), cs + n + 2)
  {
    assert LinkOrImage(line, s.idx, offset).None?;
  }

  /// The line of `MathAround`.
  function MathLine(before: seq<Byte>, double: bool, t: seq<Byte>, after: seq<Byte>): seq<Byte>
  {
    before + (Dollars(double) + ([BACKTICK] + t + [BACKTICK])) + after
  }

  /// Where the parts of a `MathLine` lie.
  lemma MathLineParts(before: seq<Byte>, double: bool, t: seq<Byte>, after: seq<Byte>)
    requires InertText(before) && InertText(after)
    requires |t| > 0 && Without(t, BACKTICK) && t != [SPACE]
    ensures var line := MathLine(before, double, t, after);
            var i := |before|;
            var cs := i + |Dollars(double)|;
            && line[i] == DOLLAR && (double <==> line[i + 1] == DOLLAR)
            && TickedAt(line, cs, |t|)
            && InertBetween(line, 0, i) && InertBetween(line, cs + |t| + 2, |line|)
  {
    var dl := |Dollars(double)|;
    var ticked := [BACKTICK] + t + [BACKTICK];
    var y := Dollars(double) + ticked;
    var line := before + y + after;
    var i := |before|;
    var cs := i + dl;
    var e := cs + |t| + 2;
    ThreeParts(before, y, after);
    assert line[cs..e] == ticked by {
      assert line[i..i + |y|][dl..] == line[cs..e];
    }
    assert line[i] == DOLLAR && (double <==> line[i + 1] == DOLLAR) by {
      assert line[i..i + |y|][0] == line[i] && line[i..i + |y|][1] == line[i + 1];
    }
    assert TickedAt(line, cs, |t|) by {
      assert forall q :: cs < q <= cs + |t| ==> line[q] == line[cs..e][q - cs] == t[q - cs - 1];
      assert line[cs] == line[cs..e][0] && line[cs + |t| + 1] == line[cs..e][|t| + 1];
      assert |t| == 1 ==> t == [t[0]];
    }
  }

  /// At `$` (or `$$`) directly followed by a backtick, non-empty text without backticks
  /// (other than a lone space) and a backtick that no other backtick follows, the loop
  /// emits the math node over exactly the text and resumes after the closing backtick.
  lemma MathTicked(line: seq<Byte>, offset: nat, i: nat, double: bool, n: nat)
    requires TickedAt(line, i + |Dollars(double)|, n)
    requires line[i] == DOLLAR && (double <==> line[i + 1] == DOLLAR)
    ensures var cs := i + |Dollars(double)|;
            NextAction(line, offset, ScanState(i, 0, [], [])) == Emit(MathNode(double, cs + 1, n, offset), cs + n + 2)
  {
    TickedSpan(line, i + |Dollars(double)|, n);
    MathAt(line, offset, i, double, n);
  }

  /// The scan of a line of inert text, math at `i` over `t`, then inert text.
  lemma MathScan(line: seq<Byte>, offset: nat, i: nat, double: bool, n: nat)
    requires TickedAt(line, i + |Dollars(double)|, n)
    requires line[i] == DOLLAR && (double <==> line[i + 1] == DOLLAR)
    requires InertBetween(line, 0, i) && InertBetween(line, i + |Dollars(double)| + n + 2, |line|)
    ensures var cs := i + |Dollars(double)|;
            Inlines(line, offset)
              == Lead(i, offset) + [MathNode(double, cs + 1, n, offset)] + Between(cs + n + 2, |line|, offset)
  {
    var cs := i + |Dollars(double)|;
    MathTicked(line, offset, i, double, n);
    EmitScan(line, offset, i, MathNode(double, cs + 1, n, offset), cs + n + 2);
  }

  /// `$` or `$$` and a backtick, non-empty text without backticks (other than a lone
  /// space) and a backtick, between inert text: the lead text's node, a childless
  /// MathDisplay (after `$$`) or MathInline (after `$`) node over exactly the text, and
  /// the trailing text's node.
  lemma MathAround(before: seq<Byte>, double: bool, t: seq<Byte>, after: seq<Byte>, offset: nat)
    requires InertText(before) && InertText(after)
    requires |t| > 0 && Without(t, BACKTICK) && t != [SPACE]
    ensures var cs := |before| + |Dollars(double)|;
            var line := MathLine(before, double, t, after);
            Inlines(line, offset)
              == Lead(|before|, offset) + [MathNode(double, cs + 1, |t|, offset)] + Between(cs + |t| + 2, |line|, offset)
  {
    MathLineParts(before, double, t, after);
    MathScan(MathLine(before, double, t, after), offset, |before|, double, |t|);
  }

  /// `FirstIndexOf` finds `target` at `j` when it holds nowhere in [i, j).
  lemma {:induction false} FindsAt(bytes: seq<Byte>, i: nat, j: nat, target: Byte)
    requires i <= j < |bytes| && bytes[j] == target
    requires forall q :: i <= q < j ==> bytes[q] != target
    ensures FirstIndexOf(bytes, i, target) == Some(j)
    decreases j - i
  {
    if i < j {
      FindsAt(bytes, i + 1, j, target);
    }
  }

  /// The opener of an image (`![`) or a link (`[`).
  function Opener(image: bool): seq<Byte>
  {
    if image then [BANG, LBRACKET] else [LBRACKET]
  }

  /// A link or image opener at 0, a label [a, b) free of `]` and a destination (b + 2, de)
  /// free of `)`, neither with whitespace at its ends: the recognizer gives the node over
  /// the label with the destination's span, resuming after the `)`.
  lemma LinkAt(line: seq<Byte>, offset: nat, image: bool, b: nat, de: nat)
    requires |Opener(image)| < b && b + 2 < de < |line|
    requires image ==> line[0] == BANG && line[1] == LBRACKET
    requires !image ==> line[0] == LBRACKET
    requires forall q :: |Opener(image)| <= q < b ==> line[q] != RBRACKET
    requires line[b] == RBRACKET && line[b + 1] == LPAREN
    requires forall q :: b + 2 <= q < de ==> line[q] != RPAREN
    requires line[de] == RPAREN
    requires !IsAsciiWs(line[|Opener(image)|]) && !IsAsciiWs(line[b - 1])
    requires !IsAsciiWs(line[b + 2]) && !IsAsciiWs(line[de - 1])
    ensures LinkOrImage(line, 0, offset) == Some((LinkNode(image, |Opener(image)|, b, b + 2, de, offset), de + 1))
  {
    var a := |Opener(image)|;
    FindsAt(line, a, b, RBRACKET);
    FindsAt(line, b + 2, de, RPAREN);
    assert TrimStart(line, b + 2, de) == b + 2 && TrimEnd(line, b + 2, de) == de;
    assert TrimStart(line, a, b) == a && TrimEnd(line, a, b) == b;
    assert LinkAfterLabel(line, image, a, b, offset) == Some((LinkNode(image, a, b, b + 2, de, offset), de + 1));
    assert LinkAfterOpener(line, image, a, offset) == LinkAfterLabel(line, image, a, b, offset);
  }

  /// The line of `LinkLine`.
  function LinkText(image: bool, text: seq<Byte>, dest: seq<Byte>): seq<Byte>
  {
    Opener(image) + text + [RBRACKET, LPAREN] + dest + [RPAREN]
  }

  /// Where the parts of a `LinkText` lie.
  lemma LinkTextParts(image: bool, text: seq<Byte>, dest: seq<Byte>)
    ensures var line := LinkText(image, text, dest);
            var a := |Opener(image)|; var b := a + |text|; var de := b + 2 + |dest|;
            && |line| == de + 1
            && (image ==> line[0] == BANG && line[1] == LBRACKET)
            && (!image ==> line[0] == LBRACKET)
            && (forall q :: a <= q < b ==> line[q] == text[q - a])
            && line[b] == RBRACKET && line[b + 1] == LPAREN
            && (forall q :: b + 2 <= q < de ==> line[q] == dest[q - b - 2])
            && line[de] == RPAREN
  {
  }

  /// The scan of a line that is one link or image.
  lemma LinkScan(line: seq<Byte>, offset: nat, image: bool, b: nat)
    requires |Opener(image)| < b && b + 3 < |line|
    requires image ==> line[0] == BANG && line[1] == LBRACKET
    requires !image ==> line[0] == LBRACKET
    requires forall q :: |Opener(image)| <= q < b ==> line[q] != RBRACKET
    requires line[b] == RBRACKET && line[b + 1] == LPAREN
    requires forall q :: b + 2 <= q < |line| - 1 ==> line[q] != RPAREN
    requires line[|line| - 1] == RPAREN
    requires !IsAsciiWs(line[|Opener(image)|]) && !IsAsciiWs(line[b - 1])
    requires !IsAsciiWs(line[b + 2]) && !IsAsciiWs(line[|line| - 2])
    ensures Inlines(line, offset) == [LinkNode(image, |Opener(image)|, b, b + 2, |line| - 1, offset)]
  {
    var node := LinkNode(image, |Opener(image)|, b, b + 2, |line| - 1, offset);
    LinkAt(line, offset, image, b, |line| - 1);
    assert NextAction(line, offset, ScanState(0, 0, [], [])) == Emit(node, |line|);
    EmitScan(line, offset, 0, node, |line|);
  }

  /// `[label](dest)` or `![label](dest)`, with a label free of `]` and a destination free
  /// of `)`, neither empty nor with whitespace at its ends: one Link or Image node over the
  /// label, with the destination's span, no title, and one PlainText node over the label.
  lemma LinkLine(image: bool, text: seq<Byte>, dest: seq<Byte>, offset: nat)
    requires |text| > 0 && Without(text, RBRACKET) && !IsAsciiWs(text[0]) && !IsAsciiWs(text[|text| - 1])
    requires |dest| > 0 && Without(dest, RPAREN) && !IsAsciiWs(dest[0]) && !IsAsciiWs(dest[|dest| - 1])
    ensures var a := |Opener(image)|; var b := a + |text|;
            var destSpan := Some(Span(b + 2 + offset, b + 2 + |dest| + offset));
            Inlines(LinkText(image, text, dest), offset)
              == [AstNode(if image then Image(destSpan, None) else Link(destSpan, None),
                          Span(a + offset, b + offset), [Plain(a + offset, b + offset)])]
  {
    var b := |Opener(image)| + |text|;
    LinkTextParts(image, text, dest);
    LinkScan(LinkText(image, text, dest), offset, image, b);
  }

  // ---------------------------------------------------------------------------
  // The parser's own test lines
  // ---------------------------------------------------------------------------

  const THIS_IS_A: seq<Byte> := [0x54, 0x68, 0x69, 0x73, 0x20, 0x69, 0x73, 0x20, 0x61, 0x20]  // "This is a "
  const SIMPLE_LINE: seq<Byte> :=                                                      // "simple line."
    [0x73, 0x69, 0x6D, 0x70, 0x6C, 0x65, 0x20, 0x6C, 0x69, 0x6E, 0x65, 0x2E]
  const OFF: seq<Byte> := [0x6F, 0x66, 0x66]                                           // "off"
  const SET: seq<Byte> := [0x73, 0x65, 0x74]                                           // "set"
  const SOME_TEXT: seq<Byte> := [0x73, 0x6F, 0x6D, 0x65, 0x20, 0x74, 0x65, 0x78, 0x74]  // "some text"
  const HIGHLIGHT: seq<Byte> := [0x68, 0x69, 0x67, 0x68, 0x6C, 0x69, 0x67, 0x68, 0x74]  // "highlight"
  const INSERT: seq<Byte> := [0x69, 0x6E, 0x73, 0x65, 0x72, 0x74]                       // "insert"
  const REMOVE: seq<Byte> := [0x72, 0x65, 0x6D, 0x6F, 0x76, 0x65]                       // "remove"
  const TEXT_WITH: seq<Byte> := [0x54, 0x65, 0x78, 0x74, 0x20, 0x77, 0x69, 0x74, 0x68, 0x20]  // "Text with "
  const EMPHASIZED: seq<Byte> := [0x65, 0x6D, 0x70, 0x68, 0x61, 0x73, 0x69, 0x7A, 0x65, 0x64] // "emphasized"
  const PERIOD: seq<Byte> := [0x2E]                                                     // "."
  const AND: seq<Byte> := [0x20, 0x61, 0x6E, 0x64, 0x20]                                // " and "
  const STRONG: seq<Byte> := [0x73, 0x74, 0x72, 0x6F, 0x6E, 0x67]                       // "strong"
  const NESTED: seq<Byte> :=                                                            // "they can be nested"
    [0x74, 0x68, 0x65, 0x79, 0x20, 0x63, 0x61, 0x6E, 0x20, 0x62, 0x65, 0x20, 0x6E, 0x65, 0x73, 0x74, 0x65, 0x64]
  const CODE: seq<Byte> := [0x63, 0x6F, 0x64, 0x65]                                     // "code"
  const FOO: seq<Byte> := [0x66, 0x6F, 0x6F]                                            // "foo"
  const FOO_BAR: seq<Byte> := [0x66, 0x6F, 0x6F, 0x20, 0x62, 0x61, 0x72]               // "foo bar"
  const VERBATIM: seq<Byte> :=                                                          // "Verbatim with a backtick"
    [0x56, 0x65, 0x72, 0x62, 0x61, 0x74, 0x69, 0x6D, 0x20, 0x77, 0x69, 0x74, 0x68, 0x20, 0x61, 0x20,
     0x62, 0x61, 0x63, 0x6B, 0x74, 0x69, 0x63, 0x6B]
  const CHARACTER: seq<Byte> := [0x20, 0x63, 0x68, 0x61, 0x72, 0x61, 0x63, 0x74, 0x65, 0x72]  // " character"
  const EINSTEIN: seq<Byte> :=                                                          // "Einstein derived "
    [0x45, 0x69, 0x6E, 0x73, 0x74, 0x65, 0x69, 0x6E, 0x20, 0x64, 0x65, 0x72, 0x69, 0x76, 0x65, 0x64, 0x20]
  const EMC2: seq<Byte> := [0x65, 0x3D, 0x6D, 0x63, 0x5E, 0x32]                         // "e=mc^2"
  const PYTHAGORAS: seq<Byte> :=                                                        // "Pythagoras proved "
    [0x50, 0x79, 0x74, 0x68, 0x61, 0x67, 0x6F, 0x72, 0x61, 0x73, 0x20, 0x70, 0x72, 0x6F, 0x76, 0x65, 0x64, 0x20]
  const FERMAT: seq<Byte> :=                                                            // " x^n + y^n = z^n "
    [0x20, 0x78, 0x5E, 0x6E, 0x20, 0x2B, 0x20, 0x79, 0x5E, 0x6E, 0x20, 0x3D, 0x20, 0x7A, 0x5E, 0x6E, 0x20]
  const MY_LINK_TEXT: seq<Byte> :=                                                      // "My link text"
    [0x4D, 0x79, 0x20, 0x6C, 0x69, 0x6E, 0x6B, 0x20, 0x74, 0x65, 0x78, 0x74]
  const EXAMPLE_URL: seq<Byte> :=                                                       // "http://example.com"
    [0x68, 0x74, 0x74, 0x70, 0x3A, 0x2F, 0x2F, 0x65, 0x78, 0x61, 0x6D, 0x70, 0x6C, 0x65, 0x2E, 0x63, 0x6F, 0x6D]
  const CAT_PICTURE: seq<Byte> :=                                                       // "picture of a cat"
    [0x70, 0x69, 0x63, 0x74, 0x75, 0x72, 0x65, 0x20, 0x6F, 0x66, 0x20, 0x61, 0x20, 0x63, 0x61, 0x74]
  const CAT_JPG: seq<Byte> := [0x63, 0x61, 0x74, 0x2E, 0x6A, 0x70, 0x67]               // "cat.jpg"

  /// `This is a simple line.`: one PlainText node over [0, 22).
  lemma SimpleTextCase()
    ensures Inlines(THIS_IS_A + SIMPLE_LINE, 0) == [Plain(0, 22)]
  {
    var line := THIS_IS_A + SIMPLE_LINE;
    assert NoMarkup(line) by {
      assert NoMarkup(THIS_IS_A) && NoMarkup(SIMPLE_LINE);
      forall i | 0 <= i < |line| ensures line[i] == if i < 10 then THIS_IS_A[i] else SIMPLE_LINE[i - 10] { }
    }
    PlainLine(line, 0);
  }

  /// `offset` parsed at offset 5: one PlainText node over [5, 11).
  lemma OffsetCase()
    ensures Inlines(OFF + SET, 5) == [Plain(5, 11)]
  {
    var line := OFF + SET;
    assert NoMarkup(line) by {
      assert NoMarkup(OFF) && NoMarkup(SET);
      forall i | 0 <= i < |line| ensures line[i] == if i < 3 then OFF[i] else SET[i - 3] { }
    }
    PlainLine(line, 5);
  }

  /// `_some text_`, `*some text*`, `~some text~` and `^some text^`: one emphasis, strong,
  /// subscript or superscript node over [1, 10) holding one PlainText node over the same
  /// bytes.
  lemma SingleCharDelimiterCases()
    ensures Inlines([UNDERSCORE] + SOME_TEXT + [UNDERSCORE], 0) == [AstNode(Emph, Span(1, 10), [Plain(1, 10)])]
    ensures Inlines([STAR] + SOME_TEXT + [STAR], 0) == [AstNode(Strong, Span(1, 10), [Plain(1, 10)])]
    ensures Inlines([TILDE] + SOME_TEXT + [TILDE], 0) == [AstNode(Sub, Span(1, 10), [Plain(1, 10)])]
    ensures Inlines([CARET] + SOME_TEXT + [CARET], 0) == [AstNode(Sup, Span(1, 10), [Plain(1, 10)])]
  {
    PairedLine(SOME_TEXT, 3, 0);
    PairedLine(SOME_TEXT, 4, 0);
    PairedLine(SOME_TEXT, 5, 0);
    PairedLine(SOME_TEXT, 6, 0);
  }

  /// `{=highlight=}`, `{+insert+}` and `{-remove-}`: one mark, insert or delete node over
  /// the text between the two-byte markers, holding one PlainText node over the same bytes.
  lemma MultiCharDelimiterCases()
    ensures Inlines([LBRACE, EQUALS] + HIGHLIGHT + [EQUALS, RBRACE], 0)
              == [AstNode(AstKind.Mark, Span(2, 11), [Plain(2, 11)])]
    ensures Inlines([LBRACE, PLUS] + INSERT + [PLUS, RBRACE], 0)
              == [AstNode(AstKind.Insert, Span(2, 8), [Plain(2, 8)])]
    ensures Inlines([LBRACE, MINUS] + REMOVE + [MINUS, RBRACE], 0)
              == [AstNode(AstKind.Delete, Span(2, 8), [Plain(2, 8)])]
  {
    PairedLine(HIGHLIGHT, 0, 0);
    PairedLine(INSERT, 1, 0);
    PairedLine(REMOVE, 2, 0);
  }

  /// `Text with _emphasized_.`: PlainText over [0, 10), emphasis over [11, 21) holding
  /// PlainText over the same bytes, and PlainText over [22, 23).
  lemma MultipleNodesCase()
    ensures Inlines(TEXT_WITH + ([UNDERSCORE] + EMPHASIZED + [UNDERSCORE]) + PERIOD, 0)
              == [Plain(0, 10), AstNode(Emph, Span(11, 21), [Plain(11, 21)]), Plain(22, 23)]
  {
    TextAroundPair(TEXT_WITH, EMPHASIZED, PERIOD, 3, 0);
  }

  /// `_emphasized_ and *strong*`: emphasis over [1, 11), PlainText over [12, 17) and strong
  /// over [18, 24), each pair holding PlainText over its own bytes.
  lemma MultiSyntaxesCase()
    ensures Inlines(([UNDERSCORE] + EMPHASIZED + [UNDERSCORE]) + AND + ([STAR] + STRONG + [STAR]), 0)
              == [AstNode(Emph, Span(1, 11), [Plain(1, 11)]), Plain(12, 17),
                  AstNode(Strong, Span(18, 24), [Plain(18, 24)])]
  {
    TwoPairs(EMPHASIZED, 3, AND, STRONG, 4, 0);
  }

  /// `_*they can be nested*_`: emphasis over [1, 21) holding strong over [2, 20), which
  /// holds PlainText over the same bytes.
  lemma NestedCase()
    ensures Inlines([UNDERSCORE] + ([STAR] + NESTED + [STAR]) + [UNDERSCORE], 0)
              == [AstNode(Emph, Span(1, 21), [AstNode(Strong, Span(2, 20), [Plain(2, 20)])])]
  {
    NestedPairs(NESTED, 3, 4, 0);
  }

  /// `` `code` ``: one Code node over [1, 5).
  lemma SimpleCodeCase()
    ensures Inlines([BACKTICK] + CODE + [BACKTICK], 0) == [AstNode(Code, Span(1, 5), [])]
  {
    CodeLine(CODE, 0);
  }

  /// ``` ``Verbatim with a backtick` character`` ```: one Code node over [2, 37), the
  /// line less its two-backtick delimiters.
  lemma BacktickInsideCase()
    ensures Inlines([BACKTICK, BACKTICK] + VERBATIM + [BACKTICK] + CHARACTER + [BACKTICK, BACKTICK], 0)
              == [AstNode(Code, Span(2, 37), [])]
  {
    BacktickInsideCode(VERBATIM, CHARACTER, 0);
  }

  /// ``` `` `foo` `` ```: one Code node over [3, 8), the padding spaces trimmed.
  lemma PaddedCodeCase()
    ensures Inlines([BACKTICK, BACKTICK, SPACE, BACKTICK] + FOO + [BACKTICK, SPACE, BACKTICK, BACKTICK], 0)
              == [AstNode(Code, Span(3, 8), [])]
  {
    PaddedCode(FOO, 0);
  }

  /// `` `foo bar ``: one Code node over [1, 8), to the end of the line.
  lemma UnterminatedCodeCase()
    ensures Inlines([BACKTICK] + FOO_BAR, 0) == [AstNode(Code, Span(1, 8), [])]
  {
    UnterminatedCode(FOO_BAR, 0);
  }

  /// ``Einstein derived $`e=mc^2`.``: PlainText over [0, 17), MathInline over [19, 25)
  /// and PlainText over [26, 27).
  lemma InlineMathCase()
    ensures Inlines(EINSTEIN + ([DOLLAR] + ([BACKTICK] + EMC2 + [BACKTICK])) + PERIOD, 0)
              == [Plain(0, 17), AstNode(MathInline, Span(19, 25), []), Plain(26, 27)]
  {
    MathAround(EINSTEIN, false, EMC2, PERIOD, 0);
  }

  /// ``Pythagoras proved $$` x^n + y^n = z^n ` ``: PlainText over [0, 18) and MathDisplay
  /// over [21, 38).
  lemma DisplayMathCase()
    ensures Inlines(PYTHAGORAS + ([DOLLAR, DOLLAR] + ([BACKTICK] + FERMAT + [BACKTICK])) + [], 0)
              == [Plain(0, 18), AstNode(MathDisplay, Span(21, 38), [])]
  {
    MathAround(PYTHAGORAS, true, FERMAT, [], 0);
  }

  /// `[My link text](http://example.com)`: one Link node over the label [1, 13), with
  /// destination [15, 33), no title, and PlainText over the label.
  lemma LinkCase()
    ensures Inlines([LBRACKET] + MY_LINK_TEXT + [RBRACKET, LPAREN] + EXAMPLE_URL + [RPAREN], 0)
              == [AstNode(Link(Some(Span(15, 33)), None), Span(1, 13), [Plain(1, 13)])]
  {
    LinkLine(false, MY_LINK_TEXT, EXAMPLE_URL, 0);
  }

  /// `![picture of a cat](cat.jpg)`: one Image node over the label [2, 18), with
  /// destination [20, 27), no title, and PlainText over the label.
  lemma ImageCase()
    ensures Inlines([BANG, LBRACKET] + CAT_PICTURE + [RBRACKET, LPAREN] + CAT_JPG + [RPAREN], 0)
              == [AstNode(Image(Some(Span(20, 27)), None), Span(2, 18), [Plain(2, 18)])]
  {
    LinkLine(true, CAT_PICTURE, CAT_JPG, 0);
  }
}
