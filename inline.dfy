/// The inline parser (src/parser/inline.rs, `parse_inline`): one left-to-right scan over a
/// line with an explicit stack of open delimiters. The scan is specified step by step
/// (`NextAction`, `Apply`, `Run`, `Finish`), the method `ParseInline` is proved to compute it, and
/// the lemmas state what the result looks like.
module Inline {
  import opened Ast
  import opened InlineSyntax

  // ---------------------------------------------------------------------------
  // The scan state and the two push helpers
  // ---------------------------------------------------------------------------

  /// The loop variables of `parse_inline`: the scan position, the start of the text not
  /// yet emitted, the finished top-level nodes and the stack of open delimiters.
  datatype ScanState = ScanState(idx: nat, lastEmit: nat, nodes: seq<AstNode>, stack: seq<Delimiter>)

  /// `push_node`: the node goes to the innermost open delimiter's children, or to the
  /// top-level nodes when no delimiter is open.
  function PushNode(stack: seq<Delimiter>, nodes: seq<AstNode>, node: AstNode): (r: (seq<Delimiter>, seq<AstNode>))
    ensures |r.0| == |stack|
  {
    if |stack| == 0 then (stack, nodes + [node])
    else
      var top := stack[|stack| - 1];
      (stack[..|stack| - 1] + [top.(children := top.children + [node])], nodes)
  }

  /// `push_plain`: a PlainText node for line positions [start, end), shifted by `offset`;
  /// nothing when the range is empty.
  function PushPlain(stack: seq<Delimiter>, nodes: seq<AstNode>, start: nat, end: nat, offset: nat)
    : (r: (seq<Delimiter>, seq<AstNode>))
    ensures |r.0| == |stack|
  {
    if start >= end then (stack, nodes) else PushNode(stack, nodes, Plain(start + offset, end + offset))
  }

  /// Close the innermost open delimiter at line position `end`: pop its frame and push a
  /// node of `kind` spanning its content, with the children it collected.
  function PopFrame(stack: seq<Delimiter>, nodes: seq<AstNode>, kind: AstKind, end: nat, offset: nat)
    : (r: (seq<Delimiter>, seq<AstNode>))
    requires |stack| > 0
    ensures |r.0| == |stack| - 1
    ensures var top := stack[|stack| - 1];
            var node := AstNode(kind, Span(top.contentStart + offset, end + offset), top.children);
            if |stack| == 1 then r.1 == nodes + [node]
            else
              var below := stack[|stack| - 2];
              && r.1 == nodes && r.0[..|stack| - 2] == stack[..|stack| - 2]
              && r.0[|stack| - 2] == below.(children := below.children + [node])
  {
    var top := stack[|stack| - 1];
    PushNode(stack[..|stack| - 1], nodes, AstNode(kind, Span(top.contentStart + offset, end + offset), top.children))
  }

  /// Emit the pending text before `node`, then `node`, and resume scanning at `next`.
  function EmitNode(s: ScanState, node: AstNode, next: nat, offset: nat): ScanState
  {
    var (stack1, nodes1) := PushPlain(s.stack, s.nodes, s.lastEmit, s.idx, offset);
    var (stack2, nodes2) := PushNode(stack1, nodes1, node);
    ScanState(next, next, nodes2, stack2)
  }

  /// The number of `$` that open a math span at `idx`: two for `$$`, else one.
  function MathRun(line: seq<Byte>, idx: nat): nat
  {
    if idx + 1 < |line| && line[idx + 1] == DOLLAR then 2 else 1
  }

  // ---------------------------------------------------------------------------
  // The scan, as a function of the line
  // ---------------------------------------------------------------------------

  /// What one iteration of the loop does: emit a finished node and resume at `next`,
  /// close the innermost delimiter, open a delimiter, or move past one byte.
  datatype Action = Emit(node: AstNode, next: nat) | Close(defIndex: DefIndex, closeLen: nat)
                  | Open(defIndex: DefIndex, openLen: nat) | Skip

  /// The choice one iteration of the `while idx < n` loop makes. The alternatives are tried
  /// in the source's order, one function per alternative: a link or image, `$`/`$$` math,
  /// a backtick code span, the close marker of the innermost open delimiter, an open
  /// marker, and otherwise plain text.
  function NextAction(line: seq<Byte>, offset: nat, s: ScanState): Action
    requires s.idx < |line|
  {
    match LinkOrImage(line, s.idx, offset)
    case Some((node, next)) => Emit(node, next)
    case None => AfterLink(line, offset, s)
  }

  /// No link at `idx`: `$` or `$$` directly followed by a code span is math over its content.
  function AfterLink(line: seq<Byte>, offset: nat, s: ScanState): Action
    requires s.idx < |line|
  {
    var run := MathRun(line, s.idx);
    var math := if line[s.idx] == DOLLAR then BacktickSpan(line, s.idx + run) else None;
    match math
    case Some(m) =>
      var kind := if run == 2 then MathDisplay else MathInline;
      Emit(AstNode(kind, Span(m.start + offset, m.end + offset), []), m.next)
    case None => AfterMath(line, offset, s)
  }

  /// No math either: a backtick run opens a code span.
  function AfterMath(line: seq<Byte>, offset: nat, s: ScanState): Action
    requires s.idx < |line|
  {
    match BacktickSpan(line, s.idx)
    case Some(c) => Emit(AstNode(Code, Span(c.start + offset, c.end + offset), []), c.next)
    case None => AfterCode(line, s)
  }

  /// No code span either: the close marker of the innermost open delimiter closes it.
  function AfterCode(line: seq<Byte>, s: ScanState): Action
    requires s.idx < |line|
  {
    match MatchClosing(line, s.idx, s.stack)
    case Some((d, len)) => Close(d, len)
    case None => AfterClose(line, s)
  }

  /// Nothing closes: an open marker opens a delimiter, and anything else is plain text.
  function AfterClose(line: seq<Byte>, s: ScanState): Action
    requires s.idx < |line|
  {
    match OpeningMatch(line, s.idx)
    case Some((d, len)) => Open(d, len)
    case None => Skip
  }

  /// What makes an action applicable at `s.idx`: an emitted node is well spanned and lies
  /// in [idx, next] with next past idx and inside the line; a close marker belongs to the
  /// innermost open delimiter; markers are non-empty and inside the line.
  predicate ActionOk(line: seq<Byte>, offset: nat, s: ScanState, a: Action)
  {
    match a
    case Emit(node, next) =>
      s.idx < next <= |line| && s.idx + offset <= node.span.start && WellSpanned(node) && node.span.end <= next + offset
    case Close(d, closeLen) =>
      |s.stack| > 0 && d == s.stack[|s.stack| - 1].defIndex && 0 < closeLen && s.idx + closeLen <= |line|
    case Open(d, openLen) =>
      openLen == |DELIMITERS[d].open| && 0 < openLen && s.idx + openLen <= |line|
    case Skip => true
  }

  /// The state after an action.
  function Apply(s: ScanState, a: Action, offset: nat): ScanState
    requires a.Close? ==> |s.stack| > 0
  {
    match a
    case Emit(node, next) => EmitNode(s, node, next, offset)
    case Close(d, closeLen) =>
      var (stack1, nodes1) := PushPlain(s.stack, s.nodes, s.lastEmit, s.idx, offset);
      var (stack2, nodes2) := PopFrame(stack1, nodes1, AstKindOf(DELIMITERS[d].kind), s.idx, offset);
      ScanState(s.idx + closeLen, s.idx + closeLen, nodes2, stack2)
    case Open(d, openLen) =>
      var (stack1, nodes1) := PushPlain(s.stack, s.nodes, s.lastEmit, s.idx, offset);
      ScanState(s.idx + openLen, s.idx + openLen, nodes1, stack1 + [Delimiter(d, s.idx, s.idx + openLen, [])])
    case Skip => s.(idx := s.idx + 1)
  }

  /// The decision of every iteration: `NextAction` while the line is not done.
  function Decide(line: seq<Byte>, offset: nat): ScanState -> Action
  {
    (s: ScanState) => if s.idx < |line| then NextAction(line, offset, s) else Skip
  }

  /// A decision rule that only takes applicable actions.
  ghost predicate Sound(line: seq<Byte>, offset: nat, choose: ScanState -> Action)
  {
    forall s: ScanState :: s.idx < |line| ==> ActionOk(line, offset, s, choose(s))
  }

  /// An applicable action moves the scan forward and stays inside the line.
  lemma ApplyProgress(line: seq<Byte>, offset: nat, s: ScanState, a: Action)
    requires s.lastEmit <= s.idx < |line| && ActionOk(line, offset, s, a)
    ensures var t := Apply(s, a, offset); s.idx < t.idx <= |line| && t.lastEmit <= t.idx
  {
  }

  /// The loop run to the end of the line from state `s`, each iteration taking the action
  /// `choose` picks.
  function Run(line: seq<Byte>, offset: nat, choose: ScanState -> Action, s: ScanState): (t: ScanState)
    requires Sound(line, offset, choose)
    requires s.lastEmit <= s.idx <= |line|
    ensures t.lastEmit <= t.idx == |line|
    decreases |line| - s.idx
  {
    if s.idx == |line| then s
    else
      var a := choose(s);
      ApplyProgress(line, offset, s, a);
      Run(line, offset, choose, Apply(s, a, offset))
  }

  /// The loop of `parse_inline` run to the end of the line from state `s`.
  function ScanFrom(line: seq<Byte>, offset: nat, s: ScanState): (t: ScanState)
    requires s.lastEmit <= s.idx <= |line|
    ensures t.lastEmit <= t.idx == |line|
    decreases |line| - s.idx, 1
  {
    if s.idx == |line| then s else ScanNext(line, offset, s)
  }

  /// One iteration of the loop on a line not yet done, then the rest of the loop.
  function ScanNext(line: seq<Byte>, offset: nat, s: ScanState): (t: ScanState)
    requires s.lastEmit <= s.idx < |line|
    ensures t.lastEmit <= t.idx == |line|
    decreases |line| - s.idx, 0
  {
    var a := NextAction(line, offset, s);
    NextActionOk(line, offset, s);
    ApplyProgress(line, offset, s, a);
    ScanFrom(line, offset, Apply(s, a, offset))
  }

  /// One iteration, then the rest of the loop.
  lemma ScanFromStep(line: seq<Byte>, offset: nat, s: ScanState)
    requires s.lastEmit <= s.idx < |line|
    ensures var t := Apply(s, NextAction(line, offset, s), offset);
            && s.idx < t.idx <= |line| && t.lastEmit <= t.idx
            && ScanFrom(line, offset, s) == ScanFrom(line, offset, t)
  {
    NextActionOk(line, offset, s);
    ApplyProgress(line, offset, s, NextAction(line, offset, s));
    assert ScanFrom(line, offset, s) == ScanNext(line, offset, s);
  }

  /// The loop is the run of the decision rule `Decide`.
  lemma {:induction false} ScanFromIsRun(line: seq<Byte>, offset: nat, s: ScanState)
    requires s.lastEmit <= s.idx <= |line|
    ensures Sound(line, offset, Decide(line, offset))
    ensures ScanFrom(line, offset, s) == Run(line, offset, Decide(line, offset), s)
    decreases |line| - s.idx
  {
    DecideSound(line, offset);
    if s.idx < |line| {
      var a := NextAction(line, offset, s);
      assert Decide(line, offset)(s) == a;
      NextActionOk(line, offset, s);
      ApplyProgress(line, offset, s, a);
      ScanFromIsRun(line, offset, Apply(s, a, offset));
      assert ScanFrom(line, offset, s) == ScanNext(line, offset, s);
    }
  }

  /// The state the loop starts in.
  function Start(): ScanState
  {
    ScanState(0, 0, [], [])
  }

  function Min(a: nat, b: nat): nat
  {
    if a <= b then a else b
  }

  /// `delim_stack.iter().map(|d| d.open_pos).min()` on a non-empty stack.
  function MinOpen(stack: seq<Delimiter>): nat
    requires |stack| > 0
  {
    if |stack| == 1 then stack[0].openPos
    else Min(MinOpen(stack[..|stack| - 1]), stack[|stack| - 1].openPos)
  }

  /// After the loop: when delimiters are still open, the text from the earliest open
  /// position on is re-emitted as plain text (what was collected inside the open
  /// delimiters is dropped with the stack); the rest of the line becomes one PlainText.
  function Finish(line: seq<Byte>, offset: nat, s: ScanState): seq<AstNode>
    requires s.lastEmit <= |line|
  {
    var lastEmit := if |s.stack| > 0 then Min(s.lastEmit, MinOpen(s.stack)) else s.lastEmit;
    PushPlain([], s.nodes, lastEmit, |line|, offset).1
  }

  /// What `parse_inline(line, offset)` returns.
  function Inlines(line: seq<Byte>, offset: nat): seq<AstNode>
  {
    Finish(line, offset, ScanFrom(line, offset, Start()))
  }

  // ---------------------------------------------------------------------------
  // Layout of the emitted nodes
  // ---------------------------------------------------------------------------

  /// The nodes `ns` lie in order inside [lo, hi]: each is well spanned and starts no
  /// earlier than the previous one ends.
  predicate Laid(ns: seq<AstNode>, lo: int, hi: int)
    decreases ns, 0
  {
    if |ns| == 0 then lo <= hi
    else
      var last := ns[|ns| - 1];
      && WellSpanned(last)
      && last.span.end <= hi
      && Laid(ns[..|ns| - 1], lo, last.span.start)
  }

  /// A node's span is not reversed and holds its children, laid out in order.
  predicate WellSpanned(n: AstNode)
    decreases n, 1
  {
    n.span.start <= n.span.end && Laid(n.children, n.span.start, n.span.end)
  }

  /// The scan invariant: the top-level nodes lie before the first open delimiter, each
  /// open delimiter's children lie between its content start and the next delimiter's
  /// open position (the innermost one's up to `hi`), and each delimiter's content starts
  /// after its open position.
  predicate Chain(nodes: seq<AstNode>, stack: seq<Delimiter>, offset: nat, hi: int)
    decreases |stack|
  {
    if |stack| == 0 then Laid(nodes, offset, hi)
    else
      var top := stack[|stack| - 1];
      && top.openPos < top.contentStart
      && Laid(top.children, top.contentStart + offset, hi)
      && Chain(nodes, stack[..|stack| - 1], offset, top.openPos + offset)
  }

  /// Laid-out nodes stay inside their bounds.
  lemma {:induction false} LaidBounds(ns: seq<AstNode>, lo: int, hi: int)
    requires Laid(ns, lo, hi)
    ensures lo <= hi
    ensures forall k :: 0 <= k < |ns| ==> lo <= ns[k].span.start <= ns[k].span.end <= hi
    ensures forall k :: 0 <= k < |ns| ==> WellSpanned(ns[k])
    decreases |ns|
  {
    if |ns| > 0 {
      var init := ns[..|ns| - 1];
      LaidBounds(init, lo, ns[|ns| - 1].span.start);
      assert forall k :: 0 <= k < |init| ==> init[k] == ns[k];
    }
  }

  /// Appending a node that starts after the laid-out nodes end.
  lemma LaidAppend(ns: seq<AstNode>, lo: int, mid: int, n: AstNode, hi: int)
    requires Laid(ns, lo, mid)
    requires mid <= n.span.start && WellSpanned(n) && n.span.end <= hi
    ensures Laid(ns + [n], lo, hi)
  {
    assert (ns + [n])[..|ns|] == ns;
    LaidBounds(ns, lo, mid);
  }

  /// `push_node` keeps the invariant for a node that starts where the pending region does.
  lemma ChainPush(nodes: seq<AstNode>, stack: seq<Delimiter>, offset: nat, hi: int, node: AstNode, hi2: int)
    requires Chain(nodes, stack, offset, hi)
    requires hi <= node.span.start && WellSpanned(node) && node.span.end <= hi2
    ensures var (st, ns) := PushNode(stack, nodes, node); Chain(ns, st, offset, hi2)
  {
    if |stack| == 0 {
      LaidAppend(nodes, offset, hi, node, hi2);
    } else {
      var top := stack[|stack| - 1];
      LaidAppend(top.children, top.contentStart + offset, hi, node, hi2);
      var st := PushNode(stack, nodes, node).0;
      assert st[..|st| - 1] == stack[..|stack| - 1];
    }
  }

  /// `push_plain` of the pending text [lastEmit, idx) moves the invariant's bound to `idx`.
  lemma ChainPlain(nodes: seq<AstNode>, stack: seq<Delimiter>, offset: nat, lastEmit: nat, idx: nat)
    requires Chain(nodes, stack, offset, lastEmit + offset)
    requires lastEmit <= idx
    ensures var r := PushPlain(stack, nodes, lastEmit, idx, offset); Chain(r.1, r.0, offset, idx + offset)
  {
    if lastEmit < idx {
      ChainPush(nodes, stack, offset, lastEmit + offset, Plain(lastEmit + offset, idx + offset), idx + offset);
    }
  }

  /// Laid-out nodes have bounds in order.
  lemma LaidOrdered(ns: seq<AstNode>, lo: int, hi: int)
    requires Laid(ns, lo, hi)
    ensures lo <= hi
  {
    LaidBounds(ns, lo, hi);
  }

  /// Emitting a well-spanned node that lies in [idx, next] keeps the invariant.
  lemma ChainEmit(s: ScanState, offset: nat, node: AstNode, next: nat)
    requires s.lastEmit <= s.idx
    requires Chain(s.nodes, s.stack, offset, s.lastEmit + offset)
    requires s.idx + offset <= node.span.start && WellSpanned(node) && node.span.end <= next + offset
    ensures var t := Apply(s, Emit(node, next), offset); Chain(t.nodes, t.stack, offset, t.lastEmit + offset)
  {
    ChainPlain(s.nodes, s.stack, offset, s.lastEmit, s.idx);
    var r := PushPlain(s.stack, s.nodes, s.lastEmit, s.idx, offset);
    ChainPush(r.1, r.0, offset, s.idx + offset, node, next + offset);
  }

  /// A link or image node is well spanned and lies after `idx`.
  lemma LinkEmitOk(line: seq<Byte>, idx: nat, offset: nat)
    requires idx < |line| && LinkOrImage(line, idx, offset).Some?
    ensures var (node, next) := LinkOrImage(line, idx, offset).value;
            idx + offset <= node.span.start && WellSpanned(node) && node.span.end <= next + offset
  {
    LinkOrImageBounds(line, idx, offset);
    var node := LinkOrImage(line, idx, offset).value.0;
    if node.span.start < node.span.end {
      var p := Plain(node.span.start, node.span.end);
      assert WellSpanned(p) by { assert Laid(p.children, p.span.start, p.span.end); }
      assert node.children == [p] && node.children[..0] == [];
      assert Laid(node.children[..0], node.span.start, p.span.start);
    }
  }

  /// Every action the loop chooses is applicable.
  lemma NextActionOk(line: seq<Byte>, offset: nat, s: ScanState)
    requires s.idx < |line|
    ensures ActionOk(line, offset, s, NextAction(line, offset, s))
  {
    var idx := s.idx;
    if LinkOrImage(line, idx, offset).Some? {
      LinkOrImageBounds(line, idx, offset);
      LinkEmitOk(line, idx, offset);
    }
  }

  /// Popping the innermost frame at `end` keeps the invariant, up to any later bound.
  lemma ChainPop(nodes: seq<AstNode>, stack: seq<Delimiter>, offset: nat, kind: AstKind, end: nat, hi: int)
    requires Chain(nodes, stack, offset, end + offset)
    requires |stack| > 0 && end + offset <= hi
    ensures var r := PopFrame(stack, nodes, kind, end, offset); Chain(r.1, r.0, offset, hi)
  {
    var top := stack[|stack| - 1];
    var rest := stack[..|stack| - 1];
    LaidOrdered(top.children, top.contentStart + offset, end + offset);
    var node := AstNode(kind, Span(top.contentStart + offset, end + offset), top.children);
    assert WellSpanned(node);
    ChainPush(nodes, rest, offset, top.openPos + offset, node, hi);
  }

  /// Closing the innermost delimiter keeps the invariant.
  lemma ChainClose(s: ScanState, offset: nat, d: DefIndex, closeLen: nat)
    requires s.lastEmit <= s.idx
    requires Chain(s.nodes, s.stack, offset, s.lastEmit + offset)
    requires |s.stack| > 0
    ensures var t := Apply(s, Close(d, closeLen), offset); Chain(t.nodes, t.stack, offset, t.lastEmit + offset)
  {
    ChainPlain(s.nodes, s.stack, offset, s.lastEmit, s.idx);
    var r := PushPlain(s.stack, s.nodes, s.lastEmit, s.idx, offset);
    ChainPop(r.1, r.0, offset, AstKindOf(DELIMITERS[d].kind), s.idx, s.idx + closeLen + offset);
  }

  /// Opening a delimiter keeps the invariant.
  lemma ChainOpen(s: ScanState, offset: nat, d: DefIndex, openLen: nat)
    requires s.lastEmit <= s.idx
    requires Chain(s.nodes, s.stack, offset, s.lastEmit + offset)
    requires 0 < openLen
    ensures var t := Apply(s, Open(d, openLen), offset); Chain(t.nodes, t.stack, offset, t.lastEmit + offset)
  {
    var idx := s.idx;
    ChainPlain(s.nodes, s.stack, offset, s.lastEmit, idx);
    var r := PushPlain(s.stack, s.nodes, s.lastEmit, idx, offset);
    var frame := Delimiter(d, idx, idx + openLen, []);
    assert (r.0 + [frame])[..|r.0|] == r.0;
    assert Laid(frame.children, frame.contentStart + offset, idx + openLen + offset);
  }

  /// Every applicable action keeps the scan invariant.
  lemma ApplyChain(line: seq<Byte>, offset: nat, s: ScanState, a: Action)
    requires s.lastEmit <= s.idx < |line|
    requires ActionOk(line, offset, s, a)
    requires Chain(s.nodes, s.stack, offset, s.lastEmit + offset)
    ensures var t := Apply(s, a, offset); Chain(t.nodes, t.stack, offset, t.lastEmit + offset)
  {
    match a
    case Emit(node, next) => ChainEmit(s, offset, node, next);
    case Close(d, closeLen) => ChainClose(s, offset, d, closeLen);
    case Open(d, openLen) => ChainOpen(s, offset, d, openLen);
    case Skip =>
  }

  /// `NextAction` only takes applicable actions.
  lemma DecideSound(line: seq<Byte>, offset: nat)
    ensures Sound(line, offset, Decide(line, offset))
  {
    forall s: ScanState | s.idx < |line| ensures ActionOk(line, offset, s, Decide(line, offset)(s)) {
      NextActionOk(line, offset, s);
    }
  }

  /// The scan invariant of a state: its nodes and stack keep `Chain` up to its last emit.
  predicate StateChain(s: ScanState, offset: nat)
  {
    Chain(s.nodes, s.stack, offset, s.lastEmit + offset)
  }

  /// A scan that takes only applicable actions keeps the invariant to the end of the line.
  lemma {:induction false} RunChain(line: seq<Byte>, offset: nat, choose: ScanState -> Action, s: ScanState)
    requires Sound(line, offset, choose)
    requires s.lastEmit <= s.idx <= |line|
    requires StateChain(s, offset)
    ensures StateChain(Run(line, offset, choose, s), offset)
    decreases |line| - s.idx
  {
    if s.idx < |line| {
      var t := RunStep(line, offset, choose, s);
      ApplyChain(line, offset, s, choose(s));
      RunChain(line, offset, choose, t);
    }
  }

  /// One iteration of a sound scan: `t` is the state it leaves, further along the line,
  /// from which the rest of the run continues.
  lemma RunStep(line: seq<Byte>, offset: nat, choose: ScanState -> Action, s: ScanState) returns (t: ScanState)
    requires Sound(line, offset, choose)
    requires s.lastEmit <= s.idx < |line|
    ensures ActionOk(line, offset, s, choose(s)) && t == Apply(s, choose(s), offset)
    ensures s.idx < t.idx && t.lastEmit <= t.idx <= |line|
    ensures Run(line, offset, choose, s) == Run(line, offset, choose, t)
  {
    ApplyProgress(line, offset, s, choose(s));
    t := Apply(s, choose(s), offset);
  }

  /// The invariant holds when the loop of `parse_inline` ends.
  lemma ScanChain(line: seq<Byte>, offset: nat)
    ensures var t := ScanFrom(line, offset, Start()); Chain(t.nodes, t.stack, offset, t.lastEmit + offset)
  {
    ScanFromIsRun(line, offset, Start());
    RunChain(line, offset, Decide(line, offset), Start());
  }

  /// Under the invariant the stack's open positions increase, so the earliest open position
  /// is the bottom frame's; the top-level nodes lie before it.
  lemma {:induction false} ChainBottom(nodes: seq<AstNode>, stack: seq<Delimiter>, offset: nat, hi: int)
    requires Chain(nodes, stack, offset, hi)
    requires |stack| > 0
    ensures MinOpen(stack) == stack[0].openPos
    ensures stack[0].openPos + offset <= hi
    ensures Laid(nodes, offset, stack[0].openPos + offset)
    decreases |stack|
  {
    var top := stack[|stack| - 1];
    LaidBounds(top.children, top.contentStart + offset, hi);
    if |stack| > 1 {
      var rest := stack[..|stack| - 1];
      ChainBottom(nodes, rest, offset, top.openPos + offset);
      assert rest[0] == stack[0];
    }
  }

  /// From a final state that keeps the invariant, `Finish` gives nodes laid out in order
  /// inside [offset, offset + |line|].
  lemma FinishLaid(line: seq<Byte>, offset: nat, s: ScanState)
    requires s.lastEmit <= s.idx == |line|
    requires Chain(s.nodes, s.stack, offset, s.lastEmit + offset)
    ensures Laid(Finish(line, offset, s), offset, offset + |line|)
  {
    var lastEmit := s.lastEmit;
    if |s.stack| > 0 {
      ChainBottom(s.nodes, s.stack, offset, s.lastEmit + offset);
      lastEmit := s.stack[0].openPos;
    }
    if lastEmit < |line| {
      LaidAppend(s.nodes, offset, lastEmit + offset, Plain(lastEmit + offset, |line| + offset), |line| + offset);
    }
  }

  /// The nodes `parse_inline` returns lie in order inside [offset, offset + |line|], and
  /// every node's children lie in order inside its span.
  lemma InlinesLaid(line: seq<Byte>, offset: nat)
    ensures Laid(Inlines(line, offset), offset, offset + |line|)
  {
    ScanChain(line, offset);
    FinishLaid(line, offset, ScanFrom(line, offset, Start()));
  }

  /// Every top-level span is local position + `offset`, not reversed, inside the line.
  lemma InlineSpansInLine(line: seq<Byte>, offset: nat)
    ensures var ns := Inlines(line, offset);
            forall k :: 0 <= k < |ns| ==>
              offset <= ns[k].span.start <= ns[k].span.end <= offset + |line| && WellSpanned(ns[k])
  {
    InlinesLaid(line, offset);
    LaidBounds(Inlines(line, offset), offset, offset + |line|);
  }

  /// When delimiters are still open at the end of the line, everything from the earliest
  /// open position to the end of the line becomes one PlainText node, and the nodes that
  /// were collected inside the open delimiters are dropped.
  lemma UnmatchedDemoted(line: seq<Byte>, offset: nat)
    ensures var s := ScanFrom(line, offset, Start());
            |s.stack| > 0 ==>
              && s.stack[0].openPos < |line|
              && s.stack[0].openPos == MinOpen(s.stack)
              && Inlines(line, offset) == s.nodes + [Plain(s.stack[0].openPos + offset, |line| + offset)]
  {
    ScanChain(line, offset);
    FinishDemoted(line, offset, ScanFrom(line, offset, Start()));
  }

  /// `UnmatchedDemoted` for any final state whose frames form a chain.
  lemma FinishDemoted(line: seq<Byte>, offset: nat, s: ScanState)
    requires s.lastEmit <= s.idx == |line|
    requires Chain(s.nodes, s.stack, offset, s.lastEmit + offset)
    ensures |s.stack| > 0 ==>
              && s.stack[0].openPos < |line|
              && s.stack[0].openPos == MinOpen(s.stack)
              && Finish(line, offset, s) == s.nodes + [Plain(s.stack[0].openPos + offset, |line| + offset)]
  {
    if |s.stack| > 0 {
      ChainBottom(s.nodes, s.stack, offset, s.lastEmit + offset);
      var top := s.stack[|s.stack| - 1];
      assert Laid(top.children, top.contentStart + offset, s.lastEmit + offset);
      LaidBounds(top.children, top.contentStart + offset, s.lastEmit + offset);
      OpenPosBelowTop(s.nodes, s.stack, offset, s.lastEmit + offset);
    }
  }

  /// The bottom frame opens strictly before the innermost frame's content starts.
  lemma {:induction false} OpenPosBelowTop(nodes: seq<AstNode>, stack: seq<Delimiter>, offset: nat, hi: int)
    requires Chain(nodes, stack, offset, hi)
    requires |stack| > 0
    ensures stack[0].openPos < stack[|stack| - 1].contentStart
    decreases |stack|
  {
    var top := stack[|stack| - 1];
    if |stack| > 1 {
      var rest := stack[..|stack| - 1];
      OpenPosBelowTop(nodes, rest, offset, top.openPos + offset);
      LaidBounds(rest[|rest| - 1].children, rest[|rest| - 1].contentStart + offset, top.openPos + offset);
      assert rest[0] == stack[0];
    }
  }

  // ---------------------------------------------------------------------------
  // Lines without markup
  // ---------------------------------------------------------------------------

  /// No byte that can start a link, a code span or a delimiter: `[`, a backtick, `{`, `_`,
  /// `*`, `~` or `^`.
  predicate NoMarkup(line: seq<Byte>)
  {
    forall i :: 0 <= i < |line| ==>
      line[i] != LBRACKET && line[i] != BACKTICK && line[i] != LBRACE
      && line[i] != UNDERSCORE && line[i] != STAR && line[i] != TILDE && line[i] != CARET
  }

  /// Without markup, every iteration only moves past one byte of plain text.
  lemma {:induction false} PlainScan(line: seq<Byte>, offset: nat, i: nat)
    requires NoMarkup(line) && i <= |line|
    ensures ScanFrom(line, offset, ScanState(i, 0, [], [])) == ScanState(|line|, 0, [], [])
    decreases |line| - i
  {
    if i < |line| {
      var s := ScanState(i, 0, [], []);
      assert LinkOrImage(line, i, offset).None?;
      assert BacktickRun(line, i) == 0;
      assert line[i] == DOLLAR ==> BacktickRun(line, i + MathRun(line, i)) == 0;
      assert OpeningMatch(line, i).None? by {
        forall j | 0 <= j < |DELIMITERS| ensures !StartsWith(line, i, DELIMITERS[j].open) {
          StartsWithFirst(line, i, DELIMITERS[j].open);
        }
        OpeningMatchIsBest(line, i);
      }
      assert NextAction(line, offset, s) == Skip;
      PlainScan(line, offset, i + 1);
      assert ScanFrom(line, offset, s) == ScanNext(line, offset, s);
    }
  }

  /// A line without markup parses to a single PlainText node spanning the whole line
  /// (none for an empty line).
  lemma PlainLine(line: seq<Byte>, offset: nat)
    requires NoMarkup(line)
    ensures Inlines(line, offset) == if |line| == 0 then [] else [Plain(offset, offset + |line|)]
  {
    PlainScan(line, offset, 0);
  }

  /// A `$`, or `$$`, directly followed by a backtick is math: a MathDisplay node after `$$`,
  /// a MathInline node after a single `$`, childless, over the content of the code span
  /// opened by that backtick (moved by the line's offset), with the scan resuming where
  /// the code span ends.
  lemma DollarMath(line: seq<Byte>, offset: nat, s: ScanState)
    requires s.idx < |line| && line[s.idx] == DOLLAR
    requires var cs := if s.idx + 1 < |line| && line[s.idx + 1] == DOLLAR then s.idx + 2 else s.idx + 1;
             cs < |line| && line[cs] == BACKTICK
    ensures var double := s.idx + 1 < |line| && line[s.idx + 1] == DOLLAR;
            var cs := if double then s.idx + 2 else s.idx + 1;
            var m := BacktickSpan(line, cs);
            && m.Some?
            && NextAction(line, offset, s)
               == Emit(AstNode(if double then MathDisplay else MathInline,
                               Span(m.value.start + offset, m.value.end + offset), []), m.value.next)
            && cs + BacktickRun(line, cs) <= m.value.start <= m.value.end <= m.value.next <= |line|
            && s.idx < m.value.next
  {
    assert LinkOrImage(line, s.idx, offset).None?;
    assert NextAction(line, offset, s) == AfterLink(line, offset, s);
  }

  /// A `$` that no backtick follows (directly, or after a second `$`) is plain text: the
  /// loop moves past it.
  lemma DollarPlain(line: seq<Byte>, offset: nat, s: ScanState)
    requires s.idx < |line| && line[s.idx] == DOLLAR
    requires var cs := if s.idx + 1 < |line| && line[s.idx + 1] == DOLLAR then s.idx + 2 else s.idx + 1;
             !(cs < |line| && line[cs] == BACKTICK)
    ensures NextAction(line, offset, s) == Skip
  {
    assert LinkOrImage(line, s.idx, offset).None?;
    assert BacktickSpan(line, s.idx + MathRun(line, s.idx)).None?;
    assert NextAction(line, offset, s) == AfterMath(line, offset, s);
    assert BacktickSpan(line, s.idx).None?;
    assert MatchClosing(line, s.idx, s.stack).None? by {
      if |s.stack| > 0 {
        StartsWithFirst(line, s.idx, DELIMITERS[s.stack[|s.stack| - 1].defIndex].close);
      }
    }
    assert OpeningMatch(line, s.idx).None? by {
      forall j | 0 <= j < |DELIMITERS| ensures !StartsWith(line, s.idx, DELIMITERS[j].open) {
        StartsWithFirst(line, s.idx, DELIMITERS[j].open);
      }
      OpeningMatchIsBest(line, s.idx);
    }
  }

  // ---------------------------------------------------------------------------
  // The imperative scan
  // ---------------------------------------------------------------------------

  /// The shared tail of the link, math and code branches: flush the pending text, push
  /// `node`, and resume at `next`.
  method EmitStep(line: seq<Byte>, offset: nat, idx0: nat, lastEmit0: nat, nodes0: seq<AstNode>,
                  stack0: seq<Delimiter>, node: AstNode, next: nat)
    returns (idx: nat, lastEmit: nat, nodes: seq<AstNode>, stack: seq<Delimiter>)
    ensures ScanState(idx, lastEmit, nodes, stack) == Apply(ScanState(idx0, lastEmit0, nodes0, stack0), Emit(node, next), offset)
  {
    idx, lastEmit, nodes, stack := idx0, lastEmit0, nodes0, stack0;
    if lastEmit < idx {
      var pushed := PushPlain(stack, nodes, lastEmit, idx, offset);
      stack, nodes := pushed.0, pushed.1;
    }
    var pushed := PushNode(stack, nodes, node);
    stack, nodes := pushed.0, pushed.1;
    idx := next;
    lastEmit := idx;
  }

  /// The closing branch: flush the pending text, pop the innermost frame and push the
  /// node it becomes.
  method CloseStep(line: seq<Byte>, offset: nat, idx0: nat, lastEmit0: nat, nodes0: seq<AstNode>,
                   stack0: seq<Delimiter>, defIndex: DefIndex, closeLen: nat)
    returns (idx: nat, lastEmit: nat, nodes: seq<AstNode>, stack: seq<Delimiter>)
    requires |stack0| > 0
    ensures ScanState(idx, lastEmit, nodes, stack) == Apply(ScanState(idx0, lastEmit0, nodes0, stack0), Close(defIndex, closeLen), offset)
  {
    idx, lastEmit, nodes, stack := idx0, lastEmit0, nodes0, stack0;
    if lastEmit < idx {
      var pushed := PushPlain(stack, nodes, lastEmit, idx, offset);
      stack, nodes := pushed.0, pushed.1;
    }
    ghost var popped := PopFrame(stack, nodes, AstKindOf(DELIMITERS[defIndex].kind), idx, offset);
    var top := stack[|stack| - 1];
    stack := stack[..|stack| - 1];
    var node := AstNode(AstKindOf(DELIMITERS[defIndex].kind), Span(top.contentStart + offset, idx + offset), top.children);
    var pushed := PushNode(stack, nodes, node);
    stack, nodes := pushed.0, pushed.1;
    assert (stack, nodes) == popped;
    lastEmit := idx + closeLen;
    idx := idx + closeLen;
  }

  /// The opening branch: flush the pending text and push a new frame.
  method OpenStep(line: seq<Byte>, offset: nat, idx0: nat, lastEmit0: nat, nodes0: seq<AstNode>,
                  stack0: seq<Delimiter>, defIndex: DefIndex, openLen: nat)
    returns (idx: nat, lastEmit: nat, nodes: seq<AstNode>, stack: seq<Delimiter>)
    ensures ScanState(idx, lastEmit, nodes, stack) == Apply(ScanState(idx0, lastEmit0, nodes0, stack0), Open(defIndex, openLen), offset)
  {
    idx, lastEmit, nodes, stack := idx0, lastEmit0, nodes0, stack0;
    if lastEmit < idx {
      var pushed := PushPlain(stack, nodes, lastEmit, idx, offset);
      stack, nodes := pushed.0, pushed.1;
    }
    stack := stack + [Delimiter(defIndex, idx, idx + openLen, [])];
    lastEmit := idx + openLen;
    idx := idx + openLen;
  }

  /// One iteration of the `while idx < n` loop of `parse_inline`, on its variables. The
  /// `if`/`continue` chain of the loop body is split after each alternative.
  method ScanStep(line: seq<Byte>, offset: nat, idx0: nat, lastEmit0: nat, nodes0: seq<AstNode>, stack0: seq<Delimiter>)
    returns (idx: nat, lastEmit: nat, nodes: seq<AstNode>, stack: seq<Delimiter>)
    requires idx0 < |line|
    ensures var s := ScanState(idx0, lastEmit0, nodes0, stack0);
            ScanState(idx, lastEmit, nodes, stack) == Apply(s, NextAction(line, offset, s), offset)
  {
    var link := ParseLinkOrImage(line, idx0, offset);
    match link
    case Some((node, nextIdx)) =>
      idx, lastEmit, nodes, stack := EmitStep(line, offset, idx0, lastEmit0, nodes0, stack0, node, nextIdx);
    case None =>
      idx, lastEmit, nodes, stack := ScanAfterLink(line, offset, idx0, lastEmit0, nodes0, stack0);
  }

  /// The loop body after the link test: math.
  method ScanAfterLink(line: seq<Byte>, offset: nat, idx0: nat, lastEmit0: nat, nodes0: seq<AstNode>, stack0: seq<Delimiter>)
    returns (idx: nat, lastEmit: nat, nodes: seq<AstNode>, stack: seq<Delimiter>)
    requires idx0 < |line|
    ensures var s := ScanState(idx0, lastEmit0, nodes0, stack0);
            ScanState(idx, lastEmit, nodes, stack) == Apply(s, AfterLink(line, offset, s), offset)
  {
    ghost var s := ScanState(idx0, lastEmit0, nodes0, stack0);
    if line[idx0] == DOLLAR {
      var run := if idx0 + 1 < |line| && line[idx0 + 1] == DOLLAR then 2 else 1;
      assert run == MathRun(line, idx0);
      var math := ExtractBacktickSpan(line, idx0 + run);
      if math.Some? {
        var m := math.value;
        var kind := if run == 2 then MathDisplay else MathInline;
        var node := AstNode(kind, Span(m.start + offset, m.end + offset), []);
        assert AfterLink(line, offset, s) == Emit(node, m.next);
        idx, lastEmit, nodes, stack := EmitStep(line, offset, idx0, lastEmit0, nodes0, stack0, node, m.next);
        return;
      }
    }
    assert AfterLink(line, offset, s) == AfterMath(line, offset, s);
    idx, lastEmit, nodes, stack := ScanAfterMath(line, offset, idx0, lastEmit0, nodes0, stack0);
  }

  /// The loop body after the math test: code spans.
  method ScanAfterMath(line: seq<Byte>, offset: nat, idx0: nat, lastEmit0: nat, nodes0: seq<AstNode>, stack0: seq<Delimiter>)
    returns (idx: nat, lastEmit: nat, nodes: seq<AstNode>, stack: seq<Delimiter>)
    requires idx0 < |line|
    ensures var s := ScanState(idx0, lastEmit0, nodes0, stack0);
            ScanState(idx, lastEmit, nodes, stack) == Apply(s, AfterMath(line, offset, s), offset)
  {
    var code := ExtractBacktickSpan(line, idx0);
    match code
    case Some(c) =>
      idx, lastEmit, nodes, stack :=
        EmitStep(line, offset, idx0, lastEmit0, nodes0, stack0, AstNode(Code, Span(c.start + offset, c.end + offset), []), c.next);
    case None =>
      idx, lastEmit, nodes, stack := ScanAfterCode(line, offset, idx0, lastEmit0, nodes0, stack0);
  }

  /// The loop body after the code test: the innermost delimiter's close marker.
  method ScanAfterCode(line: seq<Byte>, offset: nat, idx0: nat, lastEmit0: nat, nodes0: seq<AstNode>, stack0: seq<Delimiter>)
    returns (idx: nat, lastEmit: nat, nodes: seq<AstNode>, stack: seq<Delimiter>)
    requires idx0 < |line|
    ensures var s := ScanState(idx0, lastEmit0, nodes0, stack0);
            ScanState(idx, lastEmit, nodes, stack) == Apply(s, AfterCode(line, s), offset)
  {
    var closing := MatchClosing(line, idx0, stack0);
    match closing
    case Some((defIndex, closeLen)) =>
      idx, lastEmit, nodes, stack := CloseStep(line, offset, idx0, lastEmit0, nodes0, stack0, defIndex, closeLen);
    case None =>
      idx, lastEmit, nodes, stack := ScanAfterClose(line, offset, idx0, lastEmit0, nodes0, stack0);
  }

  /// The loop body after the close test: an open marker, or one byte of plain text.
  method ScanAfterClose(line: seq<Byte>, offset: nat, idx0: nat, lastEmit0: nat, nodes0: seq<AstNode>, stack0: seq<Delimiter>)
    returns (idx: nat, lastEmit: nat, nodes: seq<AstNode>, stack: seq<Delimiter>)
    requires idx0 < |line|
    ensures var s := ScanState(idx0, lastEmit0, nodes0, stack0);
            ScanState(idx, lastEmit, nodes, stack) == Apply(s, AfterClose(line, s), offset)
  {
    var opening := MatchOpening(line, idx0);
    match opening
    case Some((defIndex, openLen)) =>
      idx, lastEmit, nodes, stack := OpenStep(line, offset, idx0, lastEmit0, nodes0, stack0, defIndex, openLen);
    case None =>
      idx, lastEmit, nodes, stack := idx0 + 1, lastEmit0, nodes0, stack0;
  }

  /// `parse_inline`: the `while idx < n` loop over the line, then the demotion of
  /// unmatched delimiters and the final plain text.
  method ParseInline(line: seq<Byte>, offset: nat) returns (nodes: seq<AstNode>)
    ensures nodes == Inlines(line, offset)
    ensures Laid(nodes, offset, offset + |line|)
  {
    var n := |line|;
    nodes := [];
    var stack: seq<Delimiter> := [];
    var lastEmit: nat := 0;
    var idx: nat := 0;

    while idx < n
      invariant lastEmit <= idx <= n
      invariant ScanFrom(line, offset, ScanState(idx, lastEmit, nodes, stack)) == ScanFrom(line, offset, Start())
      decreases n - idx
    {
      ghost var s := ScanState(idx, lastEmit, nodes, stack);
      idx, lastEmit, nodes, stack := ScanStep(line, offset, idx, lastEmit, nodes, stack);
      ScanFromStep(line, offset, s);
    }

    ghost var final := ScanState(idx, lastEmit, nodes, stack);
    if |stack| > 0 {
      lastEmit := Min(lastEmit, MinOpen(stack));
      stack := [];
    }
    if lastEmit < n {
      var pushed := PushPlain(stack, nodes, lastEmit, n, offset);
      stack, nodes := pushed.0, pushed.1;
    }
    assert nodes == Finish(line, offset, final);
    InlinesLaid(line, offset);
  }
}
