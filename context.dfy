/// The line-based parsing context (src/parser/context.rs): newline normalization, a
/// one-time index of line ranges, and a cursor over the lines not yet consumed.
module LineContext {
  import opened Ast

  const LF: Byte := 0x0A
  const CR: Byte := 0x0D

  // ---------------------------------------------------------------------------
  // Newline normalization
  // ---------------------------------------------------------------------------

  /// `str::replace("\r\n", "\n")`: a left-to-right scan that turns each CR LF pair into LF.
  function ReplaceCrLf(s: seq<Byte>): seq<Byte>
    decreases |s|
  {
    if |s| == 0 then []
    else if |s| >= 2 && s[0] == CR && s[1] == LF then [LF] + ReplaceCrLf(s[2..])
    else [s[0]] + ReplaceCrLf(s[1..])
  }

  /// `str::replace('\r', "\n")`: every remaining CR becomes LF.
  function ReplaceCr(s: seq<Byte>): (r: seq<Byte>)
    ensures |r| == |s| && CR !in r
  {
    seq(|s|, i requires 0 <= i < |s| => if s[i] == CR then LF else s[i])
  }

  /// `normalize_newlines`: the two replacements, in the source's order. The result is no
  /// longer than the text, so positions in it are at most the source's length, and it
  /// holds no CR.
  function NormalizeNewlines(src: seq<Byte>): (r: seq<Byte>)
    ensures |r| <= |src| && CR !in r
  {
    ReplaceCrLfShrinks(src);
    ReplaceCr(ReplaceCrLf(src))
  }

  /// Reference definition of the normalization in one pass: a CR LF pair or a lone CR
  /// becomes a single LF, every other byte is copied.
  function NewlineFold(s: seq<Byte>): seq<Byte>
    decreases |s|
  {
    if |s| == 0 then []
    else if s[0] == CR then [LF] + NewlineFold(if |s| >= 2 && s[1] == LF then s[2..] else s[1..])
    else [s[0]] + NewlineFold(s[1..])
  }

  lemma ReplaceCrAppend(a: seq<Byte>, b: seq<Byte>)
    ensures ReplaceCr(a + b) == ReplaceCr(a) + ReplaceCr(b)
  {
    assert forall i | 0 <= i < |a + b| :: ReplaceCr(a + b)[i] == (ReplaceCr(a) + ReplaceCr(b))[i];
  }

  /// Normalization handles the text's first byte, or its leading CR LF pair, on its own.
  lemma NormalizeStep(s: seq<Byte>)
    requires |s| > 0
    ensures |s| >= 2 && s[0] == CR && s[1] == LF ==> NormalizeNewlines(s) == [LF] + NormalizeNewlines(s[2..])
    ensures !(|s| >= 2 && s[0] == CR && s[1] == LF) ==>
              NormalizeNewlines(s) == [if s[0] == CR then LF else s[0]] + NormalizeNewlines(s[1..])
  {
    if |s| >= 2 && s[0] == CR && s[1] == LF {
      assert ReplaceCrLf(s) == [LF] + ReplaceCrLf(s[2..]);
      ReplaceCrAppend([LF], ReplaceCrLf(s[2..]));
      assert ReplaceCr([LF]) == [LF];
    } else {
      assert ReplaceCrLf(s) == [s[0]] + ReplaceCrLf(s[1..]);
      ReplaceCrAppend([s[0]], ReplaceCrLf(s[1..]));
      assert ReplaceCr([s[0]]) == [if s[0] == CR then LF else s[0]];
    }
  }

  /// The two-pass replacement agrees with the one-pass reference definition.
  lemma {:induction false} NormalizeIsOnePass(s: seq<Byte>)
    ensures NormalizeNewlines(s) == NewlineFold(s)
    decreases |s|
  {
    if |s| > 0 {
      NormalizeStep(s);
      if |s| >= 2 && s[0] == CR && s[1] == LF {
        NormalizeIsOnePass(s[2..]);
      } else {
        NormalizeIsOnePass(s[1..]);
      }
    }
  }

  /// Replacing CR LF pairs never lengthens the text.
  lemma {:induction false} ReplaceCrLfShrinks(s: seq<Byte>)
    ensures |ReplaceCrLf(s)| <= |s|
    decreases |s|
  {
    if |s| >= 2 && s[0] == CR && s[1] == LF {
      ReplaceCrLfShrinks(s[2..]);
    } else if |s| > 0 {
      ReplaceCrLfShrinks(s[1..]);
    }
  }

  /// Text without CR is left unchanged.
  lemma {:induction false} NormalizeKeepsCrFree(s: seq<Byte>)
    requires CR !in s
    ensures NormalizeNewlines(s) == s
    decreases |s|
  {
    NormalizeIsOnePass(s);
    if |s| > 0 {
      assert CR !in s[1..] by {
        forall b | b in s[1..] ensures b != CR { assert b in s; }
      }
      NormalizeKeepsCrFree(s[1..]);
      NormalizeIsOnePass(s[1..]);
      assert s == [s[0]] + s[1..];
    }
  }

  /// Normalizing twice is the same as normalizing once.
  lemma NormalizeIdempotent(s: seq<Byte>)
    ensures NormalizeNewlines(NormalizeNewlines(s)) == NormalizeNewlines(s)
  {
    NormalizeKeepsCrFree(NormalizeNewlines(s));
  }

  /// Normalization keeps ASCII text ASCII: it only replaces CR (and CR LF) by LF.
  lemma {:induction false} NormalizeKeepsAscii(s: seq<Byte>)
    requires IsAscii(s)
    ensures IsAscii(NormalizeNewlines(s))
    decreases |s|
  {
    if |s| > 0 {
      NormalizeStep(s);
      var rest := if |s| >= 2 && s[0] == CR && s[1] == LF then s[2..] else s[1..];
      assert IsAscii(rest) by {
        forall i | 0 <= i < |rest| ensures rest[i] < 0x80 {
          assert rest[i] == s[i + |s| - |rest|];
        }
      }
      NormalizeKeepsAscii(rest);
    }
  }

  // ---------------------------------------------------------------------------
  // Line index
  // ---------------------------------------------------------------------------

  /// A line's byte range in the normalized buffer, trailing LF included (`Range`).
  datatype LineRange = LineRange(start: nat, end: nat)

  /// No LF in buf[lo..hi].
  predicate NoLf(buf: seq<Byte>, lo: nat, hi: nat)
    requires lo <= hi <= |buf|
  {
    forall p :: lo <= p < hi ==> buf[p] != LF
  }

  /// The end of the line that starts at `s`: just past the first LF at or after `s`,
  /// or the end of the buffer.
  function LineEnd(buf: seq<Byte>, s: nat): (e: nat)
    requires s < |buf|
    ensures s < e <= |buf|
    ensures NoLf(buf, s, e - 1)
    ensures e < |buf| ==> buf[e - 1] == LF
    decreases |buf| - s
  {
    if buf[s] == LF then s + 1
    else if s + 1 == |buf| then |buf|
    else LineEnd(buf, s + 1)
  }

  /// The line ranges of buf[s..], in order.
  function LinesFrom(buf: seq<Byte>, s: nat): (rs: seq<LineRange>)
    requires s <= |buf|
    ensures forall k :: 0 <= k < |rs| ==> s <= rs[k].start < rs[k].end <= |buf|
    decreases |buf| - s
  {
    if s == |buf| then []
    else
      var e := LineEnd(buf, s);
      [LineRange(s, e)] + LinesFrom(buf, e)
  }

  /// What `index_lines` computes, as a function of the buffer: no range for an empty
  /// buffer, otherwise non-empty ranges inside the buffer from its first byte to its last.
  function LineIndex(buf: seq<Byte>): (rs: seq<LineRange>)
    ensures |rs| == 0 <==> |buf| == 0
    ensures |rs| > 0 ==> rs[0].start == 0 && rs[|rs| - 1].end == |buf|
    ensures forall k :: 0 <= k < |rs| ==> rs[k].start < rs[k].end <= |buf|
  {
    LinesFromWellFormed(buf, 0);
    LinesFrom(buf, 0)
  }

  /// `rs` splits buf[s..] into lines: the ranges are non-empty and contiguous, the first
  /// starts at `s`, the last ends at the end of the buffer, every range but the last ends
  /// just after an LF, and no range holds an LF before its last byte.
  predicate IsLineIndexFrom(buf: seq<Byte>, s: nat, rs: seq<LineRange>)
  {
    && (|rs| == 0 <==> s == |buf|)
    && (|rs| > 0 ==> rs[0].start == s && rs[|rs| - 1].end == |buf|)
    && (forall k :: 0 <= k < |rs| ==> rs[k].start < rs[k].end <= |buf|)
    && (forall k :: 0 <= k < |rs| - 1 ==> rs[k].end == rs[k + 1].start)
    && (forall k :: 0 <= k < |rs| - 1 ==> buf[rs[k].end - 1] == LF)
    && (forall k :: 0 <= k < |rs| ==> NoLf(buf, rs[k].start, rs[k].end - 1))
  }

  predicate IsLineIndex(buf: seq<Byte>, rs: seq<LineRange>)
  {
    IsLineIndexFrom(buf, 0, rs)
  }

  /// The ranges of a line put in front of the index of the rest are non-empty, inside
  /// the buffer and hold no LF before their last byte.
  lemma ConsLineRanges(buf: seq<Byte>, s: nat, e: nat, rest: seq<LineRange>)
    requires s < e <= |buf|
    requires NoLf(buf, s, e - 1)
    requires IsLineIndexFrom(buf, e, rest)
    ensures var rs := [LineRange(s, e)] + rest;
            forall k :: 0 <= k < |rs| ==> rs[k].start < rs[k].end <= |buf| && NoLf(buf, rs[k].start, rs[k].end - 1)
  {
    var rs := [LineRange(s, e)] + rest;
    forall k | 0 <= k < |rs| ensures rs[k].start < rs[k].end <= |buf| && NoLf(buf, rs[k].start, rs[k].end - 1) {
      if k > 0 { assert rs[k] == rest[k - 1]; }
    }
  }

  /// The ranges of a line put in front of the index of the rest are contiguous, and all
  /// but the last end just after an LF.
  lemma ConsLineLinks(buf: seq<Byte>, s: nat, e: nat, rest: seq<LineRange>)
    requires s < e <= |buf|
    requires e < |buf| ==> buf[e - 1] == LF
    requires IsLineIndexFrom(buf, e, rest)
    ensures var rs := [LineRange(s, e)] + rest;
            forall k :: 0 <= k < |rs| - 1 ==> rs[k].end == rs[k + 1].start && buf[rs[k].end - 1] == LF
  {
    var rs := [LineRange(s, e)] + rest;
    forall k | 0 <= k < |rs| - 1 ensures rs[k].end == rs[k + 1].start && buf[rs[k].end - 1] == LF {
      assert rs[k + 1] == rest[k];
      if k > 0 { assert rs[k] == rest[k - 1]; }
    }
  }

  /// Putting a line in front of the index of the rest of the buffer.
  lemma ConsLine(buf: seq<Byte>, s: nat, e: nat, rest: seq<LineRange>)
    requires s < e <= |buf|
    requires NoLf(buf, s, e - 1)
    requires e < |buf| ==> buf[e - 1] == LF
    requires IsLineIndexFrom(buf, e, rest)
    ensures IsLineIndexFrom(buf, s, [LineRange(s, e)] + rest)
  {
    ConsLineRanges(buf, s, e, rest);
    ConsLineLinks(buf, s, e, rest);
    if |rest| > 0 {
      var rs := [LineRange(s, e)] + rest;
      assert rs[|rs| - 1] == rest[|rest| - 1];
    }
  }

  lemma {:induction false} LinesFromWellFormed(buf: seq<Byte>, s: nat)
    requires s <= |buf|
    ensures IsLineIndexFrom(buf, s, LinesFrom(buf, s))
    decreases |buf| - s
  {
    if s < |buf| {
      var e := LineEnd(buf, s);
      LinesFromWellFormed(buf, e);
      ConsLine(buf, s, e, LinesFrom(buf, e));
    }
  }

  /// The computed index splits the buffer into lines.
  lemma LineIndexWellFormed(buf: seq<Byte>)
    ensures IsLineIndex(buf, LineIndex(buf))
  {
    LinesFromWellFormed(buf, 0);
  }

  /// The end of a line is determined by where it starts.
  lemma {:induction false} LineEndUnique(buf: seq<Byte>, s: nat, e: nat)
    requires s < e <= |buf|
    requires NoLf(buf, s, e - 1)
    requires e < |buf| ==> buf[e - 1] == LF
    ensures e == LineEnd(buf, s)
    decreases e - s
  {
    if buf[s] == LF {
      assert e - 1 == s;
    } else if s + 1 < |buf| {
      LineEndUnique(buf, s + 1, e);
    }
  }

  lemma {:induction false} LinesFromUnique(buf: seq<Byte>, s: nat, rs: seq<LineRange>)
    requires s <= |buf|
    requires IsLineIndexFrom(buf, s, rs)
    ensures rs == LinesFrom(buf, s)
    decreases |buf| - s
  {
    if s < |buf| {
      var e := rs[0].end;
      if |rs| == 1 {
        LineEndUnique(buf, s, e);
        assert LinesFrom(buf, e) == [];
      } else {
        LineEndUnique(buf, s, e);
        var rest := rs[1..];
        assert e == rs[1].start < rs[1].end <= |buf|;
        assert IsLineIndexFrom(buf, e, rest) by {
          forall k | 0 <= k < |rest|
            ensures rest[k].start < rest[k].end <= |buf| && NoLf(buf, rest[k].start, rest[k].end - 1)
          {
            assert rest[k] == rs[k + 1];
          }
          forall k | 0 <= k < |rest| - 1
            ensures rest[k].end == rest[k + 1].start && buf[rest[k].end - 1] == LF
          {
            assert rest[k] == rs[k + 1] && rest[k + 1] == rs[k + 2];
          }
          assert rest[|rest| - 1] == rs[|rs| - 1];
        }
        LinesFromUnique(buf, e, rest);
        assert rs == [rs[0]] + rest;
      }
    }
  }

  /// The split into lines is unique: any index with the line properties is the one
  /// `index_lines` computes.
  lemma LineIndexUnique(buf: seq<Byte>, rs: seq<LineRange>)
    requires IsLineIndex(buf, rs)
    ensures rs == LineIndex(buf)
  {
    LinesFromUnique(buf, 0, rs);
  }

  /// The bytes covered by the ranges, in order.
  function Covered(buf: seq<Byte>, rs: seq<LineRange>): seq<Byte>
    requires forall k :: 0 <= k < |rs| ==> rs[k].start <= rs[k].end <= |buf|
  {
    if |rs| == 0 then [] else buf[rs[0].start..rs[0].end] + Covered(buf, rs[1..])
  }

  lemma {:induction false} LinesFromCover(buf: seq<Byte>, s: nat)
    requires s <= |buf|
    ensures Covered(buf, LinesFrom(buf, s)) == buf[s..]
    decreases |buf| - s
  {
    if s < |buf| {
      var e := LineEnd(buf, s);
      var rs := LinesFrom(buf, s);
      assert rs[1..] == LinesFrom(buf, e);
      LinesFromCover(buf, e);
      assert buf[s..] == buf[s..e] + buf[e..];
    }
  }

  /// Concatenating the lines, terminators included, rebuilds the buffer.
  lemma LinesRebuildBuffer(buf: seq<Byte>)
    ensures Covered(buf, LineIndex(buf)) == buf
  {
    LinesFromCover(buf, 0);
  }

  /// A line that starts at `start` and has no LF before the LF at `idx` ends just after it.
  lemma LinesFromAtLf(buf: seq<Byte>, start: nat, idx: nat)
    requires start <= idx < |buf| && buf[idx] == LF
    requires NoLf(buf, start, idx)
    ensures LinesFrom(buf, start) == [LineRange(start, idx + 1)] + LinesFrom(buf, idx + 1)
  {
    LineEndUnique(buf, start, idx + 1);
  }

  /// A line that starts at `start` and meets no LF runs to the end of the buffer.
  lemma LinesFromLast(buf: seq<Byte>, start: nat)
    requires start < |buf|
    requires NoLf(buf, start, |buf|)
    ensures LinesFrom(buf, start) == [LineRange(start, |buf|)]
  {
    LineEndUnique(buf, start, |buf|);
  }

  /// `index_lines`: one pass over the buffer, closing a range after every LF and adding
  /// a final range when the buffer does not end with LF.
  method IndexLines(buf: seq<Byte>) returns (ranges: seq<LineRange>)
    ensures ranges == LineIndex(buf)
  {
    ranges := [];
    var start := 0;
    for idx := 0 to |buf|
      invariant start <= idx
      invariant NoLf(buf, start, idx)
      invariant ranges + LinesFrom(buf, start) == LinesFrom(buf, 0)
    {
      if buf[idx] == LF {
        IndexLinesAtLf(buf, ranges, start, idx);
        ranges := ranges + [LineRange(start, idx + 1)];
        start := idx + 1;
      }
    }
    if start < |buf| {
      LinesFromLast(buf, start);
      ranges := ranges + [LineRange(start, |buf|)];
    }
  }

  /// The LF branch of `index_lines`: closing the range at the LF keeps the ranges so far,
  /// followed by the ranges from the next line, equal to the whole index.
  lemma IndexLinesAtLf(buf: seq<Byte>, ranges: seq<LineRange>, start: nat, idx: nat)
    requires start <= idx < |buf| && buf[idx] == LF && NoLf(buf, start, idx)
    requires ranges + LinesFrom(buf, start) == LinesFrom(buf, 0)
    ensures (ranges + [LineRange(start, idx + 1)]) + LinesFrom(buf, idx + 1) == LinesFrom(buf, 0)
  {
    LinesFromAtLf(buf, start, idx);
    AppendAssoc(ranges, [LineRange(start, idx + 1)], LinesFrom(buf, idx + 1));
  }

  /// Concatenation of ranges is associative.
  lemma AppendAssoc(a: seq<LineRange>, b: seq<LineRange>, c: seq<LineRange>)
    ensures (a + b) + c == a + (b + c)
  {
  }

  /// The text of a line with one trailing LF removed.
  function LineText(buf: seq<Byte>, r: LineRange): seq<Byte>
    requires r.start <= r.end <= |buf|
  {
    var end := if r.end > r.start && buf[r.end - 1] == LF then r.end - 1 else r.end;
    buf[r.start..end]
  }

  /// The number of lines of the buffer.
  function LineCount(buf: seq<Byte>): nat
  {
    |LineIndex(buf)|
  }

  /// The text of line `k`, without its terminator.
  function Line(buf: seq<Byte>, k: nat): seq<Byte>
    requires k < LineCount(buf)
  {
    LineText(buf, LineIndex(buf)[k])
  }

  /// A line's text holds no LF, and putting the terminator back gives its range's bytes.
  lemma LineHasNoLf(buf: seq<Byte>, k: nat)
    requires k < LineCount(buf)
    ensures LF !in Line(buf, k)
    ensures var r := LineIndex(buf)[k];
            buf[r.start..r.end] == Line(buf, k) || buf[r.start..r.end] == Line(buf, k) + [LF]
  {
    LineIndexWellFormed(buf);
    var r := LineIndex(buf)[k];
    assert NoLf(buf, r.start, r.end - 1);
    var t := Line(buf, k);
    forall i | 0 <= i < |t| ensures t[i] != LF {
      assert t[i] == buf[r.start + i];
    }
    if buf[r.end - 1] == LF {
      assert buf[r.start..r.end] == buf[r.start..r.end - 1] + [LF];
    }
  }

  // ---------------------------------------------------------------------------
  // Blank lines
  // ---------------------------------------------------------------------------

  /// The length of the UTF-8 encoding of a Unicode White_Space character at the head of
  /// `s` (U+0009..U+000D, U+0020, U+0085, U+00A0, U+1680, U+2000..U+200A, U+2028,
  /// U+2029, U+202F, U+205F, U+3000), or 0 when `s` does not start with one.
  function WhitespaceLen(s: seq<Byte>): (k: nat)
    ensures k <= |s|
  {
    if |s| >= 1 && (0x09 <= s[0] <= 0x0D || s[0] == 0x20) then 1
    else if |s| >= 2 && s[0] == 0xC2 && (s[1] == 0x85 || s[1] == 0xA0) then 2
    else if |s| >= 3 && s[0] == 0xE1 && s[1] == 0x9A && s[2] == 0x80 then 3
    else if |s| >= 3 && s[0] == 0xE2 && s[1] == 0x80 &&
            (0x80 <= s[2] <= 0x8A || s[2] == 0xA8 || s[2] == 0xA9 || s[2] == 0xAF) then 3
    else if |s| >= 3 && s[0] == 0xE2 && s[1] == 0x81 && s[2] == 0x9F then 3
    else if |s| >= 3 && s[0] == 0xE3 && s[1] == 0x80 && s[2] == 0x80 then 3
    else 0
  }

  /// `is_blank`: the line is empty or made only of whitespace characters
  /// (`line.trim().is_empty()`).
  predicate IsBlank(line: seq<Byte>)
    decreases |line|
  {
    |line| == 0 || (WhitespaceLen(line) > 0 && IsBlank(line[WhitespaceLen(line)..]))
  }

  predicate IsAsciiWhitespace(b: Byte)
  {
    0x09 <= b <= 0x0D || b == 0x20
  }

  /// On ASCII text a line is blank exactly when each of its bytes is whitespace.
  lemma {:induction false} BlankAsciiIff(line: seq<Byte>)
    requires IsAscii(line)
    ensures IsBlank(line) <==> forall i :: 0 <= i < |line| ==> IsAsciiWhitespace(line[i])
    decreases |line|
  {
    if |line| > 0 {
      var rest := line[1..];
      assert IsAscii(rest) by {
        forall i | 0 <= i < |rest| ensures rest[i] < 0x80 { assert rest[i] == line[i + 1]; }
      }
      BlankAsciiIff(rest);
      if IsAsciiWhitespace(line[0]) {
        assert WhitespaceLen(line) == 1;
        forall i | 0 <= i < |rest| ensures rest[i] == line[i + 1] { }
      } else {
        assert WhitespaceLen(line) == 0;
      }
    }
  }

  /// A line that starts with a printable ASCII byte is not blank.
  lemma PrintableStartNotBlank(line: seq<Byte>)
    requires |line| > 0 && 0x21 <= line[0] <= 0x7E
    ensures !IsBlank(line)
  {
    assert WhitespaceLen(line) == 0;
  }

  /// A blank line holds no printable ASCII byte: `trim` removes only white space.
  lemma {:induction false} BlankHasNoPrintable(line: seq<Byte>)
    requires IsBlank(line)
    ensures forall i :: 0 <= i < |line| ==> !(0x21 <= line[i] <= 0x7E)
    decreases |line|
  {
    if |line| > 0 {
      var n := WhitespaceLen(line);
      BlankHasNoPrintable(line[n..]);
      forall i | 0 <= i < |line|
        ensures !(0x21 <= line[i] <= 0x7E)
      {
        if i >= n {
          assert line[i] == line[n..][i - n];
        }
      }
    }
  }

  // ---------------------------------------------------------------------------
  // The context
  // ---------------------------------------------------------------------------

  /// `Context`: the normalized buffer, its line index, and the index of the first line
  /// not yet consumed.
  class Context {
    const buf: seq<Byte>
    const lineRange: seq<LineRange>
    var curLinePosition: nat

    ghost predicate Valid()
      reads this
    {
      lineRange == LineIndex(buf) && curLinePosition <= |lineRange|
    }

    /// `Context::new`: normalize the newlines, index the lines, start at the first line.
    constructor (src: seq<Byte>)
      ensures Valid()
      ensures buf == NormalizeNewlines(src) && curLinePosition == 0
    {
      var normalized := NormalizeNewlines(src);
      var ranges := IndexLines(normalized);
      buf := normalized;
      lineRange := ranges;
      curLinePosition := 0;
    }

    /// `peek_line_n`: the line `n` places ahead of the cursor, without its LF, or None
    /// past the last line.
    function PeekLineN(n: nat): (r: Option<seq<Byte>>)
      reads this
      requires Valid()
      ensures r.None? <==> curLinePosition + n >= |lineRange|
      ensures r.Some? ==> r.value == Line(buf, curLinePosition + n) && LF !in r.value
    {
      var j := curLinePosition + n;
      if j < |lineRange| then
        LineHasNoLf(buf, j);
        Some(LineText(buf, lineRange[j]))
      else None
    }

    /// `peek_line`: the current line.
    function PeekLine(): (r: Option<seq<Byte>>)
      reads this
      requires Valid()
      ensures r == PeekLineN(0)
    {
      PeekLineN(0)
    }

    /// `is_eof`: every line has been consumed, which is exactly when there is no current
    /// line to peek.
    function IsEof(): (r: bool)
      reads this
      ensures Valid() ==> (r <==> PeekLine().None?)
    {
      curLinePosition >= |lineRange|
    }

    /// `current_line`: the current line, or the empty text at the end.
    function CurrentLine(): (line: seq<Byte>)
      reads this
      requires Valid()
      ensures IsEof() ==> line == []
      ensures !IsEof() ==> line == Line(buf, curLinePosition)
    {
      match PeekLine()
      case Some(l) => l
      case None => []
    }

    /// `advance`: move past the current line; nothing happens at the end.
    method Advance()
      requires Valid()
      modifies this
      ensures Valid()
      ensures curLinePosition == if old(IsEof()) then old(curLinePosition) else old(curLinePosition) + 1
    {
      if !IsEof() {
        curLinePosition := curLinePosition + 1;
      }
    }
  }
}
