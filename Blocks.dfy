/** A block-at-a-time reading of process_malloc.rb, independent of the line-by-line
    state machine: cut the stripped input at its blank lines, give every closed block
    its first three lines as header and the rest as stack, and process the blocks in
    order. `RunMatchesBlocks` proves the state machine computes exactly this. */
module Blocks {
  import opened Wrappers
  import opened Text
  import opened Frames
  import opened Attribution
  import opened Segmenter

  /** `f` applied to every element of `xs`, in order. */
  function MapSeq<A, B>(f: A -> B, xs: seq<A>): (r: seq<B>)
    ensures |r| == |xs|
  {
    if xs == [] then [] else MapSeq(f, xs[..|xs| - 1]) + [f(xs[|xs| - 1])]
  }

  /** Element `k` of the mapped sequence is `f` of element `k`. */
  lemma {:induction false} MapSeqAt<A, B>(f: A -> B, xs: seq<A>)
    ensures forall k :: 0 <= k < |xs| ==> MapSeq(f, xs)[k] == f(xs[k])
  {
    if xs != [] {
      var prev := xs[..|xs| - 1];
      MapSeqAt(f, prev);
      assert forall k :: 0 <= k < |prev| ==> xs[k] == prev[k];
    }
  }

  /** Every input line after `strip!`: `MapSeq(Strip, lines)` written out, as
      `StrippedLinesMap` proves, so that its unfolding is the one `Run` takes. */
  function StrippedLines(lines: seq<string>): (r: seq<string>)
    ensures |r| == |lines|
  {
    if lines == [] then [] else StrippedLines(lines[..|lines| - 1]) + [Strip(lines[|lines| - 1])]
  }

  /** Line `k` of the stripped input is input line `k` stripped. */
  lemma StrippedLinesAt(lines: seq<string>)
    ensures forall k :: 0 <= k < |lines| ==> StrippedLines(lines)[k] == Strip(lines[k])
  {
    StrippedLinesMap(lines);
    MapSeqAt(Strip, lines);
  }

  lemma {:induction false} StrippedLinesMap(lines: seq<string>)
    ensures StrippedLines(lines) == MapSeq(Strip, lines)
  {
    if lines != [] {
      StrippedLinesMap(lines[..|lines| - 1]);
    }
  }

  /** The stripped input cut at its blank lines, the last piece not yet closed. */
  function Pieces(lines: seq<string>): (r: seq<seq<string>>)
    ensures |r| >= 1
  {
    SplitAll(StrippedLines(lines), [])
  }

  /** The blocks that a blank line closes, in input order. */
  function ClosedBlocks(lines: seq<string>): seq<seq<string>> {
    Pieces(lines)[..|Pieces(lines)| - 1]
  }

  /** The lines read since the last blank line. */
  function OpenBlock(lines: seq<string>): seq<string> {
    Pieces(lines)[|Pieces(lines)| - 1]
  }

  function Min(a: int, b: int): int {
    if a <= b then a else b
  }

  /** The header fields of a block: its first three lines, or all of them if it is shorter. */
  function HeaderOf(block: seq<string>): seq<string> {
    block[..Min(HeaderArity, |block|)]
  }

  /** The stack lines of a block: everything after the header. */
  function StackOf(block: seq<string>): seq<string> {
    block[Min(HeaderArity, |block|)..]
  }

  /** What processing a sequence of closed blocks produces. */
  datatype Outcome = Outcome(rows: seq<seq<string>>, rejected: seq<seq<Frame>>, failure: Option<Error>)

  /** One closed block processed after `o`; once the script has stopped nothing changes. */
  function Advance(o: Outcome, b: seq<string>): (r: Outcome)
    ensures o.failure.Some? ==> r == o
    ensures o.rows <= r.rows && o.rejected <= r.rejected
    ensures |r.rows| + |r.rejected| <= |o.rows| + |o.rejected| + 1
    ensures o.failure.None? && r.failure.None? ==> |r.rows| + |r.rejected| == |o.rows| + |o.rejected| + 1
  {
    if o.failure.Some? then o else Apply(o, ProcessBlock(HeaderOf(b), StackOf(b)))
  }

  /** A block's outcome recorded after `o`. */
  function Apply(o: Outcome, b: BlockOutcome): (r: Outcome)
    ensures o.rows <= r.rows && o.rejected <= r.rejected
    ensures b.Crash? <==> r.rows == o.rows && r.rejected == o.rejected
    ensures b.Crash? ==> r.failure == Some(b.error)
    ensures !b.Crash? ==> r.failure == o.failure && |r.rows| + |r.rejected| == |o.rows| + |o.rejected| + 1
    ensures |r.rows| == |o.rows| + (if b.Emit? then 1 else 0)
  {
    match b
    case Emit(row) => o.(rows := o.rows + [row])
    case Discard(frames) => o.(rejected := o.rejected + [frames])
    case Crash(e) => o.(failure := Some(e))
  }

  /** The closed blocks processed in order, stopping at the first one that makes the script fail.
      Every block processed before a failure yields exactly one row or one rejected stack. */
  function ProcessBlocks(blocks: seq<seq<string>>): (r: Outcome)
    ensures r.failure.None? ==> |r.rows| + |r.rejected| == |blocks|
    ensures |r.rows| + |r.rejected| <= |blocks|
  {
    if blocks == [] then Outcome([], [], None)
    else Advance(ProcessBlocks(blocks[..|blocks| - 1]), blocks[|blocks| - 1])
  }

  /** Rows appear in block order: the rows and rejected stacks of a prefix of the blocks
      are prefixes of the rows and rejected stacks of all of them. */
  lemma {:induction false} RowsInBlockOrder(blocks: seq<seq<string>>, j: nat)
    requires j <= |blocks|
    ensures ProcessBlocks(blocks[..j]).rows <= ProcessBlocks(blocks).rows
    ensures ProcessBlocks(blocks[..j]).rejected <= ProcessBlocks(blocks).rejected
    decreases |blocks| - j
  {
    if j < |blocks| {
      var front := blocks[..|blocks| - 1];
      assert front[..j] == blocks[..j];
      RowsInBlockOrder(front, j);
    } else {
      assert blocks[..j] == blocks;
    }
  }

  /** The line-by-line state machine and the block reading agree: the same rows after the
      column header, the same rejected stacks and the same failure; and while the script
      runs, its header and stack hold the header and stack of the block still open. */
  lemma {:induction false} RunMatchesBlocks(lines: seq<string>)
    ensures Agrees(Run(lines), ProcessBlocks(ClosedBlocks(lines)), OpenBlock(lines))
  {
    if lines == [] {
      assert StrippedLines(lines) == [];
    } else {
      var prev := lines[..|lines| - 1];
      var line := lines[|lines| - 1];
      RunMatchesBlocks(prev);
      RunValid(prev);
      PiecesSnoc(lines);
      var closed, open := ClosedBlocks(prev), OpenBlock(prev);
      if Strip(line) == [] {
        assert (closed + [open])[..|closed|] == closed;
        BlankAgrees(Run(prev), ProcessBlocks(closed), open, line);
      } else {
        NonBlankAgrees(Run(prev), ProcessBlocks(closed), open, line);
      }
    }
  }

  /** State `s` of the line-by-line machine corresponds to outcome `o` of the closed blocks
      with block `open` still being read. */
  predicate Agrees(s: State, o: Outcome, open: seq<string>) {
    && s.rows == [ColumnNames] + o.rows && s.rejected == o.rejected && s.failure == o.failure
    && (s.failure.None? ==> s.entry == HeaderOf(open) && s.stack == StackOf(open))
  }

  /** How one more line moves the closed blocks and the open block. */
  lemma PiecesSnoc(lines: seq<string>)
    requires lines != []
    ensures var prev, l := lines[..|lines| - 1], Strip(lines[|lines| - 1]);
            if l == [] then ClosedBlocks(lines) == ClosedBlocks(prev) + [OpenBlock(prev)] && OpenBlock(lines) == []
            else ClosedBlocks(lines) == ClosedBlocks(prev) && OpenBlock(lines) == OpenBlock(prev) + [l]
  {
    var prev, l := lines[..|lines| - 1], Strip(lines[|lines| - 1]);
    var s := StrippedLines(prev);
    assert StrippedLines(lines) == s + [l];
    PiecesParts(s, l);
  }

  /** How one more stripped line moves the pieces. */
  lemma PiecesParts(s: seq<string>, l: string)
    ensures var p, q := SplitAll(s, []), SplitAll(s + [l], []);
            |q| >= 1 && |p| >= 1 &&
            if l == [] then q[..|q| - 1] == p[..|p| - 1] + [p[|p| - 1]] && q[|q| - 1] == []
            else q[..|q| - 1] == p[..|p| - 1] && q[|q| - 1] == p[|p| - 1] + [l]
  {
    SplitAllSnocParts(s, l, []);
    var p := SplitAll(s, []);
    assert p == p[..|p| - 1] + [p[|p| - 1]];
  }

  /** A blank line closes the open block exactly as `Advance` processes it. */
  lemma BlankAgrees(s: State, o: Outcome, open: seq<string>, line: string)
    requires Agrees(s, o, open) && Strip(line) == []
    ensures Agrees(Step(s, line), Advance(o, open), [])
  {
    if s.failure.None? {
      BlankStep(s, line);
      CloseAgrees(s, o, open, ProcessBlock(s.entry, s.stack));
    }
  }

  lemma CloseAgrees(s: State, o: Outcome, open: seq<string>, b: BlockOutcome)
    requires Agrees(s, o, open) && s.failure.None?
    ensures Agrees(Close(s, b), Apply(o, b), [])
  {
  }

  /** A non-blank line extends the open block: a header line while fewer than three are held,
      a stack line afterwards. */
  lemma NonBlankAgrees(s: State, o: Outcome, open: seq<string>, line: string)
    requires Agrees(s, o, open) && Valid(s) && Strip(line) != []
    ensures Agrees(Step(s, line), o, open + [Strip(line)])
  {
    var l := Strip(line);
    if s.failure.None? {
      if |open| < HeaderArity {
        assert (open + [l])[..|open| + 1] == open + [l];
      } else {
        assert (open + [l])[..HeaderArity] == open[..HeaderArity];
        assert (open + [l])[HeaderArity..] == open[HeaderArity..] + [l];
      }
    }
  }

  /** A block whose normalised second frame exists and is not "ruby": it is discarded. */
  predicate IsForeign(b: seq<string>) {
    var frames := NormalizeStack(StackOf(b));
    frames.Ok? && |frames.value| >= 2 && frames.value[1].lib != Ruby
  }

  /** The number of blocks that pass the index-1 check. */
  function Passing(blocks: seq<seq<string>>): nat {
    if blocks == [] then 0
    else Passing(blocks[..|blocks| - 1]) + (if IsForeign(blocks[|blocks| - 1]) then 0 else 1)
  }

  /** Unless the script stops, the rows are the blocks that pass the index-1 check and the
      rejected stacks are the foreign ones. */
  lemma {:induction false} PassingRows(blocks: seq<seq<string>>)
    requires ProcessBlocks(blocks).failure.None?
    ensures |ProcessBlocks(blocks).rows| == Passing(blocks)
    ensures |ProcessBlocks(blocks).rejected| == |blocks| - Passing(blocks)
  {
    if blocks != [] {
      var front, b := blocks[..|blocks| - 1], blocks[|blocks| - 1];
      PassingRows(front);
      AdvanceCounts(ProcessBlocks(front), b);
    }
  }

  /** A processed block that does not stop the script adds a row exactly when it is not foreign. */
  lemma AdvanceCounts(o: Outcome, b: seq<string>)
    requires o.failure.None? && Advance(o, b).failure.None?
    ensures IsForeign(b) ==> Advance(o, b) == o.(rejected := Advance(o, b).rejected) && |Advance(o, b).rejected| == |o.rejected| + 1
    ensures !IsForeign(b) ==> Advance(o, b) == o.(rows := Advance(o, b).rows) && |Advance(o, b).rows| == |o.rows| + 1
  {
    ProcessBlockOutcomes(HeaderOf(b), StackOf(b));
  }

  /** The number of blank lines in the input. */
  function BlankLines(lines: seq<string>): nat {
    if lines == [] then 0
    else BlankLines(lines[..|lines| - 1]) + (if IsBlank(lines[|lines| - 1]) then 1 else 0)
  }

  /** One block is closed per blank line. */
  lemma ClosedBlockCount(lines: seq<string>)
    ensures |ClosedBlocks(lines)| == BlankLines(lines)
  {
    SplitAllLength(StrippedLines(lines), []);
    BlankCountStripped(lines);
  }

  lemma {:induction false} BlankCountStripped(lines: seq<string>)
    ensures Count(StrippedLines(lines), []) == BlankLines(lines)
  {
    if lines != [] {
      var prev := lines[..|lines| - 1];
      BlankCountStripped(prev);
      assert StrippedLines(lines)[..|lines| - 1] == StrippedLines(prev);
    }
  }

  /** Unless the script stops, every blank line yields exactly one row or one rejected stack,
      and the rows after the column header are the closed blocks that pass the index-1 check. */
  lemma RowCountLaw(lines: seq<string>)
    requires Run(lines).failure.None?
    ensures |Run(lines).rows| - 1 + |Run(lines).rejected| == BlankLines(lines)
    ensures |Run(lines).rows| - 1 == Passing(ClosedBlocks(lines))
  {
    RunMatchesBlocks(lines);
    ClosedBlockCount(lines);
    assert Run(lines).rows == [ColumnNames] + ProcessBlocks(ClosedBlocks(lines)).rows;
    PassingRows(ClosedBlocks(lines));
  }
}
