/** The per-line state machine of process_malloc.rb: `reset` and the body of the
    `ARGF.each_with_object` loop, first as a function on states, then as the
    class whose fields the script's instance variables are. */
module Segmenter {
  import opened Wrappers
  import opened Text
  import opened Frames
  import opened Attribution

  /** The number of header lines at the top of every block. */
  const HeaderArity: nat := 3

  /** The column header written before any input is read. */
  const ColumnNames: seq<string> := ["allocator", "timestamp", "bytes_requested", "caller"]

  /** `@counter`, `@entry` and `@stack`, together with what the script has produced so
      far: the CSV rows, the stacks printed to stderr, and the failure that stopped it. */
  datatype State = State(counter: nat, entry: seq<string>, stack: seq<string>,
                         rows: seq<seq<string>>, rejected: seq<seq<Frame>>,
                         failure: Option<Error>)

  /** The state after the column header is written and `reset` has run once. */
  function Initial(): State {
    State(0, [], [], [ColumnNames], [], None)
  }

  /** One iteration of the loop body on `line`; a stopped script ignores the rest of its input. */
  function Step(s: State, line: string): (r: State)
    ensures s.failure.Some? ==> r == s
    ensures s.failure.None? && IsBlank(line) && r.failure.None? ==>
              r.counter == 0 && r.entry == [] && r.stack == []
    ensures !IsBlank(line) ==> r.rows == s.rows && r.rejected == s.rejected && r.failure == s.failure
    ensures |s.rows| <= |r.rows| <= |s.rows| + 1 && r.rows[..|s.rows|] == s.rows
    ensures |s.rejected| <= |r.rejected| <= |s.rejected| + 1 && r.rejected[..|s.rejected|] == s.rejected
    ensures |r.rows| + |r.rejected| <= |s.rows| + |s.rejected| + 1
  {
    if s.failure.Some? then s
    else
      var l := Strip(line);
      if l == [] then Close(s, ProcessBlock(s.entry, s.stack))
      else if s.counter < HeaderArity then s.(counter := s.counter + 1, entry := s.entry + [l])
      else s.(stack := s.stack + [l])
  }

  /** The blank-line branch acting on a block's outcome: the row is written or the stack
      printed, and `reset` runs; or the script stops. */
  function Close(s: State, b: BlockOutcome): (r: State)
    ensures s.rows <= r.rows && s.rejected <= r.rejected
    ensures b.Crash? <==> r.rows == s.rows && r.rejected == s.rejected
    ensures b.Crash? ==> r.failure == Some(b.error) && r.entry == s.entry && r.stack == s.stack
    ensures !b.Crash? ==> r.failure == s.failure && r.counter == 0 && r.entry == [] && r.stack == [] &&
                          |r.rows| + |r.rejected| == |s.rows| + |s.rejected| + 1
    ensures |r.rows| == |s.rows| + (if b.Emit? then 1 else 0)
  {
    match b
    case Emit(row) => s.(counter := 0, entry := [], stack := [], rows := s.rows + [row])
    case Discard(frames) => s.(counter := 0, entry := [], stack := [], rejected := s.rejected + [frames])
    case Crash(e) => s.(failure := Some(e))
  }

  /** The state after the loop has consumed `lines`. */
  function Run(lines: seq<string>): State
  {
    if lines == [] then Initial() else Step(Run(lines[..|lines| - 1]), lines[|lines| - 1])
  }

  /** Every line is non-blank and already stripped. */
  predicate AllStripped(lines: seq<string>) {
    forall k :: 0 <= k < |lines| ==> lines[k] != [] && Strip(lines[k]) == lines[k]
  }

  /** The relations between the instance variables that every iteration keeps: at most
      three header lines, a stack only once the header is complete, only stripped
      non-blank lines kept, and every row after the column header made of three such
      header lines and the caller. */
  predicate Valid(s: State) {
    && s.counter <= HeaderArity
    && |s.entry| == s.counter
    && (s.stack != [] ==> s.counter == HeaderArity)
    && AllStripped(s.entry) && AllStripped(s.stack)
    && |s.rows| >= 1 && s.rows[0] == ColumnNames
    && (forall k :: 0 <= k < |s.rows| ==> |s.rows[k]| == |ColumnNames|)
    && (forall k :: 1 <= k < |s.rows| ==> AllStripped(s.rows[k][..HeaderArity]))
  }

  lemma InitialValid()
    ensures Valid(Initial())
  {
  }

  /** Every iteration keeps `Valid`. */
  lemma StepValid(s: State, line: string)
    requires Valid(s)
    ensures Valid(Step(s, line))
  {
    if s.failure.None? {
      if Strip(line) == [] {
        CloseBlockValid(s, line);
      } else {
        StripIdempotent(line);
      }
    }
  }

  lemma CloseBlockValid(s: State, line: string)
    requires Valid(s) && s.failure.None? && Strip(line) == []
    ensures Valid(Step(s, line))
  {
    var b := ProcessBlock(s.entry, s.stack);
    BlankStep(s, line);
    if b.Emit? {
      EmittedRowShape(s.entry, s.stack);
    }
    CloseValid(s, b);
  }

  /** Acting on an outcome keeps `Valid` when an emitted row is the header plus one field. */
  lemma CloseValid(s: State, b: BlockOutcome)
    requires Valid(s)
    requires b.Emit? ==> |b.row| == |ColumnNames| && b.row[..HeaderArity] == s.entry
    ensures Valid(Close(s, b))
  {
    if b.Emit? {
      RowAppendedValid(s, b.row);
    }
  }

  /** A blank line hands the block to `ProcessBlock` and acts on its outcome. */
  lemma BlankStep(s: State, line: string)
    requires s.failure.None? && Strip(line) == []
    ensures Step(s, line) == Close(s, ProcessBlock(s.entry, s.stack))
  {
  }

  lemma RowAppendedValid(s: State, row: seq<string>)
    requires Valid(s) && |row| == |ColumnNames| && row[..HeaderArity] == s.entry
    ensures Valid(s.(counter := 0, entry := [], stack := [], rows := s.rows + [row]))
  {
  }

  lemma {:induction false} RunValid(lines: seq<string>)
    ensures Valid(Run(lines))
  {
    if lines != [] {
      RunValid(lines[..|lines| - 1]);
      StepValid(Run(lines[..|lines| - 1]), lines[|lines| - 1]);
    }
  }

  /** Lines after the last blank line never produce a row, a rejected stack or a failure:
      there is no flush once the input ends. */
  lemma {:induction false} TrailingBlockDropped(lines: seq<string>, tail: seq<string>)
    requires forall k :: 0 <= k < |tail| ==> !IsBlank(tail[k])
    ensures Run(lines + tail).rows == Run(lines).rows
    ensures Run(lines + tail).rejected == Run(lines).rejected
    ensures Run(lines + tail).failure == Run(lines).failure
  {
    if tail != [] {
      var shorter := tail[..|tail| - 1];
      assert (lines + tail)[..|lines + tail| - 1] == lines + shorter;
      assert (lines + tail)[|lines + tail| - 1] == tail[|tail| - 1];
      TrailingBlockDropped(lines, shorter);
    } else {
      assert lines + tail == lines;
    }
  }

  /** A closed block whose second frame is foreign adds no row, leaves no state behind for
      the next block, and lets processing continue. */
  lemma ForeignBlockLeavesNoTrace(s: State, line: string)
    requires s.failure.None? && IsBlank(line)
    requires NormalizeStack(s.stack).Ok? && |s.stack| >= 2
    requires NormalizeStack(s.stack).value[1].lib != Ruby
    ensures Step(s, line).rows == s.rows
    ensures Step(s, line) == s.(counter := 0, entry := [], stack := [],
                                rejected := s.rejected + [NormalizeStack(s.stack).value])
  {
  }

  /** A block closed with fewer than two stack lines stops the script: with none, because
      there is no second frame; with one, because it is either malformed or alone. */
  lemma ShortStackStops(s: State, line: string)
    requires s.failure.None? && IsBlank(line) && |s.stack| < 2
    ensures Step(s, line).failure.Some?
    ensures s.stack == [] ==> Step(s, line).failure == Some(MissingSecondFrame)
  {
    BlankStep(s, line);
    ProcessBlockOutcomes(s.entry, s.stack);
  }

  /** Two blank lines in a row stop the script at the second one, if not already at the first. */
  lemma ConsecutiveBlanksStop(s: State, a: string, b: string)
    requires IsBlank(a) && IsBlank(b)
    ensures Step(Step(s, a), b).failure.Some?
  {
    var t := Step(s, a);
    if t.failure.None? {
      ShortStackStops(t, b);
    }
  }

  /** The script's instance variables and its outputs, updated in place line by line. */
  class Segmenter {
    var counter: nat
    var entry: seq<string>
    var stack: seq<string>
    var rows: seq<seq<string>>
    var rejected: seq<seq<Frame>>
    var failure: Option<Error>

    function Snapshot(): State
      reads this
    {
      State(counter, entry, stack, rows, rejected, failure)
    }

    /** Writes the column header and runs `reset`. */
    constructor ()
      ensures Snapshot() == Initial()
    {
      counter, entry, stack := 0, [], [];
      rows, rejected, failure := [ColumnNames], [], None;
    }

    /** `reset`: clears the block being read. */
    method Reset()
      modifies this
      ensures Snapshot() == old(Snapshot()).(counter := 0, entry := [], stack := [])
    {
      counter := 0;
      stack := [];
      entry := [];
    }

    /** The blank-line branch: the block is validated, attributed and written, or discarded, and `reset` runs. */
    method CloseBlock()
      requires failure.None?
      modifies this
      ensures Snapshot() == Close(old(Snapshot()), ProcessBlock(old(entry), old(stack)))
    {
      var outcome := ProcessBlock(entry, stack);
      match outcome
      case Emit(row) =>
        rows := rows + [row];
        Reset();
      case Discard(frames) =>
        rejected := rejected + [frames];
        Reset();
      case Crash(e) =>
        failure := Some(e);
    }

    /** The loop body on one input line. */
    method ProcessLine(line: string)
      modifies this
      ensures Snapshot() == Step(old(Snapshot()), line)
    {
      if failure.Some? {
        return;
      }
      var l := Strip(line);
      if l == [] {
        BlankStep(Snapshot(), line);
        CloseBlock();
        return;
      }
      if counter < HeaderArity {
        entry := entry + [l];
        counter := counter + 1;
      } else {
        stack := stack + [l];
      }
    }
  }
}
