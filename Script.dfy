/** The script as a whole: write the column header, `reset`, then feed every input line
    to the loop body in order. The CSV rows, the stacks printed to stderr and the failure
    that stopped the script are returned instead of written. */
module Script {
  import opened Wrappers
  import opened Frames
  import opened Segmenter
  import opened Blocks

  /** The `ARGF.each_with_object` loop over `lines`. The rows are the column header followed
      by one row per closed block that passed validation, in block order; every row has the
      four columns of the header; lines after the last blank line leave no trace. */
  method ProcessInput(lines: seq<string>) returns (rows: seq<seq<string>>, rejected: seq<seq<Frame>>, failure: Option<Error>)
    ensures rows == [ColumnNames] + ProcessBlocks(ClosedBlocks(lines)).rows
    ensures rejected == ProcessBlocks(ClosedBlocks(lines)).rejected
    ensures failure == ProcessBlocks(ClosedBlocks(lines)).failure
    ensures rows[0] == ColumnNames
    ensures forall k :: 0 <= k < |rows| ==> |rows[k]| == |ColumnNames|
  {
    var seg := new Segmenter();
    for i := 0 to |lines|
      invariant seg.Snapshot() == Run(lines[..i])
    {
      assert lines[..i + 1][..i] == lines[..i];
      seg.ProcessLine(lines[i]);
    }
    assert lines[..|lines|] == lines;
    RunMatchesBlocks(lines);
    RunValid(lines);
    rows, rejected, failure := seg.rows, seg.rejected, seg.failure;
  }
}
