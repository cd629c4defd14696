# process_malloc.rb in Dafny

A model of `process_malloc.rb`, the parser that turns a DTrace per-allocation stack
dump into a CSV file with one row per attributed allocation. The stack lines have the
form `lib`func+offset`. The script reads its input line by line and keeps three instance
variables: `@counter`, `@entry` (the header) and `@stack`.

- The first three non-blank lines of a block are header fields.
- Every later non-blank line is a stack frame.
- A blank line closes the block:
  - each frame is split on the backtick, and its function field is cut at the first `+`;
  - the block is discarded, with a diagnostic on stderr, when the second frame does not belong to `ruby`;
  - otherwise the first `ruby` frame whose function is not an allocator wrapper (`malloc`, `calloc`, `xrealloc`) is appended to the header as the caller, and the row is written.

The files follow that structure:

- `Wrappers.dfy`: `Option`, `Result`, and the four ways the script fails. Each failure is
  a `NoMethodError` on `nil` in Ruby and an explicit `Error` value here:
  - `NoFunctionSegment`: a frame without a function field;
  - `MissingSecondFrame`: a stack of fewer than two frames;
  - `NilFunctionName`: a `ruby` frame whose function field is only `+` characters;
  - `NoCaller`: no qualifying frame.
- `Text.dfy`: `String#strip`, `String#include?`, and Ruby's `String#split`, including how it drops trailing empty fields.
- `Frames.dfy`: the frame normaliser (`@stack.map`).
- `Attribution.dfy`: the second-frame check and the caller search (`@stack.find`), and how one closed block ends.
- `Segmenter.dfy`: the per-line state machine.
  - It is first a function `Step` on states with its invariant `Valid`.
  - It is then the class `Segmenter`, whose fields the script's instance variables are and whose methods are proved to compute `Step`.
- `Blocks.dfy`: an independent block-at-a-time reading of the input. It is proved equal to the line-by-line machine. The row-count law and the block order of the rows are proved there.
- `Script.dfy`: the whole loop over the input, run on a fresh `Segmenter`.

Where the script would crash, the model records the error and ignores the rest of the input.

The rows are returned in place of being written through `csv <<`. The stacks rejected at the
second-frame check are returned in place of being printed to stderr.

For the stack `ruby`string_alloc+0x10, ruby`rb_str_new+0x20, ruby`malloc+0x5` the caller
is `string_alloc`, not `rb_str_new`: the search starts at the leaf frame, which already
qualifies (`Attribution.LeafFrameWins`).

## Model

| member | source | states |
|---|---|---|
| Text.Strip | process_malloc.rb:27 | the stripped line neither starts nor ends with white space, and it is empty exactly when the line is blank |
| Text.StripIsInfix | process_malloc.rb:27 | `strip!` leaves the line with a blank run removed from each end |
| Text.StripIdempotent | process_malloc.rb:27 | stripping a stripped line changes nothing, so stored header and stack lines stay stripped |
| Text.Contains | process_malloc.rb:43-45 | `include?` is true exactly when the pattern occurs at some index of the name |
| Text.SplitAll | process_malloc.rb:31 | splitting at every separator gives separator-free fields that join back to the input |
| Text.SplitAllJoin | process_malloc.rb:31 | joining separator-free fields and splitting again gives the fields back |
| Text.SplitAllSnoc | process_malloc.rb:31 | one more element closes the last field if it is the separator and extends it otherwise |
| Text.SplitAllLength | process_malloc.rb:31 | there is one field more than there are separators |
| Text.RubySplit | process_malloc.rb:31-32 | `split` fields hold no separator, the last field is non-empty, a separator-free non-empty string is its own single field, and the empty string has none |
| Text.RubySplitEmpty | process_malloc.rb:32 | `split` yields no field exactly when the string is only separators |
| Text.RubySplitFirstField | process_malloc.rb:32 | the first field is a prefix that ends at the string's end or at a separator |
| Text.RubySplitCons | process_malloc.rb:31 | a separator-free first field followed by a separator is split off in front of the rest's fields |
| Frames.CutOffset | process_malloc.rb:32 | the function field is nil exactly when it is only `+`; otherwise it is the `+`-free prefix that ends at the first `+` |
| Frames.NormalizeFrame | process_malloc.rb:31-33 | a frame without a backtick fails; the library has no backtick; the function has no `+` and no backtick; `Frames.OneBacktick` and `Frames.MalformedExactly` state what the fields are and exactly when a frame fails |
| Frames.OneBacktick | process_malloc.rb:31-33 | `lib`seg` with a non-empty `seg` normalises to library `lib`, function `seg` cut at its first `+` (none when `seg` is all `+`) and no further fields; `lib`` fails |
| Frames.MalformedExactly | process_malloc.rb:31-33 | a frame fails exactly when every character after its first backtick is a backtick, so that `split` leaves no second field |
| Frames.MalformedAfterFirst | process_malloc.rb:31-33 | once the text before the first backtick is set aside, the frame fails exactly when only backticks follow |
| Frames.OffsetStripped | process_malloc.rb:31-32 | `lib`func+offset` and `lib`func` both normalise to library `lib` and function `func`, whatever the offset |
| Frames.SecondBacktick | process_malloc.rb:31-33 | `lib`func+offset`extra` normalises to library `lib`, function `func` and the one further field `extra` |
| Frames.NormalizeStack | process_malloc.rb:30-34 | the stack normalises exactly when every frame does, and then gives each frame's normal form in order |
| Frames.NormalizeStackError | process_malloc.rb:30-34 | a stack that fails to normalise fails with the error of its first malformed frame |
| Frames.NormalizeStackOk | process_malloc.rb:30-34 | a stack whose every frame normalises gives exactly those frames |
| Attribution.IsAllocatorWrapper | process_malloc.rb:43-45 | a name is an allocator wrapper when `malloc`, `calloc` or `xrealloc` occurs in it; `Text.Contains` states what occurring means |
| Attribution.Qualifies | process_malloc.rb:42-45 | the `find` block answers true: a `ruby` frame with a function name that is not a wrapper; `Attribution.FramePredicatesPartition` proves it excludes the skip and nil cases |
| Attribution.FramePredicatesPartition | process_malloc.rb:41-45 | on each frame the `find` block answers true, answers false, or fails on nil, and exactly one of these |
| Attribution.FindFrom | process_malloc.rb:41-46 | `find` returns a qualifying frame with every earlier frame skipped, or stops at a nil function, and finds nothing exactly when every frame is skipped |
| Attribution.FindFromFirst | process_malloc.rb:41-45 | `find` stops exactly at the first qualifying frame |
| Attribution.LastField | process_malloc.rb:46 | `.last` on the found frame; `Attribution.LastFieldOneBacktick` proves it is the cut function name for one backtick, `Attribution.LastFieldAfterSecondBacktick` that it is the raw last field after a second one |
| Attribution.LastFieldOneBacktick | process_malloc.rb:31-46 | for `lib`seg` whose function field is not all `+`, `.last` gives `seg` cut at its first `+` |
| Attribution.LastFieldAfterSecondBacktick | process_malloc.rb:31-46 | for `lib`func+offset`extra` the function is `func` and `.last` gives `extra` |
| Attribution.ProcessBlock | process_malloc.rb:30-46 | the blank-line branch on one block: its outcomes are stated by `Attribution.ProcessBlockOutcomes` and, conversely, `Attribution.CallerIsFirstMatch` |
| Attribution.ProcessBlockOutcomes | process_malloc.rb:30-46 | a malformed frame or a stack of fewer than two frames stops the script; the block is discarded exactly when the second frame is not `ruby`; an emitted row is the header plus the first caller's last field; a crash after validation is `NoCaller` exactly when every frame is skipped |
| Attribution.EmittedRowShape | process_malloc.rb:41-49 | an emitted row is the header followed by exactly one field, and such a block had at least two frames |
| Attribution.CallerIsFirstMatch | process_malloc.rb:41-46 | the first qualifying frame in forward order is the caller, at any index |
| Attribution.LeafFrameWins | process_malloc.rb:41-46 | a qualifying leaf frame (index 0) is the caller, even though validation looks at index 1 |
| Segmenter.Step | process_malloc.rb:27-60 | a stopped script ignores input; a blank line that does not stop it resets the counter, header and stack; a non-blank line leaves the output alone; rows and rejected stacks only grow, by at most one in total |
| Segmenter.Initial | process_malloc.rb:9-22 | the column header as the only row and an empty block; `Segmenter.InitialValid` proves it satisfies the invariant |
| Segmenter.Close | process_malloc.rb:37-51 | rows and rejected stacks keep their prefix; a crash leaves them alone and records the error; otherwise exactly one of them grows by one (rows exactly for an emitted row) and the counter, header and stack are cleared |
| Segmenter.Run | process_malloc.rb:26-61 | the loop as a fold of `Step` over the input; `Segmenter.RunValid` proves the invariant after any input and `Blocks.RunMatchesBlocks` its block-level meaning |
| Segmenter.Valid | process_malloc.rb:55-60 | the invariant of the instance variables; `Segmenter.StepValid` proves every line keeps it |
| Segmenter.InitialValid | process_malloc.rb:9-22 | the column header written and `reset` run satisfy the invariant |
| Segmenter.StepValid | process_malloc.rb:55-60 | every line keeps the invariant: counter at most 3, header length equal to the counter, a stack only after a full header, only stripped lines held, every row four fields whose first three are stripped header lines |
| Segmenter.CloseValid | process_malloc.rb:41-52 | writing a row made of the header and one field keeps the invariant |
| Segmenter.RunValid | process_malloc.rb:26-61 | the invariant holds after any input |
| Segmenter.TrailingBlockDropped | process_malloc.rb:26-61 | lines after the last blank line add no row, no rejected stack and no failure |
| Segmenter.ForeignBlockLeavesNoTrace | process_malloc.rb:36-39 | a block whose second frame is not `ruby` adds no row, records its stack and leaves nothing behind for the next block |
| Segmenter.ShortStackStops | process_malloc.rb:36 | closing a block with fewer than two stack lines stops the script, with `MissingSecondFrame` when there are none (a blank line right after a header) |
| Segmenter.ConsecutiveBlanksStop | process_malloc.rb:29-36 | from any state, two blank lines in a row stop the script |
| Segmenter.Segmenter.constructor | process_malloc.rb:9-22 | the fresh object holds the column header as its only row and an empty block |
| Segmenter.Segmenter.Reset | process_malloc.rb:17-21 | `reset` clears the counter, the stack and the header and changes nothing else |
| Segmenter.Segmenter.CloseBlock | process_malloc.rb:29-52 | the blank-line branch moves the object to the state `Close` gives for the outcome of its header and stack |
| Segmenter.Segmenter.ProcessLine | process_malloc.rb:27-60 | the loop body moves the object to the state `Step` gives for the line |
| Blocks.Advance | process_malloc.rb:29-52 | one closed block extends the rows and rejected stacks, by exactly one unless it stops the script, and changes nothing once the script has stopped |
| Blocks.Apply | process_malloc.rb:36-49 | recording an outcome keeps the prefix of rows and rejected stacks; a crash leaves them alone and records the error; otherwise exactly one grows by one, rows exactly for an emitted row |
| Blocks.StrippedLinesAt | process_malloc.rb:27 | the stripped input holds, at every index, that input line after `strip!` |
| Blocks.ProcessBlocks | process_malloc.rb:26-61 | before any failure every closed block yields exactly one row or one rejected stack |
| Blocks.RowsInBlockOrder | process_malloc.rb:29-52 | the rows and rejected stacks of the first blocks are prefixes of those of all blocks, so rows appear in input order |
| Blocks.RunMatchesBlocks | process_malloc.rb:26-61 | the line-by-line machine gives the column header plus the rows, rejected stacks and failure of the closed blocks, and holds the header and stack of the open block |
| Blocks.PiecesSnoc | process_malloc.rb:29 | a blank line closes the open block; any other line extends it |
| Blocks.PassingRows | process_malloc.rb:36-49 | unless the script stops, there are as many rows as closed blocks that pass the second-frame check, and as many rejected stacks as closed blocks that do not |
| Blocks.ClosedBlockCount | process_malloc.rb:29 | one block is closed per blank line |
| Blocks.RowCountLaw | process_malloc.rb:29-52 | unless the script stops, rows after the header plus rejected stacks equal the blank lines, and there are as many rows after the header as closed blocks that pass the second-frame check |
| Script.ProcessInput | process_malloc.rb:9-61 | the script's output is the column header followed by the rows of the closed blocks, with their rejected stacks and failure; every row has the four columns of the header |

## Left out

- `collector.rb` is not part of this model. It is orchestration: it runs `rails`, `git`, `bundle`, `dtrace` and `R`, and probes the file system.
- File output: `CSV.open` and the CSV encoding of a row (`process_malloc.rb:7`, `:49`). Rows are returned as sequences of fields.
- Whether rows are written before a crash: the model keeps every row produced before the failure. Whether they reach the file depends on the CSV library's buffering.
- Input: `ARGF` reads standard input or the files named on the command line (`process_malloc.rb:26`). The input is a sequence of lines.
- The stderr diagnostic (`process_malloc.rb:37`): the rejected normalised stack is recorded, but the text of Ruby's array inspection is not modelled.
- The unused `trace_regex` (`process_malloc.rb:24`), the unused `start_processing` variable, and the unused `each_with_object` accumulator. None of them affects behaviour.
- The address-annotated, histogram-based input dialect, which this script does not implement.
- Text.IsSpace: the `strip!` white space is the seven characters Ruby's `String#strip` removes (NUL, tab, line feed, vertical tab, form feed, carriage return, space). It is applied at both ends, with no encoding or Unicode white space.
- Strings are sequences of characters: byte encodings and invalid byte sequences are not modelled.
