/** Validation and caller selection for one closed block (process_malloc.rb, the
    blank-line branch): check that the second frame belongs to "ruby", then report
    the first "ruby" frame whose function is not an allocator wrapper. */
module Attribution {
  import opened Wrappers
  import opened Text
  import opened Frames

  /** The library identity of the Ruby binary under test. */
  const Ruby: string := "ruby"

  /** Function names containing one of these are allocator wrappers, never the caller. */
  predicate IsAllocatorWrapper(name: string) {
    Contains(name, "malloc") || Contains(name, "calloc") || Contains(name, "xrealloc")
  }

  /** The `find` block answers true: a "ruby" frame with a real, non-wrapper function name. */
  predicate Qualifies(f: Frame) {
    f.lib == Ruby && f.func.Some? && !IsAllocatorWrapper(f.func.value)
  }

  /** The `find` block answers false: a foreign frame, or a wrapper frame of "ruby". */
  predicate Skipped(f: Frame) {
    f.lib != Ruby || (f.func.Some? && IsAllocatorWrapper(f.func.value))
  }

  /** The `find` block fails: `meth` is nil in a "ruby" frame, so `include?` is sent to nil. */
  predicate Breaks(f: Frame) {
    f.lib == Ruby && f.func.None?
  }

  lemma FramePredicatesPartition(f: Frame)
    ensures Qualifies(f) || Skipped(f) || Breaks(f)
    ensures !(Qualifies(f) && Skipped(f)) && !(Qualifies(f) && Breaks(f)) && !(Skipped(f) && Breaks(f))
  {
  }

  /** What `@stack.find` does: stops at a qualifying frame, runs off the end, or fails. */
  datatype Search = Found(index: nat) | NotFound | NilAt(index: nat)

  /** `@stack.find`, scanning forward from index `from`. */
  function FindFrom(frames: seq<Frame>, from: nat): (r: Search)
    requires from <= |frames|
    ensures r.Found? ==> from <= r.index < |frames| && Qualifies(frames[r.index])
    ensures r.NilAt? ==> from <= r.index < |frames| && Breaks(frames[r.index])
    ensures r.Found? || r.NilAt? ==> forall j :: from <= j < r.index ==> Skipped(frames[j])
    ensures r.NotFound? <==> forall j :: from <= j < |frames| ==> Skipped(frames[j])
    decreases |frames| - from
  {
    if from == |frames| then NotFound
    else if Qualifies(frames[from]) then Found(from)
    else if Breaks(frames[from]) then NilAt(from)
    else FindFrom(frames, from + 1)
  }

  /** `.last` on the found frame array: the cut function name, or the final field
      when a second backtick left more fields behind. */
  function LastField(f: Frame): string
    requires f.func.Some?
  {
    if f.more == [] then f.func.value else f.more[|f.more| - 1]
  }

  /** `frames[i]` is the frame `find` stops at: it qualifies and every earlier frame is skipped. */
  predicate IsFirstCaller(frames: seq<Frame>, i: int) {
    0 <= i < |frames| && Qualifies(frames[i]) && forall j :: 0 <= j < i ==> Skipped(frames[j])
  }

  /** What one closed block turns into. */
  datatype BlockOutcome =
    | Emit(row: seq<string>)          // `csv << @entry` after the caller was appended
    | Discard(frames: seq<Frame>)     // the stack printed to stderr, no row
    | Crash(error: Error)             // the script stops

  /** The blank-line branch on header `entry` and raw stack lines `stack`. */
  function ProcessBlock(entry: seq<string>, stack: seq<string>): BlockOutcome
  {
    match NormalizeStack(stack)
    case Err(e) => Crash(e)
    case Ok(frames) =>
      if |frames| < 2 then Crash(MissingSecondFrame)
      else if frames[1].lib != Ruby then Discard(frames)
      else
        match FindFrom(frames, 0)
        case Found(i) => Emit(entry + [LastField(frames[i])])
        case NotFound => Crash(NoCaller)
        case NilAt(_) => Crash(NilFunctionName)
  }

  /** How a block ends: a malformed frame or a stack shorter than two frames stops the
      script; a foreign second frame discards the block; otherwise the first qualifying
      frame is appended to the header as the caller, and without one the script stops. */
  lemma ProcessBlockOutcomes(entry: seq<string>, stack: seq<string>)
    ensures var r := ProcessBlock(entry, stack);
            (NormalizeStack(stack).Err? ==> r == Crash(NormalizeStack(stack).error)) &&
            (NormalizeStack(stack).Ok? && |stack| < 2 ==> r == Crash(MissingSecondFrame)) &&
            (r.Discard? <==>
               NormalizeStack(stack).Ok? && |stack| >= 2 && NormalizeStack(stack).value[1].lib != Ruby) &&
            (r.Discard? ==> r.frames == NormalizeStack(stack).value)
    ensures var r := ProcessBlock(entry, stack);
            r.Emit? ==>
              NormalizeStack(stack).Ok? &&
              var frames := NormalizeStack(stack).value;
              |frames| >= 2 && frames[1].lib == Ruby &&
              exists i :: IsFirstCaller(frames, i) && r.row == entry + [LastField(frames[i])]
    ensures var r := ProcessBlock(entry, stack);
            r.Crash? && NormalizeStack(stack).Ok? && |stack| >= 2 ==>
              var frames := NormalizeStack(stack).value;
              r.error in {NoCaller, NilFunctionName} &&
              (r.error == NoCaller <==> forall j :: 0 <= j < |frames| ==> Skipped(frames[j]))
  {
    var r := ProcessBlock(entry, stack);
    if NormalizeStack(stack).Ok? && |stack| >= 2 {
      var frames := NormalizeStack(stack).value;
      if frames[1].lib == Ruby && FindFrom(frames, 0).Found? {
        assert IsFirstCaller(frames, FindFrom(frames, 0).index);
      }
    }
  }

  /** An emitted row is the header followed by exactly one field, the caller. */
  lemma EmittedRowShape(entry: seq<string>, stack: seq<string>)
    requires ProcessBlock(entry, stack).Emit?
    ensures |stack| >= 2
    ensures |ProcessBlock(entry, stack).row| == |entry| + 1
    ensures ProcessBlock(entry, stack).row[..|entry|] == entry
  {
  }

  /** With one backtick, `.last` gives the cut function name. */
  lemma LastFieldOneBacktick(lib: string, seg: string)
    requires Backtick !in lib && Backtick !in seg && seg != [] && CutOffset(seg).Some?
    ensures var r := NormalizeFrame(lib + [Backtick] + seg);
            r.Ok? && r.value.func.Some? && LastField(r.value) == CutOffset(seg).value
  {
    OneBacktick(lib, seg);
  }

  /** When there is a second backtick, `.last` gives the field after it, not the cut function
      name: for `ruby`foo+1`bar` the caller is `bar`. */
  lemma LastFieldAfterSecondBacktick(lib: string, func: string, offset: string, extra: string)
    requires Backtick !in lib && Backtick !in func && Backtick !in offset && Backtick !in extra
    requires Plus !in func && func != [] && extra != []
    ensures var r := NormalizeFrame(lib + [Backtick] + func + [Plus] + offset + [Backtick] + extra);
            r.Ok? && r.value.func == Some(func) && LastField(r.value) == extra
  {
    SecondBacktick(lib, func, offset, extra);
  }

  /** `find` stops exactly at the first qualifying frame. */
  lemma {:induction false} FindFromFirst(frames: seq<Frame>, from: nat, i: nat)
    requires from <= i < |frames| && Qualifies(frames[i])
    requires forall j :: from <= j < i ==> Skipped(frames[j])
    ensures FindFrom(frames, from) == Found(i)
    decreases i - from
  {
    if from < i {
      FramePredicatesPartition(frames[from]);
      FindFromFirst(frames, from + 1, i);
    }
  }

  /** The first qualifying frame in stack order is reported, even at index 0 and even
      when later "ruby" frames also qualify. */
  lemma CallerIsFirstMatch(entry: seq<string>, stack: seq<string>, i: nat)
    requires NormalizeStack(stack).Ok? && |stack| >= 2
    requires NormalizeStack(stack).value[1].lib == Ruby
    requires IsFirstCaller(NormalizeStack(stack).value, i)
    ensures ProcessBlock(entry, stack) == Emit(entry + [LastField(NormalizeStack(stack).value[i])])
  {
    FindFromFirst(NormalizeStack(stack).value, 0, i);
  }

  /** When the leaf frame (index 0) already qualifies it is the caller, whatever the
      frames above it hold: for `ruby`string_alloc+0x10, ruby`rb_str_new+0x20,
      ruby`malloc+0x5` the caller is `string_alloc`, not `rb_str_new`. */
  lemma LeafFrameWins(entry: seq<string>, stack: seq<string>)
    requires NormalizeStack(stack).Ok? && |stack| >= 2
    requires NormalizeStack(stack).value[1].lib == Ruby
    requires Qualifies(NormalizeStack(stack).value[0])
    ensures ProcessBlock(entry, stack) == Emit(entry + [LastField(NormalizeStack(stack).value[0])])
  {
    CallerIsFirstMatch(entry, stack, 0);
  }
}
