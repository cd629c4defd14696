/** The frame normaliser of process_malloc.rb: each stack line `lib`func+offset`
    is split on the backtick and the function field is cut at its first '+'. */
module Frames {
  import opened Wrappers
  import opened Text

  const Backtick: char := '`'
  const Plus: char := '+'

  /** The array `frame.split('`')` after `x[1] = x[1].split('+')[0]`: the library
      `x[0]`, the cut function field `x[1]` (None where Ruby stores nil) and the
      fields `x[2..]` that a second backtick leaves behind. */
  datatype Frame = Frame(lib: string, func: Option<string>, more: seq<string>)

  /** `segment.split('+')[0]`: the function name with its offset discarded. */
  function CutOffset(segment: string): (r: Option<string>)
    ensures r.None? <==> forall k :: 0 <= k < |segment| ==> segment[k] == Plus
    ensures r.Some? ==> Plus !in r.value && |r.value| <= |segment| && segment[..|r.value|] == r.value
    ensures r.Some? ==> |r.value| == |segment| || segment[|r.value|] == Plus
  {
    var fields := RubySplit(segment, Plus);
    RubySplitEmpty(segment, Plus);
    if fields == [] then None
    else
      RubySplitFirstField(segment, Plus);
      Some(fields[0])
  }

  /** The per-frame body of `@stack.map`; a line that splits into fewer than two
      backtick fields makes `x[1].split` fail on nil. */
  function NormalizeFrame(raw: string): (r: Result<Frame>)
    ensures Backtick !in raw ==> r == Err(NoFunctionSegment(raw))
    ensures r.Err? ==> r.error == NoFunctionSegment(raw)
    ensures r.Ok? ==> Backtick !in r.value.lib
    ensures r.Ok? && r.value.func.Some? ==> Plus !in r.value.func.value && Backtick !in r.value.func.value
  {
    var x := RubySplit(raw, Backtick);
    if |x| < 2 then Err(NoFunctionSegment(raw))
    else
      Ok(Frame(x[0], CutOffset(x[1]), x[2..]))
  }

  /** With and without an offset of any form, `lib`func` normalises to library
      `lib` and function `func`. */
  lemma OffsetStripped(lib: string, func: string, offset: string)
    requires Backtick !in lib && Backtick !in func && Backtick !in offset
    requires Plus !in func && func != []
    ensures NormalizeFrame(lib + [Backtick] + func + [Plus] + offset) == Ok(Frame(lib, Some(func), []))
    ensures NormalizeFrame(lib + [Backtick] + func) == Ok(Frame(lib, Some(func), []))
  {
    var tail := func + [Plus] + offset;
    assert lib + [Backtick] + func + [Plus] + offset == lib + [Backtick] + tail;
    assert Backtick !in tail;
    RubySplitCons(lib, tail, Backtick);
    assert RubySplit(lib + [Backtick] + tail, Backtick) == [lib, tail];
    RubySplitCons(lib, func, Backtick);
    RubySplitFirst(func, offset, Plus);
    assert CutOffset(tail) == Some(func);
    var x := RubySplit(lib + [Backtick] + tail, Backtick);
    assert x[2..] == [];
    assert NormalizeFrame(lib + [Backtick] + tail) == Ok(Frame(lib, Some(func), []));
    var y := RubySplit(lib + [Backtick] + func, Backtick);
    assert y == [lib, func] && y[2..] == [];
    assert CutOffset(func) == Some(func);
  }

  /** With one backtick, the library is the text before it and the function is the field
      after it cut at its first '+'; with nothing after the backtick the frame is malformed. */
  lemma OneBacktick(lib: string, seg: string)
    requires Backtick !in lib && Backtick !in seg
    ensures seg != [] ==> NormalizeFrame(lib + [Backtick] + seg) == Ok(Frame(lib, CutOffset(seg), []))
    ensures seg == [] ==> NormalizeFrame(lib + [Backtick] + seg).Err?
  {
    if seg != [] {
      RubySplitCons(lib, seg, Backtick);
      var x := RubySplit(lib + [Backtick] + seg, Backtick);
      assert x == [lib, seg] && x[2..] == [];
    } else {
      SplitAllCons(lib, seg, Backtick);
      SplitAllNoSep(seg, Backtick);
      DropTrailingEmptyCons(lib, [seg]);
    }
  }

  /** A frame is malformed exactly when no character after its first backtick is anything
      but a backtick: then `split` leaves no second field and `x[1]` is nil. */
  lemma MalformedExactly(raw: string)
    ensures NormalizeFrame(raw).Err? <==>
            forall i, j :: 0 <= i < j < |raw| && raw[i] == Backtick ==> raw[j] == Backtick
  {
    if Backtick in raw {
      var i := FirstOccurrence(raw, Backtick);
      var a, b := raw[..i], raw[i + 1..];
      assert raw == a + [Backtick] + b;
      MalformedAfterFirst(a, b);
      assert forall k :: 0 <= k < |b| ==> b[k] == raw[i + 1 + k];
      assert forall k :: 0 <= k < i ==> raw[k] != Backtick by {
        forall k | 0 <= k < i ensures raw[k] != Backtick { assert raw[k] == a[k]; }
      }
    }
  }

  /** After the first backtick, the frame is malformed exactly when only backticks follow. */
  lemma MalformedAfterFirst(a: string, b: string)
    requires Backtick !in a
    ensures NormalizeFrame(a + [Backtick] + b).Err? <==> forall k :: 0 <= k < |b| ==> b[k] == Backtick
  {
    SplitAllCons(a, b, Backtick);
    DropTrailingEmptyCons(a, SplitAll(b, Backtick));
    RubySplitEmpty(b, Backtick);
    assert RubySplit(a + [Backtick] + b, Backtick) ==
           if a == [] && RubySplit(b, Backtick) == [] then [] else [a] + RubySplit(b, Backtick);
  }

  /** The index of the first occurrence of `c` in `s`. */
  lemma FirstOccurrence(s: string, c: char) returns (i: nat)
    requires c in s
    ensures i < |s| && s[i] == c && c !in s[..i]
  {
    i := 0;
    while s[i] != c
      invariant i < |s| && c in s[i..] && c !in s[..i]
      decreases |s| - i
    {
      assert s[i..] == [s[i]] + s[i + 1..];
      assert s[..i + 1] == s[..i] + [s[i]];
      i := i + 1;
    }
  }

  /** A second backtick leaves its field behind: `lib`func+offset`extra` normalises to
      library `lib`, function `func` and the one further field `extra`. */
  lemma SecondBacktick(lib: string, func: string, offset: string, extra: string)
    requires Backtick !in lib && Backtick !in func && Backtick !in offset && Backtick !in extra
    requires Plus !in func && func != [] && extra != []
    ensures NormalizeFrame(lib + [Backtick] + func + [Plus] + offset + [Backtick] + extra) ==
            Ok(Frame(lib, Some(func), [extra]))
  {
    var seg := func + [Plus] + offset;
    var rest := seg + [Backtick] + extra;
    assert lib + [Backtick] + func + [Plus] + offset + [Backtick] + extra == lib + [Backtick] + rest;
    assert Backtick !in seg;
    RubySplitCons(seg, extra, Backtick);
    RubySplitCons(lib, rest, Backtick);
    var x := RubySplit(lib + [Backtick] + rest, Backtick);
    assert x == [lib, seg, extra];
    assert x[2..] == [extra];
    RubySplitFirst(func, offset, Plus);
    assert CutOffset(seg) == Some(func);
  }

  /** `@stack.map`: every frame normalised in order; the first malformed frame stops the script. */
  function NormalizeStack(stack: seq<string>): (r: Result<seq<Frame>>)
    ensures r.Ok? <==> forall k :: 0 <= k < |stack| ==> NormalizeFrame(stack[k]).Ok?
    ensures r.Ok? ==> |r.value| == |stack| &&
                      forall k :: 0 <= k < |stack| ==> NormalizeFrame(stack[k]) == Ok(r.value[k])
  {
    if stack == [] then Ok([])
    else match NormalizeFrame(stack[0])
      case Err(e) => assert NormalizeFrame(stack[0]).Err?; Err(e)
      case Ok(f) =>
        match NormalizeStack(stack[1..])
        case Err(e) => MalformedTail(stack); Err(e)
        case Ok(fs) => PointwiseCons(NormalizeFrame, (g: Frame) => Ok(g), stack, f, fs); Ok([f] + fs)
  }

  /** A malformed frame in the tail is a malformed frame of the stack. */
  lemma MalformedTail(stack: seq<string>)
    requires stack != [] && exists k :: 0 <= k < |stack| - 1 && NormalizeFrame(stack[1..][k]).Err?
    ensures exists k :: 0 <= k < |stack| && NormalizeFrame(stack[k]).Err?
  {
    var k :| 0 <= k < |stack| - 1 && NormalizeFrame(stack[1..][k]).Err?;
    assert stack[k + 1] == stack[1..][k];
  }

  /** If `g` maps the head of `xs` to `h(y)` and the tail pointwise to `h` of `ys`, then it
      maps all of `xs` pointwise to `h` of `[y] + ys`. */
  lemma PointwiseCons<A, B, C>(g: A -> B, h: C -> B, xs: seq<A>, y: C, ys: seq<C>)
    requires xs != [] && g(xs[0]) == h(y) && |ys| == |xs| - 1
    requires forall k :: 0 <= k < |ys| ==> g(xs[1..][k]) == h(ys[k])
    ensures forall k :: 0 <= k < |xs| ==> g(xs[k]) == h(([y] + ys)[k])
  {
    forall k | 1 <= k < |xs| ensures g(xs[k]) == h(([y] + ys)[k]) {
      assert xs[k] == xs[1..][k - 1];
    }
  }

  /** A stack that fails to normalise fails with the error of its first malformed frame. */
  lemma {:induction false} NormalizeStackError(stack: seq<string>)
    requires NormalizeStack(stack).Err?
    ensures exists k :: FirstMalformed(stack, k) && NormalizeStack(stack).error == NormalizeFrame(stack[k]).error
  {
    if NormalizeFrame(stack[0]).Err? {
      assert FirstMalformed(stack, 0);
    } else {
      NormalizeStackError(stack[1..]);
      var k :| FirstMalformed(stack[1..], k) && NormalizeStack(stack[1..]).error == NormalizeFrame(stack[1..][k]).error;
      MalformedShift(stack, k);
    }
  }

  /** A stack whose every line normalises gives exactly those frames, in order. */
  lemma NormalizeStackOk(stack: seq<string>, frames: seq<Frame>)
    requires |stack| == |frames|
    requires forall k :: 0 <= k < |stack| ==> NormalizeFrame(stack[k]) == Ok(frames[k])
    ensures NormalizeStack(stack) == Ok(frames)
  {
    var r := NormalizeStack(stack);
    assert r.value == frames;
  }

  /** The first malformed frame after a well-formed first frame is the first malformed frame. */
  lemma MalformedShift(stack: seq<string>, k: int)
    requires stack != [] && NormalizeFrame(stack[0]).Ok? && FirstMalformed(stack[1..], k)
    ensures FirstMalformed(stack, k + 1) && stack[k + 1] == stack[1..][k]
  {
    assert forall j :: 1 <= j <= k ==> stack[j] == stack[1..][j - 1];
  }

  /** `stack[k]` is the first frame that `NormalizeFrame` rejects. */
  predicate FirstMalformed(stack: seq<string>, k: int) {
    0 <= k < |stack| && NormalizeFrame(stack[k]).Err? &&
    forall j :: 0 <= j < k ==> NormalizeFrame(stack[j]).Ok?
  }
}
