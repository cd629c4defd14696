/** The three Ruby `String` methods the parser relies on: `strip`, `include?` and `split`. */
module Text {

  /** The characters Ruby's `String#strip` removes: NUL, tab, line feed,
      vertical tab, form feed, carriage return and space. */
  predicate IsSpace(c: char) {
    c == '\0' || c == '\t' || c == '\n' || c == 11 as char || c == 12 as char || c == '\r' || c == ' '
  }

  predicate IsBlank(s: string) {
    forall k :: 0 <= k < |s| ==> IsSpace(s[k])
  }

  function StripLeading(s: string): (r: string)
    ensures |r| <= |s| && r == s[|s| - |r|..]
    ensures r != [] ==> !IsSpace(r[0])
    ensures forall k :: 0 <= k < |s| - |r| ==> IsSpace(s[k])
  {
    if s != [] && IsSpace(s[0]) then
      var r := StripLeading(s[1..]);
      assert s[1..][|s| - 1 - |r|..] == s[|s| - |r|..];
      assert forall k :: 1 <= k < |s| ==> s[k] == s[1..][k - 1];
      r
    else s
  }

  function StripTrailing(s: string): (r: string)
    ensures |r| <= |s| && r == s[..|r|]
    ensures r != [] ==> !IsSpace(r[|r| - 1])
    ensures forall k :: |r| <= k < |s| ==> IsSpace(s[k])
  {
    if s != [] && IsSpace(s[|s| - 1]) then StripTrailing(s[..|s| - 1]) else s
  }

  /** `r` is `s` with the blank run `s[..i]` cut from the front and a blank run cut from the back. */
  predicate StrippedAt(s: string, r: string, i: int) {
    0 <= i <= |s| - |r| && r == s[i..i + |r|] && IsBlank(s[..i]) && IsBlank(s[i + |r|..])
  }

  /** `String#strip`: the longest infix of `s` that neither starts nor ends with white space. */
  function Strip(s: string): (r: string)
    ensures r != [] ==> !IsSpace(r[0]) && !IsSpace(r[|r| - 1])
    ensures r == [] <==> IsBlank(s)
  {
    var t := StripLeading(s);
    var i := |s| - |t|;
    assert IsBlank(s[..i]) by {
      forall k | 0 <= k < i ensures IsSpace(s[..i][k]) { }
    }
    StripFacts(s, i, StripTrailing(t));
    StripTrailing(t)
  }

  /** `Strip(s)` is what is left of `s` once a blank run is cut from each end. */
  lemma StripIsInfix(s: string)
    ensures exists i :: StrippedAt(s, Strip(s), i)
  {
    var t := StripLeading(s);
    var i := |s| - |t|;
    assert IsBlank(s[..i]) by {
      forall k | 0 <= k < i ensures IsSpace(s[..i][k]) { }
    }
    StripFacts(s, i, StripTrailing(t));
    assert StrippedAt(s, Strip(s), i);
  }

  lemma StripFacts(s: string, i: nat, r: string)
    requires i <= |s| && IsBlank(s[..i]) && (i < |s| ==> !IsSpace(s[i]))
    requires r == StripTrailing(s[i..])
    ensures r != [] ==> !IsSpace(r[0])
    ensures StrippedAt(s, r, i)
    ensures r == [] <==> IsBlank(s)
  {
    var t := s[i..];
    var front, back := s[..i], s[i + |r|..];
    assert IsBlank(back) by {
      assert back == t[|r|..];
    }
    if r != [] { assert r[0] == t[0]; }
    assert r == [] ==> IsBlank(s) by {
      if r == [] { assert s == front + back; }
    }
  }

  /** A stripped line carries no white space at either end, so stripping again changes nothing. */
  lemma StripIdempotent(s: string)
    ensures Strip(Strip(s)) == Strip(s)
  {
    var r := Strip(s);
    assert StripLeading(r) == r;
    assert StripTrailing(r) == r;
  }

  /** `p` occurs in `s` starting at index `i`. */
  predicate OccursAt(s: string, p: string, i: int) {
    0 <= i <= |s| - |p| && s[i..i + |p|] == p
  }

  /** `String#include?`: `p` occurs somewhere in `s`. */
  function Contains(s: string, p: string): (r: bool)
    ensures r <==> exists i :: OccursAt(s, p, i)
    decreases |s|
  {
    if |p| > |s| then false
    else if s[..|p|] == p then assert OccursAt(s, p, 0); true
    else
      var rest := Contains(s[1..], p);
      assert rest ==> exists i :: OccursAt(s, p, i) by {
        if rest {
          var j :| OccursAt(s[1..], p, j);
          assert OccursAt(s, p, j + 1);
        }
      }
      assert (exists i :: OccursAt(s, p, i)) ==> rest by {
        if exists i :: OccursAt(s, p, i) {
          var i :| OccursAt(s, p, i);
          assert i != 0;
          assert OccursAt(s[1..], p, i - 1);
        }
      }
      rest
  }

  /** Joins `parts` with `sep` between neighbours: the inverse of `SplitAll`. */
  function Join<T>(parts: seq<seq<T>>, sep: T): (r: seq<T>)
    requires |parts| >= 1
  {
    if |parts| == 1 then parts[0] else parts[0] + [sep] + Join(parts[1..], sep)
  }

  /** Splits `s` at every occurrence of `sep`, keeping every field, empty ones included. */
  function SplitAll<T(==)>(s: seq<T>, sep: T): (r: seq<seq<T>>)
    ensures |r| >= 1
    ensures forall k :: 0 <= k < |r| ==> sep !in r[k]
    ensures Join(r, sep) == s
    decreases |s|
  {
    if s == [] then [[]]
    else if s[0] == sep then
      var t := SplitAll(s[1..], sep);
      assert Join([[]] + t, sep) == [sep] + Join(t, sep) by {
        assert ([[]] + t)[1..] == t;
      }
      [[]] + t
    else
      var t := SplitAll(s[1..], sep);
      var r := [[s[0]] + t[0]] + t[1..];
      assert Join(r, sep) == [s[0]] + Join(t, sep) by {
        if |t| > 1 {
          assert r[1..] == t[1..];
          assert Join(t, sep) == t[0] + [sep] + Join(t[1..], sep);
        }
      }
      r
  }

  /** Fields without a separator, joined and split again, come back unchanged. */
  lemma {:induction false} SplitAllJoin<T>(parts: seq<seq<T>>, sep: T)
    requires |parts| >= 1
    requires forall k :: 0 <= k < |parts| ==> sep !in parts[k]
    ensures SplitAll(Join(parts, sep), sep) == parts
  {
    if |parts| == 1 {
      SplitAllNoSep(parts[0], sep);
    } else {
      SplitAllJoin(parts[1..], sep);
      SplitAllCons(parts[0], Join(parts[1..], sep), sep);
      assert parts == [parts[0]] + parts[1..];
    }
  }

  lemma {:induction false} SplitAllNoSep<T>(s: seq<T>, sep: T)
    requires sep !in s
    ensures SplitAll(s, sep) == [s]
    decreases |s|
  {
    if s != [] {
      SplitAllNoSep(s[1..], sep);
      assert [s[0]] + s[1..] == s;
    }
  }

  /** The first field ends at the first separator. */
  lemma {:induction false} SplitAllCons<T>(a: seq<T>, b: seq<T>, sep: T)
    requires sep !in a
    ensures SplitAll(a + [sep] + b, sep) == [a] + SplitAll(b, sep)
    decreases |a|
  {
    var s := a + [sep] + b;
    if a == [] {
      assert s[1..] == b;
    } else {
      assert s[1..] == a[1..] + [sep] + b;
      SplitAllCons(a[1..], b, sep);
      assert [a[0]] + a[1..] == a;
    }
  }

  /** Appending one element either closes the last field (a separator) or extends it. */
  lemma SplitAllSnoc<T>(s: seq<T>, x: T, sep: T)
    ensures var p := SplitAll(s, sep);
            SplitAll(s + [x], sep) == if x == sep then p + [[]] else p[..|p| - 1] + [p[|p| - 1] + [x]]
  {
    if x == sep {
      SplitAllSnocSep(s, sep);
    } else {
      SplitAllSnocOther(s, x, sep);
    }
  }

  lemma {:induction false} SplitAllSnocSep<T>(s: seq<T>, sep: T)
    ensures SplitAll(s + [sep], sep) == SplitAll(s, sep) + [[]]
    decreases |s|
  {
    if s == [] {
      assert s + [sep] == [sep];
      assert [sep][1..] == [];
    } else {
      assert (s + [sep])[1..] == s[1..] + [sep];
      SplitAllSnocSep(s[1..], sep);
    }
  }

  lemma {:induction false} SplitAllSnocOther<T>(s: seq<T>, x: T, sep: T)
    requires x != sep
    ensures var p := SplitAll(s, sep);
            SplitAll(s + [x], sep) == p[..|p| - 1] + [p[|p| - 1] + [x]]
    decreases |s|
  {
    if s == [] {
      assert s + [x] == [x];
      assert [x][1..] == [];
    } else {
      var t := s[1..];
      assert (s + [x])[1..] == t + [x];
      SplitAllSnocOther(t, x, sep);
      var q := SplitAll(t, sep);
      var p := SplitAll(s, sep);
      if s[0] == sep {
        assert p == [[]] + q;
        assert p[..|p| - 1] == [[]] + q[..|q| - 1];
      } else {
        assert p == [[s[0]] + q[0]] + q[1..];
        if |q| > 1 {
          assert p[..|p| - 1] == [[s[0]] + q[0]] + q[1..|q| - 1];
        }
      }
    }
  }

  /** `SplitAll` of `s + [x]` as its closed fields and its last field. */
  lemma SplitAllSnocParts<T>(s: seq<T>, x: T, sep: T)
    ensures var p, q := SplitAll(s, sep), SplitAll(s + [x], sep);
            if x == sep then q[..|q| - 1] == p && q[|q| - 1] == []
            else q[..|q| - 1] == p[..|p| - 1] && q[|q| - 1] == p[|p| - 1] + [x]
  {
    SplitAllSnoc(s, x, sep);
  }

  /** The number of occurrences of `x` in `s`. */
  function Count<T(==)>(s: seq<T>, x: T): nat {
    if s == [] then 0 else Count(s[..|s| - 1], x) + (if s[|s| - 1] == x then 1 else 0)
  }

  /** There is one field more than there are separators. */
  lemma {:induction false} SplitAllLength<T>(s: seq<T>, sep: T)
    ensures |SplitAll(s, sep)| == Count(s, sep) + 1
    decreases |s|
  {
    if s != [] {
      var front, x := s[..|s| - 1], s[|s| - 1];
      assert s == front + [x];
      SplitAllLength(front, sep);
      SplitAllSnoc(front, x, sep);
    }
  }

  /** Drops the empty fields at the end, as `split` without a limit does. */
  function DropTrailingEmpty<T>(ps: seq<seq<T>>): (r: seq<seq<T>>)
    ensures |r| <= |ps| && r == ps[..|r|]
    ensures r != [] ==> r[|r| - 1] != []
    ensures forall k :: |r| <= k < |ps| ==> ps[k] == []
  {
    if ps != [] && ps[|ps| - 1] == [] then DropTrailingEmpty(ps[..|ps| - 1]) else ps
  }

  lemma {:induction false} DropTrailingEmptyCons<T>(x: seq<T>, xs: seq<seq<T>>)
    ensures DropTrailingEmpty([x] + xs) ==
            if x == [] && DropTrailingEmpty(xs) == [] then [] else [x] + DropTrailingEmpty(xs)
    decreases |xs|
  {
    if xs != [] && xs[|xs| - 1] == [] {
      assert ([x] + xs)[..|xs|] == [x] + xs[..|xs| - 1];
      DropTrailingEmptyCons(x, xs[..|xs| - 1]);
    }
  }

  /** Ruby's `String#split(sep)` with a one-character separator and no limit:
      the fields between separators, with trailing empty fields removed. */
  function RubySplit(s: string, sep: char): (r: seq<string>)
    ensures forall k :: 0 <= k < |r| ==> sep !in r[k]
    ensures r != [] ==> r[|r| - 1] != []
    ensures sep !in s && s != [] ==> r == [s]
    ensures s == [] ==> r == []
  {
    var parts := SplitAll(s, sep);
    assert sep !in s ==> parts == [s] by { if sep !in s { SplitAllNoSep(s, sep); } }
    DropTrailingEmpty(parts)
  }

  /** Splitting after a separator-free first field gives that field and the rest's fields
      (an empty first field survives as long as some later field is non-empty). */
  lemma RubySplitCons(a: string, b: string, sep: char)
    requires sep !in a && (a != [] || RubySplit(b, sep) != [])
    ensures RubySplit(a + [sep] + b, sep) == [a] + RubySplit(b, sep)
  {
    SplitAllCons(a, b, sep);
    DropTrailingEmptyCons(a, SplitAll(b, sep));
  }

  /** A separator-free, non-empty field followed by a separator is the first field whatever follows. */
  lemma RubySplitFirst(a: string, b: string, sep: char)
    requires sep !in a && a != []
    ensures RubySplit(a + [sep] + b, sep) != [] && RubySplit(a + [sep] + b, sep)[0] == a
  {
    RubySplitCons(a, b, sep);
  }

  /** `split` yields no field at all exactly when the string is made only of separators. */
  lemma RubySplitEmpty(s: string, sep: char)
    ensures RubySplit(s, sep) == [] <==> forall k :: 0 <= k < |s| ==> s[k] == sep
  {
    var parts := SplitAll(s, sep);
    SplitAllEmpty(s, sep);
  }

  lemma {:induction false} SplitAllEmpty<T>(s: seq<T>, sep: T)
    ensures (forall k :: 0 <= k < |SplitAll(s, sep)| ==> SplitAll(s, sep)[k] == [])
            <==> (forall k :: 0 <= k < |s| ==> s[k] == sep)
    decreases |s|
  {
    if s != [] {
      SplitAllEmpty(s[1..], sep);
      var t := SplitAll(s[1..], sep);
      if s[0] == sep {
        assert SplitAll(s, sep) == [[]] + t;
        assert forall k :: 1 <= k < |s| ==> s[k] == s[1..][k - 1];
      } else {
        assert SplitAll(s, sep)[0] == [s[0]] + t[0];
      }
    }
  }

  /** The first field of `split` is a prefix of the string that ends at its end or at a separator. */
  lemma RubySplitFirstField(s: string, sep: char)
    requires RubySplit(s, sep) != []
    ensures var a := RubySplit(s, sep)[0];
            |a| <= |s| && s[..|a|] == a && (|a| == |s| || s[|a|] == sep)
  {
    var parts := SplitAll(s, sep);
    assert RubySplit(s, sep)[0] == parts[0];
    if |parts| > 1 {
      assert s == parts[0] + [sep] + Join(parts[1..], sep);
    }
  }
}
