/**
 * The parts of Python's `str` that the application relies on: `isspace`,
 * `strip()` with no argument, `split("\n")` and `sep.join(...)`.
 */
module PyStr {

  /** Python's `str.isspace()` for one code point: all of them lie between U+0009 and U+3000. */
  predicate IsSpace(c: char): (b: bool)
    ensures b ==> 9 <= c as int <= 0x3000
  {
    var n := c as int;
    (9 <= n <= 13) || (28 <= n <= 32) || n == 0x85 || n == 0xA0 || n == 0x1680
    || (0x2000 <= n <= 0x200A) || n == 0x2028 || n == 0x2029 || n == 0x202F
    || n == 0x205F || n == 0x3000
  }

  /**
   * Within ASCII the whitespace is the space, tab, line feed, vertical tab, form
   * feed, carriage return and the four information separators 0x1C-0x1F.
   */
  lemma IsSpaceAscii(c: char)
    requires c as int < 0x80
    ensures IsSpace(c) <==>
              c in {' ', '\t', '\n', '\r', '\U{0B}', '\U{0C}', '\U{1C}', '\U{1D}', '\U{1E}', '\U{1F}'}
  {
  }

  predicate AllSpace(s: string) {
    forall i :: 0 <= i < |s| ==> IsSpace(s[i])
  }

  /** No leading and no trailing whitespace. */
  predicate IsStripped(s: string) {
    s == "" || (!IsSpace(s[0]) && !IsSpace(s[|s| - 1]))
  }

  /** Index of the first non-whitespace character at or after `i`, or `|s|`. */
  function SkipSpace(s: string, i: nat): (k: nat)
    requires i <= |s|
    ensures i <= k <= |s|
    ensures forall j :: i <= j < k ==> IsSpace(s[j])
    ensures k < |s| ==> !IsSpace(s[k])
    decreases |s| - i
  {
    if i < |s| && IsSpace(s[i]) then SkipSpace(s, i + 1) else i
  }

  /** Scanning back from `hi` towards `lo`: the end of the text once trailing whitespace is cut. */
  function SkipSpaceBack(s: string, lo: nat, hi: nat): (k: nat)
    requires lo <= hi <= |s|
    ensures lo <= k <= hi
    ensures forall j :: k <= j < hi ==> IsSpace(s[j])
    ensures k > lo ==> !IsSpace(s[k - 1])
    decreases hi
  {
    if hi > lo && IsSpace(s[hi - 1]) then SkipSpaceBack(s, lo, hi - 1) else hi
  }

  /** Python's `s.strip()`: drops leading and trailing whitespace. */
  function Strip(s: string): (r: string)
    ensures IsStripped(r)
    ensures r == "" <==> AllSpace(s)
    ensures IsStripped(s) ==> r == s
  {
    var i := SkipSpace(s, 0);
    var k := SkipSpaceBack(s, i, |s|);
    assert k == i ==> AllSpace(s);
    assert IsStripped(s) && s != "" ==> i == 0 && k == |s|;
    s[i..k]
  }

  /** Strip removes whitespace at both ends and nothing else: the result is a slice of the input. */
  lemma StripRemovesOnlyOuterSpace(s: string)
    ensures var i := SkipSpace(s, 0);
            var r := Strip(s);
            i + |r| <= |s| && r == s[i..i + |r|] && AllSpace(s[..i]) && AllSpace(s[i + |r|..])
  {
    var i := SkipSpace(s, 0);
    var k := SkipSpaceBack(s, i, |s|);
    assert Strip(s) == s[i..k];
    forall j | 0 <= j < |s[k..]| ensures IsSpace(s[k..][j]) {
      assert s[k..][j] == s[k + j];
    }
  }

  /** A character absent from the text is absent from its stripped form. */
  lemma StripKeepsAbsence(s: string, c: char)
    ensures c !in s ==> c !in Strip(s)
  {
    var i := SkipSpace(s, 0);
    var k := SkipSpaceBack(s, i, |s|);
    var r := Strip(s);
    assert r == s[i..k];
    forall j | 0 <= j < |r| ensures r[j] in s {
      assert r[j] == s[i + j];
    }
  }

  /** Stripping twice is stripping once. */
  lemma StripIdempotent(s: string)
    ensures Strip(Strip(s)) == Strip(s)
  {
  }

  /** Index of the first `c` in `s`, or `|s|` when there is none. */
  function IndexOf(s: string, c: char): (k: nat)
    ensures k <= |s|
    ensures k < |s| ==> s[k] == c
    ensures forall j :: 0 <= j < k ==> s[j] != c
  {
    if |s| == 0 || s[0] == c then 0 else 1 + IndexOf(s[1..], c)
  }

  /** Python's `s.split("\n")`: the pieces between newlines, at least one. */
  function SplitLines(s: string): (lines: seq<string>)
    ensures |lines| >= 1
    ensures forall i :: 0 <= i < |lines| ==> '\n' !in lines[i]
    decreases |s|
  {
    var k := IndexOf(s, '\n');
    if k == |s| then [s] else [s[..k]] + SplitLines(s[k + 1..])
  }

  /** Python's `sep.join(parts)`: no separator before the first part or after the last. */
  function Join(sep: string, parts: seq<string>): (s: string)
    ensures |parts| > 0 ==> parts[0] <= s
    ensures |parts| == 0 ==> s == ""
  {
    if |parts| == 0 then ""
    else if |parts| == 1 then parts[0]
    else parts[0] + sep + Join(sep, parts[1..])
  }

  lemma JoinCons(sep: string, x: string, rest: seq<string>)
    ensures Join(sep, [x] + rest) == if rest == [] then x else x + sep + Join(sep, rest)
  {
    assert ([x] + rest)[1..] == rest;
  }

  /** Appending a part extends the joined string by the separator and that part. */
  lemma {:induction false} JoinAppend(sep: string, parts: seq<string>, x: string)
    ensures Join(sep, parts + [x]) == if parts == [] then x else Join(sep, parts) + sep + x
    decreases |parts|
  {
    if |parts| > 1 {
      JoinAppend(sep, parts[1..], x);
      assert (parts + [x])[1..] == parts[1..] + [x];
    } else if |parts| == 1 {
      assert (parts + [x])[1..] == [x];
    }
  }

  /** Joining with the empty separator is plain concatenation, so it splits over `+`. */
  lemma {:induction false} JoinEmptyConcat(xs: seq<string>, ys: seq<string>)
    ensures Join("", xs + ys) == Join("", xs) + Join("", ys)
    decreases |xs|
  {
    if xs == [] {
      assert xs + ys == ys;
    } else if ys == [] {
      assert xs + ys == xs;
    } else {
      var zs := xs + ys;
      assert zs[0] == xs[0] && zs[1..] == xs[1..] + ys;
      assert Join("", zs) == xs[0] + Join("", xs[1..] + ys);
      JoinEmptyConcat(xs[1..], ys);
      assert Join("", xs) == xs[0] + Join("", xs[1..]);
    }
  }

  /** `IndexOf` is determined by its contract: the first position holding `c`. */
  lemma IndexOfIs(s: string, c: char, k: nat)
    requires k < |s| && s[k] == c
    requires forall j :: 0 <= j < k ==> s[j] != c
    ensures IndexOf(s, c) == k
  {
    var m := IndexOf(s, c);
    assert m <= k;
    assert m >= k by {
      assert m < |s| && s[m] == c;
    }
  }

  lemma IndexOfAt(p: string, t: string, c: char)
    requires c !in p
    requires |t| > 0 && t[0] == c
    ensures IndexOf(p + t, c) == |p|
  {
    assert (p + t)[|p|] == c;
    assert forall j :: 0 <= j < |p| ==> (p + t)[j] == p[j] && p[j] in p;
    IndexOfIs(p + t, c, |p|);
  }

  /** Splitting then joining with the newline gives back the text. */
  lemma {:induction false} JoinSplitLines(s: string)
    ensures Join("\n", SplitLines(s)) == s
    decreases |s|
  {
    var k := IndexOf(s, '\n');
    if k < |s| {
      var a, b := s[..k], s[k + 1..];
      assert s == a + "\n" + b by {
        assert s == s[..k] + [s[k]] + s[k + 1..];
      }
      assert '\n' !in a by {
        assert forall j :: 0 <= j < k ==> a[j] == s[j];
      }
      SplitLinesAfterLine(a, b);
      JoinSplitLines(b);
      JoinCons("\n", a, SplitLines(b));
    }
  }

  /** Joining newline-free pieces then splitting gives back the pieces. */
  lemma {:induction false} SplitLinesJoin(parts: seq<string>)
    requires |parts| >= 1
    requires forall i :: 0 <= i < |parts| ==> '\n' !in parts[i]
    ensures SplitLines(Join("\n", parts)) == parts
    decreases |parts|
  {
    var p := parts[0];
    if |parts| == 1 {
      assert forall j :: 0 <= j < |p| ==> p[j] in p;
    } else {
      assert parts == [p] + parts[1..];
      JoinCons("\n", p, parts[1..]);
      SplitLinesAfterLine(p, Join("\n", parts[1..]));
      SplitLinesJoin(parts[1..]);
    }
  }

  /** A newline-free text followed by a newline is one line, then the lines of the rest. */
  lemma SplitLinesAfterLine(a: string, b: string)
    requires '\n' !in a
    ensures SplitLines(a + "\n" + b) == [a] + SplitLines(b)
  {
    var s := a + ("\n" + b);
    assert a + "\n" + b == s;
    IndexOfAt(a, "\n" + b, '\n');
    assert s[..|a|] == a;
    assert s[|a| + 1..] == b;
  }

  /** The first line of `a + "\n" + b` when `a` itself holds a newline at `k`. */
  lemma SplitLinesFirstInside(a: string, b: string, k: nat)
    requires k == IndexOf(a, '\n') < |a|
    ensures SplitLines(a + "\n" + b) == [a[..k]] + SplitLines(a[k + 1..] + "\n" + b)
  {
    var s := a + "\n" + b;
    assert s[k] == a[k];
    assert forall j :: 0 <= j < k ==> s[j] == a[j];
    IndexOfIs(s, '\n', k);
    assert s[..k] == a[..k];
    assert s[k + 1..] == a[k + 1..] + "\n" + b;
  }

  /** Splitting at a newline splits the line list at the same place. */
  lemma {:induction false} SplitLinesConcat(a: string, b: string)
    ensures SplitLines(a + "\n" + b) == SplitLines(a) + SplitLines(b)
    decreases |a|
  {
    var k := IndexOf(a, '\n');
    if k == |a| {
      assert '\n' !in a by {
        assert forall j :: 0 <= j < |a| ==> a[j] != '\n';
      }
      SplitLinesAfterLine(a, b);
    } else {
      SplitLinesFirstInside(a, b, k);
      SplitLinesConcat(a[k + 1..], b);
    }
  }
}
