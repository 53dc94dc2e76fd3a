/** Sequence-of-character operations that the upload script uses through Python's
    `str` methods: character filtering, single-character replacement, `sep.join`
    and `s.split(c)`. */
module Strings {

  predicate IsAsciiChar(c: char) {
    (c as int) < 128
  }

  predicate IsAscii(s: string) {
    forall i :: 0 <= i < |s| ==> IsAsciiChar(s[i])
  }

  /** The characters of `s` that satisfy `p`, in their original order. */
  function Keep(p: char -> bool, s: string): (r: string)
    ensures forall i :: 0 <= i < |r| ==> p(r[i])
    ensures (forall i :: 0 <= i < |s| ==> p(s[i])) ==> r == s
    ensures |r| <= |s|
  {
    if |s| == 0 then ""
    else
      assert forall i :: 0 <= i < |s[1..]| ==> s[1..][i] == s[i + 1];
      (if p(s[0]) then [s[0]] else "") + Keep(p, s[1..])
  }

  /** `s` with every occurrence of `a` replaced by `b` (Python's `s.replace(a, b)` for
      one-character arguments). */
  function ReplaceChar(s: string, a: char, b: char): (r: string)
    ensures |r| == |s|
    ensures forall i :: 0 <= i < |s| ==> r[i] == if s[i] == a then b else s[i]
  {
    if |s| == 0 then ""
    else [if s[0] == a then b else s[0]] + ReplaceChar(s[1..], a, b)
  }

  /** The concatenation of a sequence of strings, in order. */
  function Concat(ss: seq<string>): string {
    if |ss| == 0 then "" else ss[0] + Concat(ss[1..])
  }

  /** Python's `sep.join(parts)`: no separator for zero or one part. */
  function Join(sep: string, parts: seq<string>): string {
    if |parts| == 0 then ""
    else if |parts| == 1 then parts[0]
    else parts[0] + sep + Join(sep, parts[1..])
  }

  /** Python's `s.split(c)`: the maximal runs between occurrences of `c`, so one more
      piece than there are occurrences, and none of them contains `c`. */
  function Split(s: string, c: char): (r: seq<string>)
    ensures |r| == multiset(s)[c] + 1
    ensures forall k :: 0 <= k < |r| ==> c !in r[k]
  {
    if |s| == 0 then [""]
    else
      var rest := Split(s[1..], c);
      assert s == [s[0]] + s[1..];
      if s[0] == c then [""] + rest
      else [[s[0]] + rest[0]] + rest[1..]
  }

  /** Filtering distributes over concatenation. */
  lemma {:induction false} KeepAppend(p: char -> bool, a: string, b: string)
    ensures Keep(p, a + b) == Keep(p, a) + Keep(p, b)
  {
    if |a| == 0 {
      assert a + b == b;
    } else {
      assert (a + b)[1..] == a[1..] + b;
      KeepAppend(p, a[1..], b);
    }
  }

  /** Filtering with a predicate no character satisfies leaves nothing. */
  lemma {:induction false} KeepNone(p: char -> bool, s: string)
    requires forall i :: 0 <= i < |s| ==> !p(s[i])
    ensures Keep(p, s) == ""
  {
    if |s| > 0 {
      KeepNone(p, s[1..]);
    }
  }

  /** Replacement distributes over concatenation. */
  lemma ReplaceAppend(a: string, b: string, x: char, y: char)
    ensures ReplaceChar(a + b, x, y) == ReplaceChar(a, x, y) + ReplaceChar(b, x, y)
  {
  }

  /** A string free of `c` splits into itself alone. */
  lemma {:induction false} SplitFree(s: string, c: char)
    requires c !in s
    ensures Split(s, c) == [s]
  {
    if |s| > 0 {
      assert s == [s[0]] + s[1..];
      SplitFree(s[1..], c);
    }
  }

  /** A piece free of `c`, followed by `c`, splits off as the first piece. */
  lemma {:induction false} SplitAfterPiece(a: string, c: char, b: string)
    requires c !in a
    ensures Split(a + [c] + b, c) == [a] + Split(b, c)
  {
    if |a| == 0 {
      assert a + [c] + b == [c] + b;
      assert ([c] + b)[1..] == b;
    } else {
      var s := a + [c] + b;
      assert s[0] == a[0];
      assert s[1..] == a[1..] + [c] + b;
      assert a == [a[0]] + a[1..];
      SplitAfterPiece(a[1..], c, b);
    }
  }

  /** Splitting undoes joining with a one-character separator, as long as there is
      at least one part and no part contains the separator. */
  lemma {:induction false} SplitJoin(parts: seq<string>, c: char)
    requires |parts| >= 1
    requires forall k :: 0 <= k < |parts| ==> c !in parts[k]
    ensures Split(Join([c], parts), c) == parts
  {
    if |parts| == 1 {
      SplitFree(parts[0], c);
    } else {
      SplitAfterPiece(parts[0], c, Join([c], parts[1..]));
      SplitJoin(parts[1..], c);
      assert parts == [parts[0]] + parts[1..];
    }
  }

  /** Joining `n >= 1` parts with a one-character separator adds exactly `n - 1`
      separators to those already inside the parts. */
  lemma {:induction false} JoinSeparatorCount(parts: seq<string>, c: char)
    requires |parts| >= 1
    ensures multiset(Join([c], parts))[c] == multiset(Concat(parts))[c] + |parts| - 1
  {
    if |parts| > 1 {
      JoinSeparatorCount(parts[1..], c);
      assert Join([c], parts) == parts[0] + [c] + Join([c], parts[1..]);
      assert multiset(parts[0] + [c] + Join([c], parts[1..]))
          == multiset(parts[0]) + multiset([c]) + multiset(Join([c], parts[1..]));
      assert multiset(Concat(parts)) == multiset(parts[0]) + multiset(Concat(parts[1..]));
    } else {
      assert Concat(parts) == parts[0] + Concat([]);
      assert Concat(parts) == parts[0];
    }
  }

  /** Each line followed by a newline. */
  function Terminated(lines: seq<string>): string {
    if |lines| == 0 then "" else Terminated(lines[..|lines| - 1]) + lines[|lines| - 1] + ['\n']
  }

  lemma {:induction false} TerminatedAppend(xs: seq<string>, ys: seq<string>)
    ensures Terminated(xs + ys) == Terminated(xs) + Terminated(ys)
    decreases |ys|
  {
    if |ys| == 0 {
      assert xs + ys == xs;
    } else {
      var zs := ys[..|ys| - 1];
      assert (xs + ys)[..|xs + ys| - 1] == xs + zs;
      TerminatedAppend(xs, zs);
    }
  }

  lemma TerminatedCons(line: string, rest: seq<string>)
    ensures Terminated([line] + rest) == line + ['\n'] + Terminated(rest)
  {
    TerminatedAppend([line], rest);
    assert [line][..0] == [];
  }

  /** The first of several newline-terminated lines splits off as the first piece. */
  lemma SplitFirstLine(line: string, rest: seq<string>)
    requires '\n' !in line
    ensures Split(Terminated([line] + rest), '\n') == [line] + Split(Terminated(rest), '\n')
  {
    TerminatedCons(line, rest);
    SplitAfterPiece(line, '\n', Terminated(rest));
  }

  /** Splitting lines that each end in a newline gives the lines back, followed by the
      empty piece after the last newline. */
  lemma {:induction false} SplitTerminated(lines: seq<string>)
    requires forall k :: 0 <= k < |lines| ==> '\n' !in lines[k]
    ensures Split(Terminated(lines), '\n') == lines + [""]
    decreases |lines|
  {
    if |lines| > 0 {
      var rest := lines[1..];
      assert lines == [lines[0]] + rest;
      SplitFirstLine(lines[0], rest);
      SplitTerminated(rest);
      assert lines + [""] == [lines[0]] + (rest + [""]);
    }
  }
}
