/** Generated text: lines, their concatenation, and comma-separated lists. */
module Text {

  /** A name as it appears in generated import text: an identifier or a
      dotted module path, hence no line break, space or comma. */
  predicate IsName(s: string) {
    forall i :: 0 <= i < |s| ==> s[i] != '\n' && s[i] != ' ' && s[i] != ','
  }

  /** One line of generated text: ends in its only line break. */
  predicate IsLine(l: string) {
    |l| > 0 && l[|l| - 1] == '\n' && '\n' !in l[..|l| - 1]
  }

  /** The text a sequence of `+=` appends builds. */
  function Concat(parts: seq<string>): string {
    if parts == [] then "" else parts[0] + Concat(parts[1..])
  }

  lemma {:induction false} ConcatSnoc(parts: seq<string>, p: string)
    ensures Concat(parts + [p]) == Concat(parts) + p
  {
    if parts != [] {
      assert (parts + [p])[1..] == parts[1..] + [p];
      ConcatSnoc(parts[1..], p);
    }
  }

  lemma {:induction false} ConcatAppend(a: seq<string>, b: seq<string>)
    ensures Concat(a + b) == Concat(a) + Concat(b)
  {
    if a != [] {
      assert (a + b)[1..] == a[1..] + b;
      ConcatAppend(a[1..], b);
    } else {
      assert a + b == b;
    }
  }

  /** The length of the first line of `s`, its line break included (all of
      `s` when there is none). */
  function LineLength(s: string): (n: nat)
    requires s != ""
    ensures 0 < n <= |s|
  {
    if s[0] == '\n' || |s| == 1 then 1 else 1 + LineLength(s[1..])
  }

  /** Reads text back as its lines, each with its line break. */
  function SplitLines(s: string): seq<string>
    decreases |s|
  {
    if s == "" then [] else [s[..LineLength(s)]] + SplitLines(s[LineLength(s)..])
  }

  lemma {:induction false} LineLengthOfLine(l: string, rest: string)
    requires IsLine(l)
    ensures LineLength(l + rest) == |l|
  {
    if |l| > 1 {
      assert l[0] == l[..|l| - 1][0];
      var t := l[1..];
      assert t[..|t| - 1] == l[..|l| - 1][1..];
      assert (l + rest)[1..] == t + rest;
      LineLengthOfLine(t, rest);
    }
  }

  /** Concatenated lines are read back as exactly those lines. */
  lemma {:induction false} SplitLinesConcat(lines: seq<string>)
    requires forall i :: 0 <= i < |lines| ==> IsLine(lines[i])
    ensures SplitLines(Concat(lines)) == lines
  {
    if lines != [] {
      var rest := Concat(lines[1..]);
      LineLengthOfLine(lines[0], rest);
      assert (lines[0] + rest)[..|lines[0]|] == lines[0];
      assert (lines[0] + rest)[|lines[0]|..] == rest;
      SplitLinesConcat(lines[1..]);
    }
  }

  /** `sep.join(xs)` for a one-character separator. */
  function Join(sep: char, xs: seq<string>): string {
    if xs == [] then "" else if |xs| == 1 then xs[0] else xs[0] + [sep] + Join(sep, xs[1..])
  }

  function IndexOf(s: string, c: char): (n: nat)
    requires c in s
    ensures n < |s| && s[n] == c && c !in s[..n]
  {
    if s[0] == c then 0 else 1 + IndexOf(s[1..], c)
  }

  /** `s.split(sep)`. */
  function Split(sep: char, s: string): (r: seq<string>)
    decreases |s|
  {
    if sep !in s then [s] else [s[..IndexOf(s, sep)]] + Split(sep, s[IndexOf(s, sep) + 1..])
  }

  lemma {:induction false} IndexOfAfter(a: string, c: char, b: string)
    requires c !in a
    ensures IndexOf(a + [c] + b, c) == |a|
  {
    if a != [] {
      assert (a + [c] + b)[1..] == a[1..] + [c] + b;
      IndexOfAfter(a[1..], c, b);
    }
  }

  /** Joined items are split back into those items when none holds the
      separator. */
  lemma {:induction false} SplitJoin(sep: char, xs: seq<string>)
    requires xs != []
    requires forall i :: 0 <= i < |xs| ==> sep !in xs[i]
    ensures Split(sep, Join(sep, xs)) == xs
  {
    if |xs| > 1 {
      var rest := Join(sep, xs[1..]);
      IndexOfAfter(xs[0], sep, rest);
      var s := xs[0] + [sep] + rest;
      assert s[..|xs[0]|] == xs[0];
      assert s[|xs[0]| + 1..] == rest;
      SplitJoin(sep, xs[1..]);
    }
  }
}
