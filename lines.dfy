/** Result shapes shared by both cursors: a Python call either returns or raises. */
module Outcomes {
  datatype Option<T> = None | Some(value: T)

  /** The Python exceptions that the modelled code can raise. */
  datatype Exception = IndexError | ValueError

  /** The outcome of a Python call: the value it returned, or the exception it raised. */
  datatype Outcome<T> = Returned(value: T) | Raised(error: Exception)
}

/**
 * The line table: the buffer as a sequence of lines, each keeping its
 * terminator, together with the flat-index arithmetic used to state what
 * the cursors do.
 *
 * Python's `lines[i]` accepts i == -1 and then means the last line. The
 * cursors rely on that (a backward walk can reach line -1), so positions
 * are stated over the EXTENDED table Ext(lines) == [last line] + lines, in
 * which Python line l is entry l + 1. Flat(lines, l, c) is the index of
 * (l, c) in Joined(lines), the concatenation of the extended table.
 */
module LineTable {
  import opened Outcomes

  /** "".join(ls) */
  function Concat(ls: seq<string>): string
  {
    if ls == [] then [] else Concat(ls[..|ls| - 1]) + ls[|ls| - 1]
  }

  lemma {:induction false} ConcatAppend(xs: seq<string>, ys: seq<string>)
    ensures Concat(xs + ys) == Concat(xs) + Concat(ys)
    decreases |ys|
  {
    if ys == [] {
      assert xs + ys == xs;
    } else {
      var zs := xs + ys;
      assert zs[..|zs| - 1] == xs + ys[..|ys| - 1];
      ConcatAppend(xs, ys[..|ys| - 1]);
    }
  }

  /** Number of characters in the first j lines. */
  function Prefix(ls: seq<string>, j: nat): (r: nat)
    requires j <= |ls|
  {
    if j == 0 then 0 else Prefix(ls, j - 1) + |ls[j - 1]|
  }

  lemma {:induction false} PrefixLength(ls: seq<string>, j: nat)
    requires j <= |ls|
    ensures Prefix(ls, j) == |Concat(ls[..j])|
  {
    if j > 0 {
      PrefixLength(ls, j - 1);
      assert ls[..j][..j - 1] == ls[..j - 1];
    }
  }

  /** The lines a..b occupy exactly the flat range Prefix(a)..Prefix(b) of the joined text. */
  lemma ConcatRange(ls: seq<string>, a: nat, b: nat)
    requires a <= b <= |ls|
    ensures Prefix(ls, a) <= Prefix(ls, b) <= |Concat(ls)|
    ensures Prefix(ls, b) == Prefix(ls, a) + |Concat(ls[a..b])|
    ensures Concat(ls)[Prefix(ls, a)..Prefix(ls, b)] == Concat(ls[a..b])
  {
    PrefixLength(ls, a);
    PrefixLength(ls, b);
    assert ls[..b] == ls[..a] + ls[a..b];
    assert ls == ls[..b] + ls[b..];
    ConcatAppend(ls[..a], ls[a..b]);
    ConcatAppend(ls[..b], ls[b..]);
  }

  /** Characters a..b of line j sit at Prefix(j) + a .. Prefix(j) + b of the joined text. */
  lemma LineChars(ls: seq<string>, j: nat, a: nat, b: nat)
    requires j < |ls| && a <= b <= |ls[j]|
    ensures Prefix(ls, j + 1) == Prefix(ls, j) + |ls[j]| <= |Concat(ls)|
    ensures Concat(ls)[Prefix(ls, j) + a..Prefix(ls, j) + b] == ls[j][a..b]
  {
    ConcatRange(ls, j, j + 1);
    ConcatOne(ls[j..j + 1]);
    SubSlice(Concat(ls), Prefix(ls, j), Prefix(ls, j + 1), a, b);
  }

  lemma ConcatOne(one: seq<string>)
    requires |one| == 1
    ensures Concat(one) == one[0]
  {
    assert one[..0] == [];
  }

  lemma SubSlice(s: string, p: nat, q: nat, a: nat, b: nat)
    requires p <= q <= |s| && a <= b <= q - p
    ensures s[p + a..p + b] == s[p..q][a..b]
  {
    var t := s[p..q];
    assert forall i :: 0 <= i < b - a ==> s[p + a..p + b][i] == t[a..b][i];
  }

  /** Every line of a split buffer is non-empty: it holds at least its terminator or one character. */
  predicate WellFormed(lines: seq<string>)
  {
    forall i :: 0 <= i < |lines| ==> |lines[i]| > 0
  }

  /** Python's `lines[i]` for an index it accepts; a negative index counts from the end. */
  function Line(lines: seq<string>, i: int): string
    requires -|lines| <= i < |lines|
  {
    if i >= 0 then lines[i] else lines[|lines| + i]
  }

  /** Python's `lines[i]`: None where Python raises IndexError. */
  function Get(lines: seq<string>, i: int): Option<string>
  {
    if -|lines| <= i < |lines| then Some(Line(lines, i)) else None
  }

  /** Python's `lines[l][c]` for a non-negative c: None where Python raises IndexError. */
  function CharAt(lines: seq<string>, l: int, c: nat): Option<char>
  {
    if -|lines| <= l < |lines| && c < |Line(lines, l)| then Some(Line(lines, l)[c]) else None
  }

  /** Python's `s[a:b]` for non-negative bounds: both bounds are clamped to the string. */
  function Slice(s: string, a: nat, b: nat): string
  {
    var lo := if a <= |s| then a else |s|;
    var hi := if b <= |s| then b else |s|;
    if lo <= hi then s[lo..hi] else []
  }

  /** Python's `s[::-1]`. */
  function Reversed<T>(s: seq<T>): (r: seq<T>)
    ensures |r| == |s|
    ensures forall i :: 0 <= i < |s| ==> r[i] == s[|s| - 1 - i]
  {
    if s == [] then [] else Reversed(s[1..]) + [s[0]]
  }

  /** A cursor position the canonical reader can hold: (0, 0) on an empty buffer;
      otherwise a line in -1..n-1 and a char at most one past the end of that line. */
  predicate Reachable(lines: seq<string>, l: int, c: int)
  {
    if lines == [] then l == 0 && c == 0
    else -1 <= l < |lines| && 0 <= c <= |Line(lines, l)|
  }

  /** A position that names a character of its line. */
  predicate InLine(lines: seq<string>, l: int, c: int)
  {
    -|lines| <= -1 <= l < |lines| && 0 <= c < |Line(lines, l)|
  }

  /** The extended table: Python's line -1 (the last line) in front of line 0. */
  ghost function Ext(lines: seq<string>): (e: seq<string>)
    requires lines != []
    ensures |e| == |lines| + 1
    ensures forall l :: -1 <= l < |lines| ==> e[l + 1] == Line(lines, l)
  {
    [lines[|lines| - 1]] + lines
  }

  /** Lines a..b of the table are entries a+1..b+1 of the extended table. */
  lemma ExtRange(lines: seq<string>, a: nat, b: nat)
    requires lines != [] && a <= b <= |lines|
    ensures Ext(lines)[a + 1..b + 1] == lines[a..b]
  {
    var x := [lines[|lines| - 1]];
    assert Ext(lines) == x + lines;
    assert (x + lines)[a + 1..b + 1] == lines[a..b];
  }

  ghost function Joined(lines: seq<string>): string
    requires lines != []
  {
    Concat(Ext(lines))
  }

  /** Flat index of (l, c) in Joined(lines); l == |lines| names the end of the text. */
  ghost function Flat(lines: seq<string>, l: int, c: int): int
    requires lines != [] && -1 <= l <= |lines|
  {
    Prefix(Ext(lines), l + 1) + c
  }

  /** Past the end of a line is the start of the next one; the text ends at Flat(n, 0). */
  lemma FlatLineEnd(lines: seq<string>, l: int)
    requires lines != [] && -1 <= l < |lines|
    ensures Flat(lines, l, |Line(lines, l)|) == Flat(lines, l + 1, 0)
    ensures Flat(lines, l + 1, 0) <= Flat(lines, |lines|, 0) == |Joined(lines)|
    ensures Flat(lines, -1, 0) == 0
  {
    var e := Ext(lines);
    LineChars(e, l + 1, 0, 0);
    ConcatRange(e, l + 2, |e|);
    PrefixLength(e, |e|);
    assert e[..|e|] == e;
  }

  /** Line starts grow with the line number. */
  lemma FlatMonotone(lines: seq<string>, a: int, b: int)
    requires lines != [] && -1 <= a <= b <= |lines|
    ensures Flat(lines, a, 0) <= Flat(lines, b, 0)
  {
    ConcatRange(Ext(lines), a + 1, b + 1);
  }

  /** A reachable position lies within the joined text. */
  lemma FlatBound(lines: seq<string>, l: int, c: int)
    requires lines != [] && Reachable(lines, l, c)
    ensures 0 <= Flat(lines, l, 0) <= Flat(lines, l, c) <= |Joined(lines)|
  {
    FlatLineEnd(lines, l);
    FlatMonotone(lines, -1, l);
  }

  /** The character at an in-line position is the one at its flat index. */
  lemma FlatChar(lines: seq<string>, l: int, c: int)
    requires lines != [] && InLine(lines, l, c)
    ensures 0 <= Flat(lines, l, c) < |Joined(lines)|
    ensures Joined(lines)[Flat(lines, l, c)] == Line(lines, l)[c]
  {
    LineChars(Ext(lines), l + 1, c, c + 1);
    assert Joined(lines)[Flat(lines, l, c)] == Joined(lines)[Flat(lines, l, c)..Flat(lines, l, c) + 1][0];
  }

  /** Part a..b of line l is the flat range Flat(l, a)..Flat(l, b). */
  lemma FlatSlice(lines: seq<string>, l: int, a: nat, b: nat)
    requires lines != [] && -1 <= l < |lines| && a <= b <= |Line(lines, l)|
    ensures 0 <= Flat(lines, l, a) <= Flat(lines, l, b) <= |Joined(lines)|
    ensures Joined(lines)[Flat(lines, l, a)..Flat(lines, l, b)] == Line(lines, l)[a..b]
  {
    LineChars(Ext(lines), l + 1, a, b);
  }

  /** If one position comes strictly before another, its line is not later. */
  lemma FlatOrder(lines: seq<string>, a: int, ac: int, b: int, bc: int)
    requires lines != [] && -1 <= a < |lines| && -1 <= b < |lines|
    requires 0 <= ac && 0 <= bc <= |Line(lines, b)|
    requires Flat(lines, a, ac) < Flat(lines, b, bc)
    ensures a <= b
  {
    if b < a {
      FlatLineEnd(lines, b);
      FlatMonotone(lines, b + 1, a);
    }
  }

  /** Length of the first line of s: up to and including its first '\n', or all of s. */
  function FirstLineLength(s: string): (k: nat)
    requires s != []
    ensures 0 < k <= |s|
    ensures forall i :: 0 <= i < k - 1 ==> s[i] != '\n'
    ensures k < |s| ==> s[k - 1] == '\n'
  {
    if s[0] == '\n' || |s| == 1 then 1 else 1 + FirstLineLength(s[1..])
  }

  /**
   * The buffer split into lines that keep their terminators; only '\n'
   * terminates a line here. Joining the lines gives the text back, no line
   * is empty, and every line but the last ends with its only '\n'.
   */
  function SplitLines(text: string): (lines: seq<string>)
    ensures WellFormed(lines)
    ensures Concat(lines) == text
    ensures lines == [] <==> text == []
    ensures forall i :: 0 <= i < |lines| - 1 ==> lines[i][|lines[i]| - 1] == '\n'
    ensures forall i, k :: 0 <= i < |lines| && 0 <= k < |lines[i]| - 1 ==> lines[i][k] != '\n'
    decreases |text|
  {
    if text == [] then []
    else
      var k := FirstLineLength(text);
      var rest := SplitLines(text[k..]);
      ConcatAppend([text[..k]], rest);
      ConcatOne([text[..k]]);
      assert text == text[..k] + text[k..];
      LinesCons(text[..k], rest);
      [text[..k]] + rest
  }

  /** Putting a first line in front of split lines keeps their shape. */
  lemma LinesCons(first: string, rest: seq<string>)
    requires first != [] && forall k :: 0 <= k < |first| - 1 ==> first[k] != '\n'
    requires rest != [] ==> first[|first| - 1] == '\n'
    requires WellFormed(rest)
    requires forall i :: 0 <= i < |rest| - 1 ==> rest[i][|rest[i]| - 1] == '\n'
    requires forall i, k :: 0 <= i < |rest| && 0 <= k < |rest[i]| - 1 ==> rest[i][k] != '\n'
    ensures var lines := [first] + rest;
      WellFormed(lines) &&
      (forall i :: 0 <= i < |lines| - 1 ==> lines[i][|lines[i]| - 1] == '\n') &&
      (forall i, k :: 0 <= i < |lines| && 0 <= k < |lines[i]| - 1 ==> lines[i][k] != '\n')
  {
    var lines := [first] + rest;
    assert forall i :: 1 <= i < |lines| ==> lines[i] == rest[i - 1];
  }
}
