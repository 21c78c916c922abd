/**
 * The legacy cursor `BufferReader` of src/buffer_reader.py: public
 * pointers, an `output` string, a `move` with the same walk as the
 * canonical resolver, and a length-based `read` that builds its result
 * inside the walk.
 */
module Legacy {
  import opened Outcomes
  import opened LineTable
  import opened Resolver

  /** What a backward read has appended once its walk is on line l < line: the current
      line up to the pointer, then the whole lines line-1, line-2, ..., l+1 in that order. */
  ghost function Appended(lines: seq<string>, line: int, col: int, l: int): string
    requires 0 <= line < |lines| && 0 <= col < |lines[line]| && -1 <= l <= line
    decreases line - l
  {
    if l == line then []
    else if l == line - 1 then lines[line][..col + 1]
    else Appended(lines, line, col, l + 1) + lines[l + 1]
  }

  /** The appended text is the current line's head followed by the lines between, REVERSED. */
  lemma {:induction false} AppendedReversed(lines: seq<string>, line: int, col: int, l: int)
    requires 0 <= line < |lines| && 0 <= col < |lines[line]| && -1 <= l < line
    ensures Appended(lines, line, col, l) == lines[line][..col + 1] + Concat(Reversed(lines[l + 1..line]))
    decreases line - l
  {
    if l == line - 1 {
      assert lines[l + 1..line] == [];
    } else {
      AppendedReversed(lines, line, col, l + 1);
      var x := lines[l + 1..line];
      var r := Reversed(lines[l + 2..line]);
      assert x[1..] == lines[l + 2..line];
      assert Reversed(x) == r + [lines[l + 1]];
      ConcatAppend(r, [lines[l + 1]]);
      ConcatOne([lines[l + 1]]);
    }
  }

  /** The first line in j..line that starts at or after flat index t. */
  ghost function FirstLineFrom(lines: seq<string>, t: int, j: int, line: int): (r: int)
    requires lines != [] && 0 <= j <= line < |lines|
    requires t <= Flat(lines, line, 0)
    requires j == 0 || Flat(lines, j - 1, 0) < t
    ensures j <= r <= line && t <= Flat(lines, r, 0) && (r == 0 || Flat(lines, r - 1, 0) < t)
    decreases line - j
  {
    if t <= Flat(lines, j, 0) then j else FirstLineFrom(lines, t, j + 1, line)
  }

  lemma FirstLineUnique(lines: seq<string>, t: int, a: int, b: int)
    requires lines != [] && 0 <= a < |lines| && 0 <= b < |lines|
    requires t <= Flat(lines, a, 0) && (a == 0 || Flat(lines, a - 1, 0) < t)
    requires t <= Flat(lines, b, 0) && (b == 0 || Flat(lines, b - 1, 0) < t)
    ensures a == b
  {
    if a < b {
      FlatMonotone(lines, a, b - 1);
    } else if b < a {
      FlatMonotone(lines, b, a - 1);
    }
  }

  /**
   * What `read(-m)` leaves in `output`, as written: the m characters ending
   * at the pointer, J[S..F+1] with S = F + 1 - m. Within the current line that
   * is the slice itself. Otherwise, with j the first line starting at or
   * after S, it is the part of line j-1 from S, then the current line up to
   * the pointer, then the whole lines line-1 DOWN TO j: the whole lines and
   * the current line come in reverse order.
   */
  ghost function BackwardAsWritten(lines: seq<string>, line: int, col: int, m: int): string
    requires WellFormed(lines) && lines != [] && 0 <= line < |lines| && 0 <= col < |lines[line]|
    requires 1 <= m && Flat(lines, 0, 0) <= Flat(lines, line, col) + 1 - m
  {
    var f := Flat(lines, line, col);
    var start := f + 1 - m;
    if start > Flat(lines, line, 0) then Slice(Joined(lines), start, f + 1)
    else
      var j := FirstLineFrom(lines, start, 0, line);
      Slice(Joined(lines), start, Flat(lines, j, 0)) + Appended(lines, line, col, j - 1)
  }

  /**
   * What `read(length)` yields from (line, col) for a length other than 0:
   * Some(text) when it returns True and leaves text in `output`, None when
   * it returns False. Forward, the length characters from the pointer;
   * backward, the -length characters ending at the pointer, as
   * BackwardAsWritten arranges them, unless the read runs off the buffer.
   */
  ghost function ReadResult(lines: seq<string>, line: int, col: int, length: int): Option<string>
    requires WellFormed(lines) && lines != [] && InLine(lines, line, col) && length != 0
  {
    var f := Flat(lines, line, col);
    if length > 0 then
      if f + length <= |Joined(lines)| then Some(Joined(lines)[f..f + length]) else None
    else if line >= 0 && Flat(lines, 0, 0) <= f + 1 + length then
      Some(BackwardAsWritten(lines, line, col, -length))
    else None
  }

  /**
   * What `read(length)` evidently means to yield: the slice of the text
   * from the pointer forward, or ending at the pointer backward, whenever
   * it lies within the buffer.
   */
  ghost function InOrderResult(lines: seq<string>, line: int, col: int, length: int): Option<string>
    requires WellFormed(lines) && lines != [] && InLine(lines, line, col) && length != 0
  {
    var f := Flat(lines, line, col);
    FlatChar(lines, line, col);
    if length > 0 then
      if f + length <= |Joined(lines)| then Some(Joined(lines)[f..f + length]) else None
    else if line >= 0 && Flat(lines, 0, 0) <= f + 1 + length then
      Some(Joined(lines)[f + 1 + length..f + 1])
    else None
  }

  /**
   * The reads as written and as intended agree going forward, and going
   * back as long as the read ends within the current line or the line
   * above it, so that no whole line is left behind; past that they differ
   * in order (see BackwardMisorder).
   */
  lemma ReadAgreesShortOfWholeLine(lines: seq<string>, line: int, col: int, length: int)
    requires WellFormed(lines) && lines != [] && InLine(lines, line, col) && length != 0
    requires length < 0 && line >= 0 ==> -length < col + 1 + |Line(lines, line - 1)|
    ensures ReadResult(lines, line, col, length) == InOrderResult(lines, line, col, length)
  {
    if length < 0 && line >= 0 && (-length <= col + 1 || line >= 1) {
      var m, f := -length, Flat(lines, line, col);
      BackwardInOrder(lines, line, col, m);
      assert ReadResult(lines, line, col, length) == Some(BackwardAsWritten(lines, line, col, m));
      assert InOrderResult(lines, line, col, length) == Some(Joined(lines)[f + 1 - m..f + 1]);
    } else if length < 0 && line >= 0 {
      assert Flat(lines, line, col) + 1 + length < Flat(lines, 0, 0);
      assert ReadResult(lines, line, col, length) == None == InOrderResult(lines, line, col, length);
    }
  }

  /** A backward read that consumes no whole line keeps buffer order. */
  lemma BackwardInOrder(lines: seq<string>, line: int, col: int, m: int)
    requires WellFormed(lines) && lines != [] && 0 <= line < |lines| && 0 <= col < |lines[line]| && m > 0
    requires m <= col + 1 || (line >= 1 && m < col + 1 + |lines[line - 1]|)
    ensures var f := Flat(lines, line, col);
      Flat(lines, 0, 0) <= f + 1 - m && f + 1 <= |Joined(lines)| &&
      BackwardAsWritten(lines, line, col, m) == Joined(lines)[f + 1 - m..f + 1]
  {
    if m <= col + 1 {
      BackwardInOrderWithinLine(lines, line, col, m);
    } else {
      BackwardInOrderAcrossOne(lines, line, col, m);
    }
  }

  /** A backward read ending inside the line above keeps buffer order: only that line's tail is prepended. */
  lemma BackwardInOrderAcrossOne(lines: seq<string>, line: int, col: int, m: int)
    requires WellFormed(lines) && lines != [] && 1 <= line < |lines| && 0 <= col < |lines[line]|
    requires col + 1 < m < col + 1 + |lines[line - 1]|
    ensures var f := Flat(lines, line, col);
      Flat(lines, 0, 0) <= f + 1 - m && f + 1 <= |Joined(lines)| &&
      BackwardAsWritten(lines, line, col, m) == Joined(lines)[f + 1 - m..f + 1]
  {
    var l, a := line - 1, |lines[line - 1]| - (m - col - 1);
    var j, f := Joined(lines), Flat(lines, line, col);
    assert Flat(lines, l, |lines[l]|) == Flat(lines, line, 0) by { FlatLineEnd(lines, l); }
    assert f + 1 - m == Flat(lines, l, a);
    TailOfLine(lines, l, a, line);
    BackwardInsideLine(lines, line, col, m, l, a);
    assert j[Flat(lines, line, 0)..f + 1] == lines[line][..col + 1] by { FlatSlice(lines, line, 0, col + 1); }
    PieceJoin(j, Flat(lines, l, a), Flat(lines, line, 0), f + 1, lines[l][a..], lines[line][..col + 1]);
  }

  lemma BackwardInOrderWithinLine(lines: seq<string>, line: int, col: int, m: int)
    requires WellFormed(lines) && lines != [] && 0 <= line < |lines| && 0 <= col < |lines[line]|
    requires 0 < m <= col + 1
    ensures var f := Flat(lines, line, col);
      Flat(lines, 0, 0) <= f + 1 - m && f + 1 <= |Joined(lines)| &&
      BackwardAsWritten(lines, line, col, m) == Joined(lines)[f + 1 - m..f + 1]
  {
    FlatSlice(lines, line, col + 1 - m, col + 1);
    if m == col + 1 {
      BackwardFromLineStart(lines, line, col, m, line);
    } else {
      BackwardWithinLine(lines, line, col, m);
    }
  }

  class LegacyReader {
    const lines: seq<string>
    var linePointer: int
    var charPointer: int
    var output: string

    /** The pointers name a character (callers may also assign them directly). */
    ghost predicate Valid()
      reads this`linePointer, this`charPointer
    {
      WellFormed(lines) && lines != [] && InLine(lines, linePointer, charPointer)
    }

    /** `BufferReader(buffer)`; an empty buffer makes `lines[0][0]` raise, so it is excluded. */
    constructor (buffer: string)
      requires buffer != []
      ensures Valid() && lines == SplitLines(buffer)
      ensures linePointer == 0 && charPointer == 0 && output == [lines[0][0]]
    {
      var split := SplitLines(buffer);
      lines := split;
      linePointer, charPointer := 0, 0;
      output := [split[0][0]];
    }

    /**
     * `move(n)`: 0 returns True and changes nothing; otherwise the walk of
     * the resolver. A position found moves the pointers, then `output`
     * becomes the character there (IndexError, pointers already moved, when
     * it is one past its line); no position found returns False, keeps the
     * pointers and clears `output`.
     */
    method Move(n: int) returns (o: Outcome<bool>)
      requires Valid()
      modifies this`linePointer, this`charPointer, this`output
      ensures n == 0 ==> o == Returned(true) && linePointer == old(linePointer) && charPointer == old(charPointer) && output == old(output)
      ensures n != 0 ==>
        var r := Resolved(lines, old(linePointer), old(charPointer), n);
        r.Returned? &&
        (r.value.None? ==> o == Returned(false) && linePointer == old(linePointer) && charPointer == old(charPointer) && output == []) &&
        (r.value.Some? ==> (linePointer == r.value.value.line && charPointer == r.value.value.col &&
          if InLine(lines, linePointer, charPointer)
          then o == Returned(true) && output == [Line(lines, linePointer)[charPointer]]
          else o == Raised(IndexError) && output == old(output)))
      ensures o.Returned? ==> Valid()
    {
      if n == 0 {
        return Returned(true);
      }
      ResolvedReachable(lines, linePointer, charPointer, n);
      var positions := Resolve(lines, linePointer, charPointer, n);
      match positions
      case Raised(e) =>
        assert false;
      case Returned(None) =>
        output := [];
        o := Returned(false);
      case Returned(Some(p)) =>
        linePointer, charPointer := p.line, p.col;
        match CharAt(lines, linePointer, charPointer)
        case None =>
          o := Raised(IndexError);
        case Some(ch) =>
          output := [ch];
          o := Returned(true);
    }

    /**
     * `read(length)`: 0 raises ValueError. Otherwise True with `output` the
     * |length| characters starting (length > 0) or ending (length < 0) at the
     * pointer, the backward ones arranged as BackwardAsWritten; False with
     * `output` cleared when the buffer runs out. The pointers never move.
     */
    method Read(length: int) returns (o: Outcome<bool>)
      requires Valid()
      modifies this`output
      ensures Valid()
      ensures length == 0 ==> o == Raised(ValueError) && output == old(output)
      ensures length != 0 ==>
        var r := ReadResult(lines, linePointer, charPointer, length);
        o == Returned(r.Some?) && output == if r.Some? then r.value else []
    {
      if length == 0 {
        return Raised(ValueError);
      }
      var result: string;
      var ok: bool;
      if length > 0 {
        result, ok := ReadForward(length);
      } else {
        result, ok := ReadBackward(-length);
      }
      assert ReadResult(lines, linePointer, charPointer, length) == if ok then Some(result) else None;
      output := if ok then result else [];
      o := Returned(ok);
    }

    /** `read(length)` with the backward misordering corrected: the result is always the text in buffer order. */
    method ReadInOrder(length: int) returns (o: Outcome<bool>)
      requires Valid()
      modifies this`output
      ensures Valid()
      ensures length == 0 ==> o == Raised(ValueError) && output == old(output)
      ensures length != 0 ==>
        var r := InOrderResult(lines, linePointer, charPointer, length);
        o == Returned(r.Some?) && output == if r.Some? then r.value else []
    {
      if length == 0 {
        return Raised(ValueError);
      }
      var result: string;
      var ok: bool;
      if length > 0 {
        result, ok := ReadForward(length);
      } else {
        result, ok := ReadBackwardPrepending(-length);
      }
      assert InOrderResult(lines, linePointer, charPointer, length) == if ok then Some(result) else None;
      output := if ok then result else [];
      o := Returned(ok);
    }

    /** The forward loop of `read`: whole rests of lines, then the part of the last line needed. */
    method ReadForward(length: int) returns (result: string, ok: bool)
      requires Valid() && length > 0
      ensures var f := Flat(lines, linePointer, charPointer);
        ok == (f + length <= |Joined(lines)|) && (ok ==> result == Joined(lines)[f..f + length])
    {
      var ll, lc, rest := linePointer, charPointer, length;
      result := [];
      ForwardStart(lines, linePointer, charPointer, length);
      while ll < |lines| && rest > 0
        invariant ForwardInv(lines, linePointer, charPointer, length, ll, lc, rest, result)
        decreases |lines| - ll, rest
      {
        ll, lc, rest, result := ReadForwardStep(length, ll, lc, rest, result);
      }
      ForwardDone(lines, linePointer, charPointer, length, ll, lc, rest, result);
      ok := rest == 0;
    }

    /** One turn of the forward loop of `read`: the rest of line ll, or the part of it still needed. */
    method ReadForwardStep(length: int, ll: int, lc: int, rest: int, result: string)
      returns (ll': int, lc': int, rest': int, result': string)
      requires Valid() && length > 0
      requires ForwardInv(lines, linePointer, charPointer, length, ll, lc, rest, result)
      requires ll < |lines| && rest > 0
      ensures ForwardInv(lines, linePointer, charPointer, length, ll', lc', rest', result')
      ensures ll < ll' || (ll == ll' && rest' < rest)
    {
      if rest > |Line(lines, ll)| - lc {
        ForwardLeave(lines, linePointer, charPointer, length, ll, lc, rest, result);
        ll', lc', rest', result' := ll + 1, 0, rest - (|Line(lines, ll)| - lc), result + Slice(Line(lines, ll), lc, |Line(lines, ll)|);
      } else {
        ForwardFinish(lines, linePointer, charPointer, length, ll, lc, rest, result);
        ll', lc', rest', result' := ll, lc + rest, 0, result + Slice(Line(lines, ll), lc, lc + rest);
      }
    }

    /** The backward loop of `read`: it APPENDS each piece it takes from a line it leaves. */
    method ReadBackward(m: int) returns (result: string, ok: bool)
      requires Valid() && m > 0
      ensures var f := Flat(lines, linePointer, charPointer);
        ok == (linePointer >= 0 && Flat(lines, 0, 0) <= f + 1 - m) &&
        (ok ==> result == BackwardAsWritten(lines, linePointer, charPointer, m))
    {
      var ll, lc, rest := linePointer, charPointer, m;
      result := [];
      BackwardStart(lines, linePointer, charPointer, m);
      while ll >= 0 && rest > 0
        invariant BackwardInv(lines, linePointer, charPointer, m, ll, lc, rest, result)
        decreases ll + 1
      {
        if rest > lc {
          BackwardLeave(lines, linePointer, charPointer, m, ll, lc, rest, result);
          rest := rest - (lc + 1);
          result := result + Slice(Line(lines, ll), 0, lc + 1);
          ll := ll - 1;
          lc := |Line(lines, ll)| - 1;
        } else {
          BackwardFinish(lines, linePointer, charPointer, m, ll, lc, rest, result);
          result := Slice(Line(lines, ll), lc - rest + 1, lc + 1) + result;
          lc := lc - rest;
          rest := 0;
          return result, true;
        }
      }
      BackwardDone(lines, linePointer, charPointer, m, ll, lc, rest, result);
      ok := rest == 0;
    }

    /**
     * The backward read as evidently intended: each whole line left behind
     * is prepended rather than appended, so the result is the m characters
     * ending at the pointer, in buffer order.
     */
    method ReadBackwardPrepending(m: int) returns (result: string, ok: bool)
      requires Valid() && m > 0
      ensures var f := Flat(lines, linePointer, charPointer);
        ok == (linePointer >= 0 && Flat(lines, 0, 0) <= f + 1 - m) &&
        (ok ==> 0 <= f + 1 - m <= f + 1 <= |Joined(lines)| && result == Joined(lines)[f + 1 - m..f + 1])
    {
      var ll, lc, rest := linePointer, charPointer, m;
      result := [];
      PrependStart(lines, linePointer, charPointer, m);
      while ll >= 0 && rest > 0
        invariant PrependInv(lines, linePointer, charPointer, m, ll, lc, rest, result)
        decreases ll + 1
      {
        if rest > lc {
          ll, lc, rest, result := ReadBackwardPrependingStep(m, ll, lc, rest, result);
        } else {
          PrependFinish(lines, linePointer, charPointer, m, ll, lc, rest, result);
          result := Slice(Line(lines, ll), lc - rest + 1, lc + 1) + result;
          return result, true;
        }
      }
      PrependDone(lines, linePointer, charPointer, m, ll, lc, rest, result);
      ok := rest == 0;
    }

    /** One whole line (or the head of the current line) left behind by the prepending read. */
    method ReadBackwardPrependingStep(m: int, ll: int, lc: int, rest: int, result: string)
      returns (ll': int, lc': int, rest': int, result': string)
      requires Valid() && m > 0
      requires PrependInv(lines, linePointer, charPointer, m, ll, lc, rest, result)
      requires ll >= 0 && rest > lc
      ensures PrependInv(lines, linePointer, charPointer, m, ll', lc', rest', result')
      ensures ll' == ll - 1
    {
      PrependLeave(lines, linePointer, charPointer, m, ll, lc, rest, result);
      ll', lc', rest', result' := ll - 1, |Line(lines, ll - 1)| - 1, rest - (lc + 1), Slice(Line(lines, ll), 0, lc + 1) + result;
    }
  }

  /** The state of the forward loop of `read(length)` from (line, col): `rest` characters
      still to take, and `result` the text between the start and the walk's position. */
  ghost predicate ForwardInv(lines: seq<string>, line: int, col: int, length: int, ll: int, lc: int, rest: int, result: string)
    requires WellFormed(lines) && lines != [] && InLine(lines, line, col)
  {
    line <= ll <= |lines| && rest >= 0 &&
    (ll < |lines| ==> 0 <= lc <= |Line(lines, ll)|) &&
    (ll == |lines| ==> lc == 0 && rest > 0) &&
    Flat(lines, ll, lc) + rest == Flat(lines, line, col) + length &&
    Flat(lines, line, col) <= Flat(lines, ll, lc) <= |Joined(lines)| &&
    result == Joined(lines)[Flat(lines, line, col)..Flat(lines, ll, lc)]
  }

  lemma ForwardStart(lines: seq<string>, line: int, col: int, length: int)
    requires WellFormed(lines) && lines != [] && InLine(lines, line, col) && length > 0
    ensures ForwardInv(lines, line, col, length, line, col, length, [])
  {
    FlatBound(lines, line, col);
  }

  lemma ForwardLeave(lines: seq<string>, line: int, col: int, length: int, ll: int, lc: int, rest: int, result: string)
    requires WellFormed(lines) && lines != [] && InLine(lines, line, col)
    requires ForwardInv(lines, line, col, length, ll, lc, rest, result)
    requires ll < |lines| && rest > |Line(lines, ll)| - lc
    ensures ForwardInv(lines, line, col, length, ll + 1, 0, rest - (|Line(lines, ll)| - lc),
      result + Slice(Line(lines, ll), lc, |Line(lines, ll)|))
  {
    FlatLineEnd(lines, ll);
    FlatSlice(lines, ll, lc, |Line(lines, ll)|);
  }

  lemma ForwardFinish(lines: seq<string>, line: int, col: int, length: int, ll: int, lc: int, rest: int, result: string)
    requires WellFormed(lines) && lines != [] && InLine(lines, line, col)
    requires ForwardInv(lines, line, col, length, ll, lc, rest, result)
    requires ll < |lines| && 0 < rest <= |Line(lines, ll)| - lc
    ensures ForwardInv(lines, line, col, length, ll, lc + rest, 0, result + Slice(Line(lines, ll), lc, lc + rest))
  {
    FlatSlice(lines, ll, lc, lc + rest);
  }

  lemma ForwardDone(lines: seq<string>, line: int, col: int, length: int, ll: int, lc: int, rest: int, result: string)
    requires WellFormed(lines) && lines != [] && InLine(lines, line, col)
    requires ForwardInv(lines, line, col, length, ll, lc, rest, result)
    requires !(ll < |lines| && rest > 0)
    ensures var f := Flat(lines, line, col);
      (rest == 0) == (f + length <= |Joined(lines)|) && (rest == 0 ==> result == Joined(lines)[f..f + length])
  {
    FlatLineEnd(lines, -1);
  }

  /** The state of the backward loop of `read(-m)` from (line, col) while it walks: `rest`
      characters still to take before the walk's position, `result` what it has appended so far. */
  ghost predicate BackwardInv(lines: seq<string>, line: int, col: int, m: int, ll: int, lc: int, rest: int, result: string)
    requires WellFormed(lines) && lines != [] && InLine(lines, line, col) && m > 0
  {
    -1 <= ll <= line && rest >= 0 && 0 <= lc < |Line(lines, ll)| &&
    (line < 0 ==> ll == line && lc == col && rest == m && result == []) &&
    Flat(lines, ll, lc) + 1 - rest == Flat(lines, line, col) + 1 - m &&
    (ll < line ==> lc == |Line(lines, ll)| - 1) &&
    (ll == line ==> lc == col) &&
    (line >= 0 ==> result == Appended(lines, line, col, ll))
  }

  lemma BackwardStart(lines: seq<string>, line: int, col: int, m: int)
    requires WellFormed(lines) && lines != [] && InLine(lines, line, col) && m > 0
    ensures BackwardInv(lines, line, col, m, line, col, m, [])
  {
  }

  lemma BackwardLeave(lines: seq<string>, line: int, col: int, m: int, ll: int, lc: int, rest: int, result: string)
    requires WellFormed(lines) && lines != [] && InLine(lines, line, col) && m > 0
    requires BackwardInv(lines, line, col, m, ll, lc, rest, result)
    requires ll >= 0 && rest > lc
    ensures BackwardInv(lines, line, col, m, ll - 1, |Line(lines, ll - 1)| - 1, rest - (lc + 1),
      result + Slice(Line(lines, ll), 0, lc + 1))
  {
    FlatLineEnd(lines, ll - 1);
    assert Slice(Line(lines, ll), 0, lc + 1) == if ll == line then lines[ll][..lc + 1] else lines[ll];
  }

  /** The last step of a backward read, inside line ll: prepending the piece completes the result. */
  lemma BackwardFinish(lines: seq<string>, line: int, col: int, m: int, ll: int, lc: int, rest: int, result: string)
    requires WellFormed(lines) && lines != [] && InLine(lines, line, col) && m > 0
    requires BackwardInv(lines, line, col, m, ll, lc, rest, result)
    requires ll >= 0 && 0 < rest <= lc
    ensures line >= 0 && Flat(lines, 0, 0) <= Flat(lines, line, col) + 1 - m
    ensures Slice(Line(lines, ll), lc - rest + 1, lc + 1) + result == BackwardAsWritten(lines, line, col, m)
  {
    if ll == line {
      assert lc == col && rest == m && result == [];
      assert Slice(Line(lines, ll), lc - rest + 1, lc + 1) == Slice(Line(lines, line), col - m + 1, col + 1);
      FinishOnLine(lines, line, col, m);
    } else {
      assert lc == |lines[ll]| - 1 && result == Appended(lines, line, col, ll);
      assert Slice(Line(lines, ll), lc - rest + 1, lc + 1) == Slice(Line(lines, ll), |lines[ll]| - rest, |lines[ll]|);
      FinishEarlier(lines, line, col, m, ll, rest);
    }
  }

  lemma FinishOnLine(lines: seq<string>, line: int, col: int, m: int)
    requires WellFormed(lines) && lines != [] && 0 <= line < |lines| && 0 <= col < |lines[line]|
    requires 0 < m <= col
    ensures Flat(lines, 0, 0) <= Flat(lines, line, col) + 1 - m
    ensures Slice(Line(lines, line), col - m + 1, col + 1) + [] == BackwardAsWritten(lines, line, col, m)
  {
    BackwardWithinLine(lines, line, col, m);
  }

  lemma FinishEarlier(lines: seq<string>, line: int, col: int, m: int, ll: int, rest: int)
    requires WellFormed(lines) && lines != [] && 0 <= line < |lines| && 0 <= col < |lines[line]| && m > 0
    requires 0 <= ll < line && 0 < rest < |lines[ll]|
    requires Flat(lines, ll, |lines[ll]| - 1) + 1 - rest == Flat(lines, line, col) + 1 - m
    ensures Flat(lines, 0, 0) <= Flat(lines, line, col) + 1 - m
    ensures Slice(Line(lines, ll), |lines[ll]| - rest, |lines[ll]|) + Appended(lines, line, col, ll)
         == BackwardAsWritten(lines, line, col, m)
  {
    BackwardInsideLine(lines, line, col, m, ll, |lines[ll]| - rest);
  }

  /** Where the walk stops without finishing inside a line: at a line start, or off the first line. */
  lemma BackwardDone(lines: seq<string>, line: int, col: int, m: int, ll: int, lc: int, rest: int, result: string)
    requires WellFormed(lines) && lines != [] && InLine(lines, line, col) && m > 0
    requires BackwardInv(lines, line, col, m, ll, lc, rest, result)
    requires !(ll >= 0 && rest > 0)
    ensures (rest == 0) == (line >= 0 && Flat(lines, 0, 0) <= Flat(lines, line, col) + 1 - m)
    ensures rest == 0 ==> result == BackwardAsWritten(lines, line, col, m)
  {
    FlatLineEnd(lines, ll);
    if rest == 0 {
      assert ll < line && lc == |Line(lines, ll)| - 1;
      assert Flat(lines, ll + 1, 0) == Flat(lines, line, col) + 1 - m;
      BackwardFromLineStart(lines, line, col, m, ll + 1);
    } else if line >= 0 {
      assert ll == -1 && lc == |Line(lines, -1)| - 1;
      assert Flat(lines, line, col) + 1 - m == Flat(lines, 0, 0) - rest;
    }
  }

  lemma BackwardFromLineStart(lines: seq<string>, line: int, col: int, m: int, l: int)
    requires WellFormed(lines) && lines != [] && 0 <= line < |lines| && 0 <= col < |lines[line]| && m > 0
    requires 0 <= l <= line && Flat(lines, line, col) + 1 - m == Flat(lines, l, 0)
    ensures Flat(lines, 0, 0) <= Flat(lines, line, col) + 1 - m
    ensures Appended(lines, line, col, l - 1) == BackwardAsWritten(lines, line, col, m)
  {
    FlatMonotone(lines, 0, l);
    FlatMonotone(lines, l, line);
    if l > 0 {
      FlatLineEnd(lines, l - 1);
    }
    BackwardAcross(lines, line, col, m, l);
  }

  /** A backward read that ends inside line l, after its start, once lines l+1.. are appended. */
  lemma BackwardInsideLine(lines: seq<string>, line: int, col: int, m: int, l: int, a: int)
    requires WellFormed(lines) && lines != [] && 0 <= line < |lines| && 0 <= col < |lines[line]| && m > 0
    requires 0 <= l < line && 0 < a < |lines[l]| && Flat(lines, line, col) + 1 - m == Flat(lines, l, a)
    ensures Flat(lines, 0, 0) <= Flat(lines, line, col) + 1 - m
    ensures lines[l][a..] + Appended(lines, line, col, l) == BackwardAsWritten(lines, line, col, m)
  {
    TailOfLine(lines, l, a, line);
    BackwardAcross(lines, line, col, m, l + 1);
  }

  /** Where the tail of line l from column a > 0 sits in the joined text. */
  lemma TailOfLine(lines: seq<string>, l: int, a: int, line: int)
    requires WellFormed(lines) && lines != [] && 0 <= l < line < |lines| && 0 < a < |lines[l]|
    ensures Flat(lines, 0, 0) <= Flat(lines, l, a)
    ensures Flat(lines, l, 0) < Flat(lines, l, a) < Flat(lines, l + 1, 0) <= Flat(lines, line, 0) <= |Joined(lines)|
    ensures Joined(lines)[Flat(lines, l, a)..Flat(lines, l + 1, 0)] == lines[l][a..]
  {
    FlatMonotone(lines, 0, l);
    FlatLineEnd(lines, l);
    FlatMonotone(lines, l + 1, line);
    FlatLineEnd(lines, line);
    FlatSlice(lines, l, a, |lines[l]|);
  }

  /** BackwardAsWritten for a read reaching back to or past the start of the current line,
      with j the first line starting at or after the read's start. */
  lemma BackwardAcross(lines: seq<string>, line: int, col: int, m: int, j: int)
    requires WellFormed(lines) && lines != [] && 0 <= line < |lines| && 0 <= col < |lines[line]| && m > 0
    requires Flat(lines, 0, 0) <= Flat(lines, line, col) + 1 - m <= Flat(lines, line, 0)
    requires 0 <= j <= line && Flat(lines, line, col) + 1 - m <= Flat(lines, j, 0)
    requires j == 0 || Flat(lines, j - 1, 0) < Flat(lines, line, col) + 1 - m
    ensures Flat(lines, j, 0) <= |Joined(lines)|
    ensures BackwardAsWritten(lines, line, col, m)
         == Joined(lines)[Flat(lines, line, col) + 1 - m..Flat(lines, j, 0)] + Appended(lines, line, col, j - 1)
  {
    var start := Flat(lines, line, col) + 1 - m;
    assert FirstLineFrom(lines, start, 0, line) == j by {
      FirstLineUnique(lines, start, j, FirstLineFrom(lines, start, 0, line));
    }
    BackwardAcrossFirst(lines, line, col, m, j);
  }

  lemma BackwardAcrossFirst(lines: seq<string>, line: int, col: int, m: int, first: int)
    requires WellFormed(lines) && lines != [] && 0 <= line < |lines| && 0 <= col < |lines[line]| && m > 0
    requires Flat(lines, 0, 0) <= Flat(lines, line, col) + 1 - m <= Flat(lines, line, 0)
    requires first == FirstLineFrom(lines, Flat(lines, line, col) + 1 - m, 0, line)
    ensures Flat(lines, first, 0) <= |Joined(lines)|
    ensures BackwardAsWritten(lines, line, col, m)
         == Joined(lines)[Flat(lines, line, col) + 1 - m..Flat(lines, first, 0)] + Appended(lines, line, col, first - 1)
  {
    assert Flat(lines, first, 0) <= |Joined(lines)| by {
      FlatMonotone(lines, first, line);
      FlatBound(lines, line, col);
    }
  }

  /** A backward read within the current line is the plain slice. */
  lemma BackwardWithinLine(lines: seq<string>, line: int, col: int, m: int)
    requires WellFormed(lines) && lines != [] && 0 <= line < |lines| && 0 <= col < |lines[line]|
    requires 0 < m <= col
    ensures Flat(lines, 0, 0) <= Flat(lines, line, col) + 1 - m
    ensures lines[line][col + 1 - m..col + 1] == BackwardAsWritten(lines, line, col, m)
  {
    FlatMonotone(lines, 0, line);
    FlatSlice(lines, line, col + 1 - m, col + 1);
  }

  /** The state of the prepending backward loop: `result` is the text after the walk's position up to the pointer. */
  ghost predicate PrependInv(lines: seq<string>, line: int, col: int, m: int, ll: int, lc: int, rest: int, result: string)
    requires WellFormed(lines) && lines != [] && InLine(lines, line, col) && m > 0
  {
    -1 <= ll <= line && rest >= 0 && 0 <= lc < |Line(lines, ll)| &&
    (line < 0 ==> ll == line && rest == m && result == []) &&
    Flat(lines, ll, lc) + 1 - rest == Flat(lines, line, col) + 1 - m &&
    (ll < line ==> lc == |Line(lines, ll)| - 1) &&
    (ll == line ==> lc == col) &&
    (line >= 0 ==>
      0 <= Flat(lines, ll, lc) + 1 <= Flat(lines, line, col) + 1 <= |Joined(lines)| &&
      result == Joined(lines)[Flat(lines, ll, lc) + 1..Flat(lines, line, col) + 1])
  }

  lemma PrependStart(lines: seq<string>, line: int, col: int, m: int)
    requires WellFormed(lines) && lines != [] && InLine(lines, line, col) && m > 0
    ensures PrependInv(lines, line, col, m, line, col, m, [])
  {
    FlatChar(lines, line, col);
  }

  lemma PrependLeave(lines: seq<string>, line: int, col: int, m: int, ll: int, lc: int, rest: int, result: string)
    requires WellFormed(lines) && lines != [] && InLine(lines, line, col) && m > 0
    requires PrependInv(lines, line, col, m, ll, lc, rest, result)
    requires ll >= 0 && rest > lc
    ensures PrependInv(lines, line, col, m, ll - 1, |Line(lines, ll - 1)| - 1, rest - (lc + 1),
      Slice(Line(lines, ll), 0, lc + 1) + result)
  {
    FlatLineEnd(lines, ll - 1);
    PrependPiece(lines, ll, 0, lc, Flat(lines, line, col), result);
  }

  /** Prepending columns lo..lc of line ll extends the text back to column lo. */
  lemma PrependPiece(lines: seq<string>, ll: int, lo: int, lc: int, f: int, result: string)
    requires lines != [] && 0 <= ll < |lines| && 0 <= lo <= lc < |lines[ll]|
    requires Flat(lines, ll, lc) + 1 <= f + 1 <= |Joined(lines)|
    requires result == Joined(lines)[Flat(lines, ll, lc) + 1..f + 1]
    ensures 0 <= Flat(lines, ll, lo) && Slice(Line(lines, ll), lo, lc + 1) + result == Joined(lines)[Flat(lines, ll, lo)..f + 1]
  {
    var j := Joined(lines);
    var a, b := Flat(lines, ll, lo), Flat(lines, ll, lc + 1);
    assert 0 <= a <= b && j[a..b] == Slice(Line(lines, ll), lo, lc + 1) by {
      FlatSlice(lines, ll, lo, lc + 1);
    }
    PieceJoin(j, a, b, f + 1, Slice(Line(lines, ll), lo, lc + 1), result);
  }

  lemma PrependFinish(lines: seq<string>, line: int, col: int, m: int, ll: int, lc: int, rest: int, result: string)
    requires WellFormed(lines) && lines != [] && InLine(lines, line, col) && m > 0
    requires PrependInv(lines, line, col, m, ll, lc, rest, result)
    requires ll >= 0 && 0 < rest <= lc
    ensures var start, f := Flat(lines, line, col) + 1 - m, Flat(lines, line, col);
      line >= 0 && Flat(lines, 0, 0) <= start && 0 <= start <= f + 1 <= |Joined(lines)| &&
      Slice(Line(lines, ll), lc - rest + 1, lc + 1) + result == Joined(lines)[start..f + 1]
  {
    FlatMonotone(lines, 0, ll);
    PrependPiece(lines, ll, lc - rest + 1, lc, Flat(lines, line, col), result);
  }

  lemma PrependDone(lines: seq<string>, line: int, col: int, m: int, ll: int, lc: int, rest: int, result: string)
    requires WellFormed(lines) && lines != [] && InLine(lines, line, col) && m > 0
    requires PrependInv(lines, line, col, m, ll, lc, rest, result)
    requires !(ll >= 0 && rest > 0)
    ensures var start, f := Flat(lines, line, col) + 1 - m, Flat(lines, line, col);
      (rest == 0) == (line >= 0 && Flat(lines, 0, 0) <= start) &&
      (rest == 0 ==> 0 <= start <= f + 1 <= |Joined(lines)| && result == Joined(lines)[start..f + 1])
  {
    FlatLineEnd(lines, ll);
    if rest == 0 {
      assert ll < line && lc == |Line(lines, ll)| - 1;
      FlatMonotone(lines, 0, ll + 1);
    } else if line >= 0 {
      assert ll == -1 && lc == |Line(lines, -1)| - 1;
    }
  }

  /** Two adjacent slices of s, given by name, make up the slice spanning both. */
  lemma PieceJoin(s: string, a: nat, b: nat, c: nat, x: string, y: string)
    requires a <= b <= c <= |s| && x == s[a..b] && y == s[b..c]
    ensures x + y == s[a..c]
  {
    assert s[a..c] == s[a..b] + s[b..c];
  }

  /**
   * The misordering, on lines "a\n" and "bc" with the pointer on 'b'
   * (line 1, column 0): read(-3) succeeds with the current line's piece
   * first, "ba\n", while the 3 characters ending there, in buffer order,
   * are "a\nb".
   */
  lemma BackwardMisorder()
    ensures var lines := ["a\n", "bc"];
      WellFormed(lines) && InLine(lines, 1, 0) && |Joined(lines)| == 6 &&
      ReadResult(lines, 1, 0, -3) == Some("ba\n") &&
      Flat(lines, 1, 0) + 1 - 3 == 2 && Flat(lines, 1, 0) + 1 == 5 &&
      Joined(lines)[2..5] == "a\nb"
  {
    var lines := ["a\n", "bc"];
    SampleTable();
    assert BackwardAsWritten(lines, 1, 0, 3) == "ba\n" by {
      assert FirstLineFrom(lines, 2, 0, 1) == 0;
      assert Appended(lines, 1, 0, -1) == "ba\n";
      assert Slice(Joined(lines), 2, 2) == [];
    }
  }

  /**
   * A worked example on "123456789\nabcdefghij" at (1, 4): read(-10)
   * yields "6789\nabcde", the ten characters ending at the pointer, in
   * buffer order (the read ends inside the line above, so the misordering
   * does not show).
   */
  lemma ReadBackTenAcrossLine()
    ensures var lines := ["123456789\n", "abcdefghij"];
      WellFormed(lines) && InLine(lines, 1, 4) && ReadResult(lines, 1, 4, -10) == Some("6789\nabcde")
  {
    var lines := ["123456789\n", "abcdefghij"];
    assert Flat(lines, 0, 0) == 10 && Flat(lines, 1, 0) == 20;
    ReadAgreesShortOfWholeLine(lines, 1, 4, -10);
    FlatSlice(lines, 0, 5, 10);
    FlatSlice(lines, 1, 0, 5);
    assert lines[0][5..10] == "6789\n" && lines[1][0..5] == "abcde";
    PieceJoin(Joined(lines), 15, 20, 25, "6789\n", "abcde");
    assert "6789\n" + "abcde" == "6789\nabcde";
    assert InOrderResult(lines, 1, 4, -10) == Some(Joined(lines)[15..25]);
  }

  lemma SampleTable()
    ensures var lines := ["a\n", "bc"];
      WellFormed(lines) && Flat(lines, 0, 0) == 2 && Flat(lines, 1, 0) == 4 && Joined(lines) == "bca\nbc"
  {
    var lines := ["a\n", "bc"];
    var e := Ext(lines);
    assert e == ["bc", "a\n", "bc"];
    assert e[..2][..1] == e[..1] && e[..1][..0] == [];
    assert Concat(e[..1]) == "bc";
    assert Concat(e[..2]) == "bca\n";
  }
}
