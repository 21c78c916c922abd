/**
 * The position resolver shared by both cursors: the forward/backward walk
 * of `__get_positions` (src/bufferreader.py) and of `move`
 * (src/buffer_reader.py), proved equal to a specification stated over flat
 * indices of the joined (extended) text.
 */
module Resolver {
  import opened Outcomes
  import opened LineTable

  datatype Pos = Pos(line: int, col: int)

  /** Where a forward walk can land: 1 <= col <= |line|, so "one past the line" is possible. */
  ghost predicate ForwardForm(lines: seq<string>, p: Pos)
  {
    lines != [] && -1 <= p.line < |lines| && 1 <= p.col <= |Line(lines, p.line)|
  }

  /** Where a backward walk can land: a character of the line. */
  ghost predicate BackwardForm(lines: seq<string>, p: Pos)
  {
    lines != [] && -1 <= p.line < |lines| && 0 <= p.col < |Line(lines, p.line)|
  }

  ghost function FlatOf(lines: seq<string>, p: Pos): int
    requires lines != [] && -1 <= p.line <= |lines|
  {
    Flat(lines, p.line, p.col)
  }

  /** The forward-form position of flat index t, searching from line l on. */
  ghost function ForwardFrom(lines: seq<string>, t: int, l: int): (p: Pos)
    requires WellFormed(lines) && lines != [] && -1 <= l < |lines|
    requires Flat(lines, l, 0) < t <= |Joined(lines)|
    ensures ForwardForm(lines, p) && FlatOf(lines, p) == t && l <= p.line
    decreases |lines| - l
  {
    FlatLineEnd(lines, l);
    if t <= Flat(lines, l, |Line(lines, l)|) then Pos(l, t - Flat(lines, l, 0))
    else ForwardFrom(lines, t, l + 1)
  }

  /** The backward-form position of flat index t, searching from line l on. */
  ghost function BackwardFrom(lines: seq<string>, t: int, l: int): (p: Pos)
    requires WellFormed(lines) && lines != [] && -1 <= l < |lines|
    requires Flat(lines, l, 0) <= t < |Joined(lines)|
    ensures BackwardForm(lines, p) && FlatOf(lines, p) == t && l <= p.line
    decreases |lines| - l
  {
    FlatLineEnd(lines, l);
    if t < Flat(lines, l, |Line(lines, l)|) then Pos(l, t - Flat(lines, l, 0))
    else BackwardFrom(lines, t, l + 1)
  }

  /** At most one forward-form position has a given flat index. */
  lemma ForwardFormUnique(lines: seq<string>, a: Pos, b: Pos)
    requires ForwardForm(lines, a) && ForwardForm(lines, b)
    requires FlatOf(lines, a) == FlatOf(lines, b)
    ensures a == b
  {
    if a.line < b.line {
      FlatLineEnd(lines, a.line);
      FlatMonotone(lines, a.line + 1, b.line);
    } else if b.line < a.line {
      FlatLineEnd(lines, b.line);
      FlatMonotone(lines, b.line + 1, a.line);
    }
  }

  /** At most one backward-form position has a given flat index. */
  lemma BackwardFormUnique(lines: seq<string>, a: Pos, b: Pos)
    requires BackwardForm(lines, a) && BackwardForm(lines, b)
    requires FlatOf(lines, a) == FlatOf(lines, b)
    ensures a == b
  {
    if a.line < b.line {
      FlatLineEnd(lines, a.line);
      FlatMonotone(lines, a.line + 1, b.line);
    } else if b.line < a.line {
      FlatLineEnd(lines, b.line);
      FlatMonotone(lines, b.line + 1, a.line);
    }
  }

  /**
   * What resolving `offset` from (line, col) yields, by flat index
   * t = Flat(line, col) + offset:
   *  - offset 0: the current position, even on an empty buffer;
   *  - empty buffer: None going forward; IndexError going backward (Python's
   *    `lines[-1]` on an empty list);
   *  - forward: None iff t is past the end of the text; otherwise the
   *    forward-form position of t (which is one past a line when t is the
   *    first character of the next line or the end of the text);
   *  - backward: None when starting on line -1 or when t is before
   *    Flat(-1, |last| - 1), the flat index just before line 0; otherwise the
   *    backward-form position of t, which is on line -1 when t is exactly that index.
   */
  ghost function Resolved(lines: seq<string>, line: int, col: int, offset: int): Outcome<Option<Pos>>
    requires WellFormed(lines) && Reachable(lines, line, col)
  {
    if offset == 0 then Returned(Some(Pos(line, col)))
    else if lines == [] then (if offset > 0 then Returned(None) else Raised(IndexError))
    else
      FlatBound(lines, line, col);
      FlatLineEnd(lines, -1);
      var t := Flat(lines, line, col) + offset;
      if offset > 0 then
        if t <= |Joined(lines)| then Returned(Some(ForwardFrom(lines, t, -1))) else Returned(None)
      else if line < 0 || t < Flat(lines, 0, 0) - 1 then Returned(None)
      else Returned(Some(BackwardFrom(lines, t, -1)))
  }

  /** `__get_positions` (and the walk inside `move`). */
  method Resolve(lines: seq<string>, line: int, col: int, offset: int) returns (r: Outcome<Option<Pos>>)
    requires WellFormed(lines) && Reachable(lines, line, col)
    ensures r == Resolved(lines, line, col, offset)
  {
    if offset == 0 {
      r := Returned(Some(Pos(line, col)));
    } else if offset > 0 {
      r := WalkForward(lines, line, col, offset);
    } else {
      r := WalkBackward(lines, line, col, offset);
    }
  }

  /** The forward loop: subtract what is left of each line until the rest fits in one. */
  method WalkForward(lines: seq<string>, line: int, col: int, offset: int) returns (r: Outcome<Option<Pos>>)
    requires WellFormed(lines) && Reachable(lines, line, col) && offset > 0
    ensures r == Resolved(lines, line, col, offset)
  {
    var ml, mc, rest := line, col, offset;
    while ml < |lines| && rest > 0
      invariant line <= ml <= |lines| && rest >= 0
      invariant ml < |lines| ==> 0 <= mc <= |Line(lines, ml)|
      invariant ml == |lines| ==> mc == 0 && rest > 0
      invariant rest == 0 ==> ml < |lines| && 1 <= mc
      invariant lines != [] ==> Flat(lines, ml, mc) + rest == Flat(lines, line, col) + offset
      decreases |lines| - ml, rest
    {
      var len := |Line(lines, ml)|;
      if rest > len - mc {
        FlatLineEnd(lines, ml);
        rest := rest - (len - mc);
        mc := 0;
        ml := ml + 1;
      } else {
        mc := mc + rest;
        rest := 0;
      }
    }
    if rest == 0 {
      ForwardLands(lines, line, col, offset, Pos(ml, mc));
      r := Returned(Some(Pos(ml, mc)));
    } else {
      if lines != [] {
        FlatLineEnd(lines, -1);
      }
      r := Returned(None);
    }
  }

  /**
   * The forward loop as evidently intended: with `>=` in place of the `>`
   * at src/bufferreader.py:132, a rest that uses up exactly what is left of
   * a line moves on to the next line, so the walk lands on the character
   * `offset` ahead and never one past a line. Running off the end of the
   * text gives None.
   */
  method WalkForwardToChar(lines: seq<string>, line: int, col: int, offset: int) returns (r: Option<Pos>)
    requires WellFormed(lines) && Reachable(lines, line, col) && offset > 0
    ensures r.Some? <==> lines != [] && Flat(lines, line, col) + offset < |Joined(lines)|
    ensures r.Some? ==>
      lines != [] && InLine(lines, r.value.line, r.value.col) &&
      FlatOf(lines, r.value) == Flat(lines, line, col) + offset
  {
    var ml, mc, rest := line, col, offset;
    while ml < |lines| && rest > 0
      invariant line <= ml <= |lines| && rest >= 0
      invariant ml < |lines| ==> 0 <= mc <= |Line(lines, ml)|
      invariant ml == |lines| ==> mc == 0
      invariant rest == 0 && ml < |lines| ==> mc < |Line(lines, ml)|
      invariant lines != [] ==> Flat(lines, ml, mc) + rest == Flat(lines, line, col) + offset
      decreases |lines| - ml, rest
    {
      var len := |Line(lines, ml)|;
      if rest >= len - mc {
        FlatLineEnd(lines, ml);
        rest := rest - (len - mc);
        mc := 0;
        ml := ml + 1;
      } else {
        mc := mc + rest;
        rest := 0;
      }
    }
    if lines != [] {
      FlatLineEnd(lines, -1);
    }
    if rest == 0 && ml < |lines| {
      FlatLineEnd(lines, ml);
      FlatMonotone(lines, ml + 1, |lines|);
      r := Some(Pos(ml, mc));
    } else {
      r := None;
    }
  }

  /** A forward-form position `offset` characters ahead is what Resolved names. */
  lemma ForwardLands(lines: seq<string>, line: int, col: int, offset: int, p: Pos)
    requires WellFormed(lines) && Reachable(lines, line, col) && offset > 0
    requires ForwardForm(lines, p) && FlatOf(lines, p) == Flat(lines, line, col) + offset
    ensures Resolved(lines, line, col, offset) == Returned(Some(p))
  {
    FlatBound(lines, p.line, p.col);
    ForwardFormUnique(lines, p, ForwardFrom(lines, Flat(lines, line, col) + offset, -1));
  }

  /** The backward loop: subtract the characters up to and including the pointer on each line. */
  method WalkBackward(lines: seq<string>, line: int, col: int, offset: int) returns (r: Outcome<Option<Pos>>)
    requires WellFormed(lines) && Reachable(lines, line, col) && offset < 0
    ensures r == Resolved(lines, line, col, offset)
  {
    var ml, mc, rest := line, col, -offset;
    while ml >= 0 && rest > 0
      invariant -1 <= ml <= line && rest >= 0
      invariant lines == [] ==> ml == 0 && mc == 0
      invariant lines != [] ==> 0 <= mc <= |Line(lines, ml)|
      invariant ml < line && rest > 0 ==> lines != [] && mc == |Line(lines, ml)| - 1
      invariant line < 0 ==> rest > 0
      invariant ml == -1 && line >= 0 ==> lines != [] && mc == |Line(lines, -1)| - 1
      invariant rest == 0 ==> lines != [] && mc < |Line(lines, ml)|
      invariant lines != [] ==> Flat(lines, ml, mc) - rest == Flat(lines, line, col) + offset
      decreases ml + 1, rest
    {
      if rest > mc {
        rest := rest - (mc + 1);
        ml := ml - 1;
        match Get(lines, ml) {
          case None =>
            return Raised(IndexError);
          case Some(previous) =>
            FlatLineEnd(lines, ml);
            mc := |previous| - 1;
        }
      } else {
        mc := mc - rest;
        rest := 0;
      }
    }
    if rest == 0 {
      FlatLineEnd(lines, -1);
      if ml >= 0 {
        FlatMonotone(lines, 0, ml);
      }
      FlatBound(lines, line, col);
      BackwardFormUnique(lines, Pos(ml, mc), BackwardFrom(lines, Flat(lines, line, col) + offset, -1));
      r := Returned(Some(Pos(ml, mc)));
    } else {
      if lines != [] {
        FlatLineEnd(lines, -1);
      }
      r := Returned(None);
    }
  }

  /**
   * What the resolver promises: a result exists exactly when the target
   * flat index t is within reach (forward: not past the end of the text;
   * backward: from a line >= 0 and not before the index just ahead of
   * line 0), and then the result lies exactly `offset` characters away.
   */
  lemma ResolvedMoves(lines: seq<string>, line: int, col: int, offset: int)
    requires WellFormed(lines) && Reachable(lines, line, col) && lines != []
    ensures Resolved(lines, line, col, offset).Returned?
    ensures Resolved(lines, line, col, offset).value.Some? <==>
      if offset >= 0 then Flat(lines, line, col) + offset <= |Joined(lines)|
      else line >= 0 && Flat(lines, line, col) + offset >= Flat(lines, 0, 0) - 1
    ensures Resolved(lines, line, col, offset).value.Some? ==>
      var p := Resolved(lines, line, col, offset).value.value;
      -1 <= p.line < |lines| && FlatOf(lines, p) == Flat(lines, line, col) + offset &&
      (offset > 0 ==> ForwardForm(lines, p)) && (offset < 0 ==> BackwardForm(lines, p))
  {
    FlatBound(lines, line, col);
  }

  /** A resolved position is again one the reader can hold. */
  lemma ResolvedReachable(lines: seq<string>, line: int, col: int, offset: int)
    requires WellFormed(lines) && Reachable(lines, line, col)
    ensures Resolved(lines, line, col, offset) == Returned(None)
         || Resolved(lines, line, col, offset) == Raised(IndexError)
         || (Resolved(lines, line, col, offset).Returned? &&
             var p := Resolved(lines, line, col, offset).value.value;
             Reachable(lines, p.line, p.col) && 0 <= p.col)
  {
    if lines != [] {
      ResolvedMoves(lines, line, col, offset);
    }
  }
}
