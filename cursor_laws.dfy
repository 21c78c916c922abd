/** What the canonical reader's `seek` and `read` promise, stated over flat indices. */
module CursorLaws {
  import opened Outcomes
  import opened LineTable
  import opened Resolver
  import opened Stream
  import opened Cursor

  /** Resolving `offset` from the reader's position gives a character of some line. */
  ghost predicate LandsInLine(lines: seq<string>, s: ReaderState, offset: int)
    requires Consistent(lines, s)
  {
    var r := Resolved(lines, s.line, s.col, offset);
    r.Returned? && r.value.Some? && InLine(lines, r.value.value.line, r.value.value.col)
  }

  /** Between two characters of the buffer, Extract is the inclusive slice of the joined text. */
  lemma ExtractBetween(lines: seq<string>, a: Pos, b: Pos)
    requires WellFormed(lines) && lines != []
    requires InLine(lines, a.line, a.col) && InLine(lines, b.line, b.col)
    requires FlatOf(lines, a) <= FlatOf(lines, b)
    ensures 0 <= FlatOf(lines, a) <= FlatOf(lines, b) < |Joined(lines)|
    ensures Extract(lines, a.line, a.col, b.line, b.col) == Joined(lines)[FlatOf(lines, a)..FlatOf(lines, b) + 1]
  {
    CharactersOrdered(lines, a, b);
    ExtractFrom(lines, a, b, FlatOf(lines, a), FlatOf(lines, b) + 1);
  }

  /** Two characters with the same flat index are the same position; neither is one past its line. */
  lemma CharactersOrdered(lines: seq<string>, a: Pos, b: Pos)
    requires WellFormed(lines) && lines != []
    requires InLine(lines, a.line, a.col) && InLine(lines, b.line, b.col)
    requires FlatOf(lines, a) <= FlatOf(lines, b)
    ensures FlatOf(lines, a) < FlatOf(lines, b) || a == b
    ensures PastLine(lines, a) == 0 && PastLine(lines, b) == 0
  {
    if FlatOf(lines, a) == FlatOf(lines, b) {
      BackwardFormUnique(lines, a, b);
    }
  }

  /** 1 when p is one past the end of its line, where only a forward walk can stop; otherwise 0. */
  function PastLine(lines: seq<string>, p: Pos): nat
  {
    if -|lines| <= p.line < |lines| && p.col == |Line(lines, p.line)| then 1 else 0
  }

  /** Positions ordered by flat index are ordered by line, then by column. */
  lemma PositionsOrdered(lines: seq<string>, a: Pos, b: Pos)
    requires WellFormed(lines) && lines != []
    requires Reachable(lines, a.line, a.col) && Reachable(lines, b.line, b.col)
    requires FlatOf(lines, a) < FlatOf(lines, b) || a == b
    ensures 0 <= FlatOf(lines, a)
    ensures a.line <= b.line && (a.line == b.line ==> a.col <= b.col)
  {
    FlatBound(lines, a.line, a.col);
    if a != b {
      FlatOrder(lines, a.line, a.col, b.line, b.col);
    }
  }

  /**
   * Between two ordered positions the reader can hold, Extract is a slice of
   * the joined text starting at a; an end b one past its line adds nothing.
   */
  lemma ExtractOrdered(lines: seq<string>, a: Pos, b: Pos)
    requires WellFormed(lines) && lines != []
    requires Reachable(lines, a.line, a.col) && Reachable(lines, b.line, b.col)
    requires FlatOf(lines, a) < FlatOf(lines, b) || a == b
    ensures Flat(lines, b.line, RangeEnd(lines, b.line, b.col)) == FlatOf(lines, b) + 1 - PastLine(lines, b)
    ensures 0 <= Flat(lines, a.line, a.col) <= Flat(lines, b.line, RangeEnd(lines, b.line, b.col)) <= |Joined(lines)|
    ensures Extract(lines, a.line, a.col, b.line, b.col)
         == Joined(lines)[Flat(lines, a.line, a.col)..Flat(lines, b.line, RangeEnd(lines, b.line, b.col))]
  {
    PositionsOrdered(lines, a, b);
    assert RangeEnd(lines, b.line, b.col) == b.col + 1 - PastLine(lines, b);
    ExtractIsSlice(lines, a.line, a.col, b.line, b.col);
  }

  /** The length of an ordered Extract: the flat distance, plus one for an end that is a character. */
  lemma ExtractLength(lines: seq<string>, a: Pos, b: Pos)
    requires WellFormed(lines) && lines != []
    requires Reachable(lines, a.line, a.col) && Reachable(lines, b.line, b.col)
    requires FlatOf(lines, a) < FlatOf(lines, b) || a == b
    ensures |Extract(lines, a.line, a.col, b.line, b.col)| == FlatOf(lines, b) + 1 - PastLine(lines, b) - FlatOf(lines, a)
  {
    ExtractOrdered(lines, a, b);
    assert FlatOf(lines, a) == Flat(lines, a.line, a.col);
  }

  /**
   * What a read from s between start <= end reports when its endpoints are
   * sp and ep: success, the cursor unmoved, the text from start to end
   * (less the last character when ep is one past its line) and the steps.
   */
  ghost predicate ReadsNear(lines: seq<string>, s: ReaderState, start: int, end: int, sp: Pos, ep: Pos, o: Outcome<bool>, t: ReaderState)
    requires Consistent(lines, s) && lines != []
  {
    var f := Flat(lines, s.line, s.col);
    0 <= f + start <= f + end + 1 - PastLine(lines, ep) <= |Joined(lines)| &&
    o == Returned(true) && t.line == s.line && t.col == s.col &&
    t.stream == Joined(lines)[f + start..f + end + 1 - PastLine(lines, ep)] &&
    (end < 0 ==> t.stepsBack == 1 - start && t.stepsForward == 1) &&
    (start > 0 ==> t.stepsForward == end + 1 - PastLine(lines, sp) - PastLine(lines, ep) && t.stepsBack == s.stepsBack) &&
    (start <= 0 <= end ==> t.stepsBack == 1 - start && t.stepsForward == end + 1)
  }

  /**
   * `read(start, end)` with start <= end from a character, whenever both
   * endpoints resolve. A positive offset can land one past a line (when the
   * character that far ahead is the first of the next line); then
   *  - the stream loses its last character when the end lands there;
   *  - for start > 0, stepsForward is end + 1 less one for each endpoint
   *    landing there, so read(1, 1) on the last character of a line gives
   *    the empty stream and stepsForward 0 (ReadOneAtLineEnd).
   */
  lemma ReadNearLineEnd(lines: seq<string>, s: ReaderState, start: int, end: int, sp: Pos, ep: Pos)
    requires Consistent(lines, s) && InLine(lines, s.line, s.col)
    requires start <= end && (start != 0 || end != 0)
    requires Resolved(lines, s.line, s.col, start) == Returned(Some(sp))
    requires Resolved(lines, s.line, s.col, end) == Returned(Some(ep))
    ensures lines != [] && Reachable(lines, sp.line, sp.col) && Reachable(lines, ep.line, ep.col)
    ensures ReadSpec(lines, s, start, end) == (Returned(true), Ranged(lines, s, start, end, sp, ep))
    ensures ReadsNear(lines, s, start, end, sp, ep, Returned(true), Ranged(lines, s, start, end, sp, ep))
  {
    ReadIsRanged(lines, s, start, end, sp, ep);
    RangedNear(lines, s, start, end, sp, ep);
  }

  /** A read between two resolved, ordered endpoints is the range between them. */
  lemma ReadIsRanged(lines: seq<string>, s: ReaderState, start: int, end: int, sp: Pos, ep: Pos)
    requires Consistent(lines, s)
    requires start <= end && (start != 0 || end != 0)
    requires Resolved(lines, s.line, s.col, start) == Returned(Some(sp))
    requires Resolved(lines, s.line, s.col, end) == Returned(Some(ep))
    ensures lines != []
    ensures Reachable(lines, sp.line, sp.col) && Reachable(lines, ep.line, ep.col)
    ensures FlatOf(lines, sp) == Flat(lines, s.line, s.col) + start
    ensures FlatOf(lines, ep) == Flat(lines, s.line, s.col) + end
    ensures end < 0 ==> InLine(lines, ep.line, ep.col)
    ensures ReadSpec(lines, s, start, end) == (Returned(true), Ranged(lines, s, start, end, sp, ep))
  {
    ResolvedReachable(lines, s.line, s.col, start);
    ResolvedReachable(lines, s.line, s.col, end);
    ResolvedMoves(lines, s.line, s.col, start);
    ResolvedMoves(lines, s.line, s.col, end);
  }

  /** The range between two endpoints that lie start and end characters from the cursor, either possibly one past its line. */
  lemma RangedNear(lines: seq<string>, s: ReaderState, lo: int, hi: int, sp: Pos, ep: Pos)
    requires Consistent(lines, s) && lines != [] && InLine(lines, s.line, s.col)
    requires lo <= hi && (lo < hi || sp == ep)
    requires Reachable(lines, sp.line, sp.col) && Reachable(lines, ep.line, ep.col)
    requires hi < 0 ==> InLine(lines, ep.line, ep.col)
    requires FlatOf(lines, sp) == Flat(lines, s.line, s.col) + lo
    requires FlatOf(lines, ep) == Flat(lines, s.line, s.col) + hi
    ensures ReadsNear(lines, s, lo, hi, sp, ep, Returned(true), Ranged(lines, s, lo, hi, sp, ep))
  {
    RangedNearStream(lines, s, lo, hi, sp, ep);
    if hi < 0 {
      RangedNearBefore(lines, s, lo, hi, sp, ep);
    }
    if lo > 0 {
      RangedNearAfter(lines, s, lo, hi, sp, ep);
    }
  }

  /** The stream of a read once both endpoints are resolved to sp and ep, either possibly one past its line. */
  lemma RangedNearStream(lines: seq<string>, s: ReaderState, lo: int, hi: int, sp: Pos, ep: Pos)
    requires Consistent(lines, s) && lines != []
    requires lo <= hi && (lo < hi || sp == ep)
    requires Reachable(lines, sp.line, sp.col) && Reachable(lines, ep.line, ep.col)
    requires FlatOf(lines, sp) == Flat(lines, s.line, s.col) + lo
    requires FlatOf(lines, ep) == Flat(lines, s.line, s.col) + hi
    ensures var f := Flat(lines, s.line, s.col);
      0 <= f + lo <= f + hi + 1 - PastLine(lines, ep) <= |Joined(lines)| &&
      Ranged(lines, s, lo, hi, sp, ep).stream == Joined(lines)[f + lo..f + hi + 1 - PastLine(lines, ep)]
  {
    RangedStream(lines, s, lo, hi, sp, ep);
    var f := Flat(lines, s.line, s.col);
    ExtractFrom(lines, sp, ep, f + lo, f + hi + 1 - PastLine(lines, ep));
  }

  /** The stream a range caches is the text extracted between its endpoints. */
  lemma RangedStream(lines: seq<string>, s: ReaderState, lo: int, hi: int, sp: Pos, ep: Pos)
    requires Consistent(lines, s) && lines != []
    requires Reachable(lines, sp.line, sp.col) && Reachable(lines, ep.line, ep.col)
    ensures Ranged(lines, s, lo, hi, sp, ep).stream == Extract(lines, sp.line, sp.col, ep.line, ep.col)
  {
  }

  /**
   * The text between two positions in flat order, the second possibly one
   * past its line: the joined text from x up to y, where x is the flat index
   * of sp and y that of ep, plus one unless ep is one past its line.
   */
  lemma ExtractFrom(lines: seq<string>, sp: Pos, ep: Pos, x: int, y: int)
    requires WellFormed(lines) && lines != []
    requires Reachable(lines, sp.line, sp.col) && Reachable(lines, ep.line, ep.col)
    requires FlatOf(lines, sp) < FlatOf(lines, ep) || sp == ep
    requires x == FlatOf(lines, sp) && y == FlatOf(lines, ep) + 1 - PastLine(lines, ep)
    ensures 0 <= x <= y <= |Joined(lines)|
    ensures Extract(lines, sp.line, sp.col, ep.line, ep.col) == Joined(lines)[x..y]
  {
    var a, b := Flat(lines, sp.line, sp.col), Flat(lines, ep.line, RangeEnd(lines, ep.line, ep.col));
    assert 0 <= a <= b <= |Joined(lines)| by {
      ExtractOrdered(lines, sp, ep);
    }
    assert Extract(lines, sp.line, sp.col, ep.line, ep.col) == Joined(lines)[a..b] by {
      ExtractOrdered(lines, sp, ep);
    }
    assert b == FlatOf(lines, ep) + 1 - PastLine(lines, ep) by {
      ExtractOrdered(lines, sp, ep);
    }
    assert a == x && b == y;
  }

  /** The steps back of a range behind the cursor; its end is a character, so nothing is dropped. */
  lemma RangedNearBefore(lines: seq<string>, s: ReaderState, lo: int, hi: int, sp: Pos, ep: Pos)
    requires Consistent(lines, s) && lines != [] && InLine(lines, s.line, s.col)
    requires lo <= hi < 0 && (lo < hi || sp == ep) && Reachable(lines, sp.line, sp.col) && InLine(lines, ep.line, ep.col)
    requires FlatOf(lines, sp) == Flat(lines, s.line, s.col) + lo
    requires FlatOf(lines, ep) == Flat(lines, s.line, s.col) + hi
    ensures Ranged(lines, s, lo, hi, sp, ep).stepsBack == 1 - lo
  {
    var cursor := Pos(s.line, s.col);
    assert PastLine(lines, ep) == 0 && PastLine(lines, cursor) == 0;
    ExtractLength(lines, sp, ep);
    ExtractLength(lines, ep, cursor);
  }

  /** The steps forward of a range ahead of the cursor, less one for each endpoint one past its line. */
  lemma RangedNearAfter(lines: seq<string>, s: ReaderState, lo: int, hi: int, sp: Pos, ep: Pos)
    requires Consistent(lines, s) && lines != [] && InLine(lines, s.line, s.col)
    requires 0 < lo <= hi && (lo < hi || sp == ep) && Reachable(lines, sp.line, sp.col) && Reachable(lines, ep.line, ep.col)
    requires FlatOf(lines, sp) == Flat(lines, s.line, s.col) + lo
    requires FlatOf(lines, ep) == Flat(lines, s.line, s.col) + hi
    ensures Ranged(lines, s, lo, hi, sp, ep).stepsForward == hi + 1 - PastLine(lines, sp) - PastLine(lines, ep)
  {
    var cursor := Pos(s.line, s.col);
    ExtractLength(lines, sp, ep);
    ExtractLength(lines, cursor, sp);
  }

  /**
   * The instance of ReadNearLineEnd on "ab\ncd" with the cursor on the '\n':
   * read(1, 1) succeeds with the empty stream and stepsForward 0, so a
   * following next() is seek(0) and does not move.
   */
  lemma ReadOneAtLineEnd()
    ensures var lines := ["ab\n", "cd"];
      var s := ReaderState(0, 2, "\n", 1, 1);
      Consistent(lines, s) &&
      ReadSpec(lines, s, 1, 1) == (Returned(true), s.(stream := "", stepsForward := 0))
  {
    var lines := ["ab\n", "cd"];
    var s := ReaderState(0, 2, "\n", 1, 1);
    assert Flat(lines, 0, 0) == 2;
    ForwardLands(lines, 0, 2, 1, Pos(0, 3));
    ReadNearLineEnd(lines, s, 1, 1, Pos(0, 3), Pos(0, 3));
  }

  /**
   * `read(start, end)` with start <= end, when the cursor and both endpoints
   * name characters: it succeeds, keeps the pointers, the stream is the
   * inclusive slice of the joined text from start to end characters away, and
   *  - end < 0:   stepsBack == 1 - start and stepsForward == 1;
   *  - start > 0: stepsForward == end + 1 and stepsBack is kept;
   *  - otherwise: stepsBack == 1 - start and stepsForward == end + 1.
   */
  lemma ReadInLine(lines: seq<string>, s: ReaderState, start: int, end: int)
    requires Consistent(lines, s) && InLine(lines, s.line, s.col)
    requires start <= end && (start != 0 || end != 0)
    requires LandsInLine(lines, s, start) && LandsInLine(lines, s, end)
    ensures ReadSpec(lines, s, start, end).0 == Returned(true)
    ensures lines != [] && ReadsInLine(lines, s, start, end, ReadSpec(lines, s, start, end).1)
  {
    var sp := Resolved(lines, s.line, s.col, start).value.value;
    var ep := Resolved(lines, s.line, s.col, end).value.value;
    ReadIsRanged(lines, s, start, end, sp, ep);
    RangedInLine(lines, s, start, end, sp, ep);
  }

  /** What a read from s between lo <= hi reports when both endpoints are characters. */
  ghost predicate ReadsInLine(lines: seq<string>, s: ReaderState, lo: int, hi: int, t: ReaderState)
    requires Consistent(lines, s) && lines != []
  {
    var f := Flat(lines, s.line, s.col);
    0 <= f + lo <= f + hi < |Joined(lines)| &&
    t.line == s.line && t.col == s.col &&
    t.stream == Joined(lines)[f + lo..f + hi + 1] &&
    (hi < 0 ==> t.stepsBack == 1 - lo && t.stepsForward == 1) &&
    (lo > 0 ==> t.stepsForward == hi + 1 && t.stepsBack == s.stepsBack) &&
    (lo <= 0 <= hi ==> t.stepsBack == 1 - lo && t.stepsForward == hi + 1)
  }

  /** With neither endpoint one past its line, ReadsNear is ReadsInLine. */
  lemma NearIsInLine(lines: seq<string>, s: ReaderState, lo: int, hi: int, sp: Pos, ep: Pos, t: ReaderState)
    requires Consistent(lines, s) && lines != [] && lo <= hi
    requires PastLine(lines, sp) == 0 && PastLine(lines, ep) == 0
    requires ReadsNear(lines, s, lo, hi, sp, ep, Returned(true), t)
    ensures ReadsInLine(lines, s, lo, hi, t)
  {
    var f := Flat(lines, s.line, s.col);
    assert f + hi + 1 - PastLine(lines, ep) == f + hi + 1;
    assert t.stream == Joined(lines)[f + lo..f + hi + 1];
  }

  /** ReadInLine once both endpoints are resolved to characters sp and ep. */
  lemma RangedInLine(lines: seq<string>, s: ReaderState, lo: int, hi: int, sp: Pos, ep: Pos)
    requires Consistent(lines, s) && lines != [] && InLine(lines, s.line, s.col)
    requires lo <= hi && InLine(lines, sp.line, sp.col) && InLine(lines, ep.line, ep.col)
    requires FlatOf(lines, sp) == Flat(lines, s.line, s.col) + lo
    requires FlatOf(lines, ep) == Flat(lines, s.line, s.col) + hi
    ensures ReadsInLine(lines, s, lo, hi, Ranged(lines, s, lo, hi, sp, ep))
  {
    assert PastLine(lines, sp) == 0 && PastLine(lines, ep) == 0;
    assert lo < hi || sp == ep by {
      if lo == hi {
        BackwardFormUnique(lines, sp, ep);
      }
    }
    RangedNear(lines, s, lo, hi, sp, ep);
    NearIsInLine(lines, s, lo, hi, sp, ep, Ranged(lines, s, lo, hi, sp, ep));
  }

  /** Steps of a range that ends before the cursor: the gap back to the cursor counts. */
  lemma RangedBefore(lines: seq<string>, s: ReaderState, lo: int, hi: int, sp: Pos, ep: Pos)
    requires Consistent(lines, s) && lines != [] && InLine(lines, s.line, s.col)
    requires lo <= hi < 0 && InLine(lines, sp.line, sp.col) && InLine(lines, ep.line, ep.col)
    requires FlatOf(lines, ep) == Flat(lines, s.line, s.col) + hi
    requires |Extract(lines, sp.line, sp.col, ep.line, ep.col)| == hi - lo + 1
    ensures Ranged(lines, s, lo, hi, sp, ep).stepsBack == 1 - lo
  {
    var cursor := Pos(s.line, s.col);
    assert PastLine(lines, cursor) == 0;
    ExtractLength(lines, ep, cursor);
  }

  /** Steps of a range that starts after the cursor: the gap from the cursor counts. */
  lemma RangedAfter(lines: seq<string>, s: ReaderState, lo: int, hi: int, sp: Pos, ep: Pos)
    requires Consistent(lines, s) && lines != [] && InLine(lines, s.line, s.col)
    requires 0 < lo <= hi && InLine(lines, sp.line, sp.col) && InLine(lines, ep.line, ep.col)
    requires FlatOf(lines, sp) == Flat(lines, s.line, s.col) + lo
    requires |Extract(lines, sp.line, sp.col, ep.line, ep.col)| == hi - lo + 1
    ensures Ranged(lines, s, lo, hi, sp, ep).stepsForward == hi + 1
  {
    assert PastLine(lines, sp) == 0;
    ExtractLength(lines, Pos(s.line, s.col), sp);
  }

  lemma ReversedTwice(x: string)
    ensures Reversed(Reversed(x)) == x
  {
    assert forall i :: 0 <= i < |x| ==> Reversed(Reversed(x))[i] == x[i];
  }

  /**
   * The reversal law: for a > b, read(a, b) behaves as read(b, a) with the
   * stream reversed; each stream is the reverse of the other.
   */
  lemma ReadReversal(lines: seq<string>, s: ReaderState, a: int, b: int)
    requires Consistent(lines, s) && a > b
    ensures ReadSpec(lines, s, a, b).0 == ReadSpec(lines, s, b, a).0
    ensures ReadSpec(lines, s, a, b).0 == Returned(true) ==>
      ReadSpec(lines, s, a, b).1 == ReadSpec(lines, s, b, a).1.(stream := Reversed(ReadSpec(lines, s, b, a).1.stream)) &&
      ReadSpec(lines, s, b, a).1.stream == Reversed(ReadSpec(lines, s, a, b).1.stream)
    ensures ReadSpec(lines, s, a, b).0 != Returned(true) ==> ReadSpec(lines, s, a, b).1 == ReadSpec(lines, s, b, a).1 == s
  {
    ReversedTwice(ReadSpec(lines, s, b, a).1.stream);
  }

  /** A successful seek moves exactly `steps` characters and caches the character it lands on. */
  lemma SeekMoves(lines: seq<string>, s: ReaderState, steps: int)
    requires Consistent(lines, s) && lines != []
    requires SeekSpec(lines, s, steps).0 == Returned(true)
    ensures var t := SeekSpec(lines, s, steps).1;
      Flat(lines, t.line, t.col) == Flat(lines, s.line, s.col) + steps &&
      0 <= Flat(lines, t.line, t.col) < |Joined(lines)| &&
      t.stream == [Joined(lines)[Flat(lines, t.line, t.col)]]
  {
    ResolvedMoves(lines, s.line, s.col, steps);
    var t := SeekSpec(lines, s, steps).1;
    FlatChar(lines, t.line, t.col);
  }

  /**
   * Round trip: from a character on a line >= 0, a successful seek(d) is
   * undone by seek(-d), except going backward from the first column (see
   * SeekToLineStartRaises).
   */
  lemma SeekRoundTrip(lines: seq<string>, s: ReaderState, d: int)
    requires Consistent(lines, s) && InLine(lines, s.line, s.col) && s.line >= 0
    requires d > 0 || s.col > 0
    requires SeekSpec(lines, s, d).0 == Returned(true)
    ensures var back := SeekSpec(lines, SeekSpec(lines, s, d).1, -d);
      back.0 == Returned(true) && back.1.line == s.line && back.1.col == s.col
  {
    var t := SeekSpec(lines, s, d).1;
    ResolvedMoves(lines, s.line, s.col, d);
    ResolvedMoves(lines, t.line, t.col, -d);
    FlatLineEnd(lines, -1);
    FlatMonotone(lines, 0, s.line);
    if d > 0 {
      FlatOrder(lines, 0, 0, t.line, t.col);
      FlatMonotone(lines, 0, t.line);
      var p := Resolved(lines, t.line, t.col, -d).value.value;
      BackwardFormUnique(lines, p, Pos(s.line, s.col));
    } else {
      FlatBound(lines, s.line, s.col);
      var p := Resolved(lines, t.line, t.col, -d).value.value;
      ForwardFormUnique(lines, p, Pos(s.line, s.col));
    }
  }

  /**
   * The forward walk lands one past line k when the target is the first
   * character of line k + 1 (or the end of the text): seek then moves the
   * pointers to (k, |line k|) and raises IndexError, keeping stream and steps.
   */
  lemma SeekToLineStartRaises(lines: seq<string>, s: ReaderState, d: int, k: int)
    requires Consistent(lines, s) && lines != [] && d > 0 && -1 <= k < |lines|
    requires Flat(lines, s.line, s.col) + d == Flat(lines, k + 1, 0)
    ensures SeekSpec(lines, s, d) == (Raised(IndexError), s.(line := k, col := |Line(lines, k)|))
  {
    FlatLineEnd(lines, k);
    ForwardLands(lines, s.line, s.col, d, Pos(k, |Line(lines, k)|));
  }

  /**
   * Going back exactly one character before line 0 wraps to Python's line
   * -1: seek succeeds with the pointers at (-1, |last line| - 1) and the last
   * character of the buffer as the stream.
   */
  lemma SeekBeforeFirstLineWraps(lines: seq<string>, s: ReaderState, d: int)
    requires Consistent(lines, s) && lines != [] && s.line >= 0 && d < 0
    requires Flat(lines, s.line, s.col) + d == Flat(lines, 0, 0) - 1
    ensures var last := lines[|lines| - 1];
      SeekSpec(lines, s, d) == (Returned(true), s.(line := -1, col := |last| - 1, stream := [last[|last| - 1]], stepsForward := 1, stepsBack := 1))
  {
    FlatLineEnd(lines, -1);
    ResolvedMoves(lines, s.line, s.col, d);
    var last := lines[|lines| - 1];
    BackwardFormUnique(lines, Resolved(lines, s.line, s.col, d).value.value, Pos(-1, |last| - 1));
  }

  /**
   * On an empty buffer: seek(0) and read(0, 0) raise IndexError, any
   * forward seek returns False, any backward seek raises IndexError.
   */
  lemma EmptyBuffer(s: ReaderState, d: int)
    requires Consistent([], s)
    ensures SeekSpec([], s, 0).0 == Raised(IndexError)
    ensures ReadSpec([], s, 0, 0).0 == Raised(IndexError)
    ensures d > 0 ==> SeekSpec([], s, d) == (Returned(false), s)
    ensures d < 0 ==> SeekSpec([], s, d) == (Raised(IndexError), s)
  {
  }

  /** After a read as in ReadInLine, next() aims one past the later of the cursor and the range end. */
  lemma NextAfterRead(lines: seq<string>, s: ReaderState, start: int, end: int)
    requires Consistent(lines, s) && InLine(lines, s.line, s.col)
    requires start <= end && (start != 0 || end != 0)
    requires LandsInLine(lines, s, start) && LandsInLine(lines, s, end)
    requires SeekSpec(lines, ReadSpec(lines, s, start, end).1, ReadSpec(lines, s, start, end).1.stepsForward).0 == Returned(true)
    ensures var t := SeekSpec(lines, ReadSpec(lines, s, start, end).1, ReadSpec(lines, s, start, end).1.stepsForward).1;
      Flat(lines, t.line, t.col) == Flat(lines, s.line, s.col) + (if end > 0 then end else 0) + 1
  {
    ReadInLine(lines, s, start, end);
    SeekMoves(lines, ReadSpec(lines, s, start, end).1, ReadSpec(lines, s, start, end).1.stepsForward);
  }

  /**
   * After a read as in ReadInLine, before() aims one before the earlier of
   * the cursor and the range start when start <= 0. For start > 0 the read
   * keeps the earlier stepsBack, so before() goes back by that amount.
   */
  lemma BeforeAfterRead(lines: seq<string>, s: ReaderState, start: int, end: int, r: ReaderState)
    requires Consistent(lines, s) && InLine(lines, s.line, s.col)
    requires start <= end && (start != 0 || end != 0)
    requires LandsInLine(lines, s, start) && LandsInLine(lines, s, end)
    requires r == ReadSpec(lines, s, start, end).1
    requires SeekSpec(lines, r, -(r.stepsBack as int)).0 == Returned(true)
    ensures var t := SeekSpec(lines, r, -(r.stepsBack as int)).1;
      Flat(lines, t.line, t.col) == Flat(lines, s.line, s.col) - (if start > 0 then s.stepsBack else 1 - start)
  {
    assert r.stepsBack == (if start > 0 then s.stepsBack else 1 - start) && r.line == s.line && r.col == s.col by {
      ReadInLine(lines, s, start, end);
    }
    assert Consistent(lines, r) by { assert Reachable(lines, r.line, r.col); }
    SeekBack(lines, r, -(r.stepsBack as int));
  }

  /** SeekMoves for the step back before() seeks: `back` is minus the earlier stepsBack. */
  lemma SeekBack(lines: seq<string>, r: ReaderState, back: int)
    requires Consistent(lines, r)
    requires SeekSpec(lines, r, back).0 == Returned(true)
    ensures lines != []
    ensures var t := SeekSpec(lines, r, back).1;
      Flat(lines, t.line, t.col) == Flat(lines, r.line, r.col) + back
  {
    assert lines != [];
    SeekMoves(lines, r, back);
  }

  /** `read(0, 0)` on a character: True, the stream is that character of the joined text, both steps 1. */
  lemma ReadIdentity(lines: seq<string>, s: ReaderState)
    requires Consistent(lines, s) && InLine(lines, s.line, s.col)
    ensures ReadSpec(lines, s, 0, 0) == (Returned(true), s.(stream := [Line(lines, s.line)[s.col]], stepsForward := 1, stepsBack := 1))
    ensures 0 <= Flat(lines, s.line, s.col) < |Joined(lines)| &&
      ReadSpec(lines, s, 0, 0).1.stream == [Joined(lines)[Flat(lines, s.line, s.col)]]
  {
    FlatChar(lines, s.line, s.col);
  }

  /**
   * A worked example on "012345678\nabcdefghij" from (0, 2): read(2, 6)
   * gives "45678" with stepsForward 7, and next() then lands on the '\n' at (0, 9).
   */
  lemma ReadAheadThenNext()
    ensures var lines := ["012345678\n", "abcdefghij"];
      var s := ReaderState(0, 2, "2", 1, 1);
      Consistent(lines, s) &&
      var (o, r) := ReadSpec(lines, s, 2, 6);
      o == Returned(true) && r.stream == "45678" && r.stepsForward == 7 &&
      SeekSpec(lines, r, r.stepsForward) == (Returned(true), r.(col := 9, stream := "\n", stepsForward := 1, stepsBack := 1))
  {
    var lines := ["012345678\n", "abcdefghij"];
    var s := ReaderState(0, 2, "2", 1, 1);
    assert Flat(lines, 0, 0) == 10;
    ForwardLands(lines, 0, 2, 2, Pos(0, 4));
    ForwardLands(lines, 0, 2, 6, Pos(0, 8));
    ForwardLands(lines, 0, 2, 7, Pos(0, 9));
    RangedInLine(lines, s, 2, 6, Pos(0, 4), Pos(0, 8));
    assert lines[0][4..9] == "45678";
  }
}
