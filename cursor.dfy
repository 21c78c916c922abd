/**
 * The canonical cursor `BufferReader` of src/bufferreader.py. The reader's
 * observable state is a ReaderState; SeekSpec and ReadSpec say what `seek`
 * and `read` do to it, and the class methods are proved to do exactly that.
 */
module Cursor {
  import opened Outcomes
  import opened LineTable
  import opened Resolver
  import opened Stream

  /** Pointers (line, col), the cached stream, and the two memoised step counts. */
  datatype ReaderState = ReaderState(line: int, col: int, stream: string, stepsForward: nat, stepsBack: nat)

  ghost predicate Consistent(lines: seq<string>, s: ReaderState)
  {
    WellFormed(lines) && Reachable(lines, s.line, s.col)
  }

  /**
   * `seek(steps)`: on a resolved position the pointers move there first;
   * then the stream becomes the character there and both steps become 1,
   * unless that position is one past its line, where `lines[l][c]` raises
   * IndexError with the pointers already moved. A missing position returns
   * False and changes nothing.
   */
  ghost function SeekSpec(lines: seq<string>, s: ReaderState, steps: int): (r: (Outcome<bool>, ReaderState))
    requires Consistent(lines, s)
    ensures Consistent(lines, r.1)
    ensures r.0 != Returned(true) ==> r.1.stream == s.stream && r.1.stepsForward == s.stepsForward && r.1.stepsBack == s.stepsBack
    ensures r.0.Returned? && !r.0.value ==> r.1 == s
    ensures r.0 == Returned(true) ==>
      InLine(lines, r.1.line, r.1.col) && r.1.stream == [Line(lines, r.1.line)[r.1.col]] &&
      r.1.stepsForward == 1 && r.1.stepsBack == 1
  {
    ResolvedReachable(lines, s.line, s.col, steps);
    match Resolved(lines, s.line, s.col, steps)
    case Raised(e) => (Raised(e), s)
    case Returned(None) => (Returned(false), s)
    case Returned(Some(p)) =>
      var moved := s.(line := p.line, col := p.col);
      match CharAt(lines, p.line, p.col)
      case None => (Raised(IndexError), moved)
      case Some(ch) => (Returned(true), moved.(stream := [ch], stepsForward := 1, stepsBack := 1))
  }

  /**
   * The stream and steps `read` computes once both endpoints lo <= hi are
   * resolved to sp and ep (before any reversal):
   *  - hi < 0: stepsBack = |stream| + |text between ep and the cursor| - 1 (the [1:]), stepsForward = 1;
   *  - lo > 0: stepsForward = |text between the cursor and sp| - 1 (the [:-1]) + |stream|,
   *    stepsBack keeps its previous value;
   *  - otherwise: stepsBack = 1 - lo when lo < 0, else 1; stepsForward = hi + 1 when hi > 0, else 1.
   */
  ghost function Ranged(lines: seq<string>, s: ReaderState, lo: int, hi: int, sp: Pos, ep: Pos): (r: ReaderState)
    requires Consistent(lines, s) && lines != []
    requires Reachable(lines, sp.line, sp.col) && Reachable(lines, ep.line, ep.col)
    ensures r.line == s.line && r.col == s.col
    ensures hi < 0 ==> r.stepsForward == 1
    ensures hi >= 0 && lo > 0 ==> r.stepsBack == s.stepsBack
    ensures lo <= 0 <= hi ==> r.stepsBack == 1 - lo && r.stepsForward == 1 + hi
  {
    var stream := Extract(lines, sp.line, sp.col, ep.line, ep.col);
    if hi < 0 then
      var between := Extract(lines, ep.line, ep.col, s.line, s.col);
      var gap := Slice(between, 1, |between|);
      s.(stream := stream, stepsBack := |stream| + |gap|, stepsForward := 1)
    else if lo > 0 then
      var between := Extract(lines, s.line, s.col, sp.line, sp.col);
      var gap := Slice(between, 0, if |between| > 0 then |between| - 1 else 0);
      s.(stream := stream, stepsForward := |gap| + |stream|)
    else
      s.(stream := stream,
         stepsBack := if lo < 0 then -lo + 1 else 1,
         stepsForward := if hi > 0 then hi + 1 else 1)
  }

  /**
   * `read(start, end)`. (0, 0) resets the steps and reads the current
   * character (raising IndexError when the pointer is one past its line,
   * after the steps were reset). Otherwise the offsets are ordered, both
   * are resolved (either may raise on an empty buffer), and a missing
   * endpoint returns False with nothing changed; else the stream and steps
   * are those of Ranged, the stream reversed when start > end.
   */
  ghost function ReadSpec(lines: seq<string>, s: ReaderState, start: int, end: int): (r: (Outcome<bool>, ReaderState))
    requires Consistent(lines, s)
    ensures Consistent(lines, r.1)
    ensures r.1.line == s.line && r.1.col == s.col
    ensures r.0 == Returned(false) ==> r.1 == s
  {
    if start == 0 && end == 0 then
      var counted := s.(stepsForward := 1, stepsBack := 1);
      match CharAt(lines, s.line, s.col)
      case None => (Raised(IndexError), counted)
      case Some(ch) => (Returned(true), counted.(stream := [ch]))
    else
      var lo, hi := if start <= end then start else end, if start <= end then end else start;
      ResolvedReachable(lines, s.line, s.col, lo);
      ResolvedReachable(lines, s.line, s.col, hi);
      var rs, re := Resolved(lines, s.line, s.col, lo), Resolved(lines, s.line, s.col, hi);
      if rs.Raised? then (Raised(rs.error), s)
      else if re.Raised? then (Raised(re.error), s)
      else if rs.value.None? || re.value.None? then (Returned(false), s)
      else
        var t := Ranged(lines, s, lo, hi, rs.value.value, re.value.value);
        (Returned(true), if start > end then t.(stream := Reversed(t.stream)) else t)
  }

  class BufferReader {
    const lines: seq<string>
    var line: int
    var col: int
    var stream: string
    var stepsForward: nat
    var stepsBack: nat

    ghost predicate Valid()
      reads this
    {
      WellFormed(lines) && Reachable(lines, line, col)
    }

    function State(): ReaderState
      reads this
    {
      ReaderState(line, col, stream, stepsForward, stepsBack)
    }

    /** `BufferReader(buffer)`: at (0, 0) with both steps 1; the stream is the first character, or "" for an empty buffer. */
    constructor (buffer: string)
      ensures Valid() && lines == SplitLines(buffer)
      ensures line == 0 && col == 0 && stepsForward == 1 && stepsBack == 1
      ensures stream == if lines == [] then "" else [lines[0][0]]
    {
      var split := SplitLines(buffer);
      lines := split;
      line, col := 0, 0;
      stepsForward, stepsBack := 1, 1;
      stream := if split == [] then "" else [split[0][0]];
    }

    /** `set_pointer`: succeeds exactly for a character of an existing line; never touches stream or steps. */
    method SetPointer(linePointer: int, charPointer: int) returns (ok: bool)
      requires Valid()
      modifies this`line, this`col
      ensures Valid()
      ensures ok <==> 0 <= linePointer < |lines| && 0 <= charPointer < |lines[linePointer]|
      ensures ok ==> line == linePointer && col == charPointer
      ensures !ok ==> line == old(line) && col == old(col)
      ensures stream == old(stream) && stepsForward == old(stepsForward) && stepsBack == old(stepsBack)
    {
      if linePointer < 0 || linePointer >= |lines| {
        return false;
      }
      if charPointer < 0 || charPointer >= |lines[linePointer]| {
        return false;
      }
      line, col := linePointer, charPointer;
      ok := true;
    }

    method Seek(steps: int) returns (o: Outcome<bool>)
      requires Valid()
      modifies this
      ensures Valid()
      ensures (o, State()) == SeekSpec(lines, old(State()), steps)
    {
      ResolvedReachable(lines, line, col, steps);
      var positions := Resolve(lines, line, col, steps);
      match positions
      case Raised(e) =>
        o := Raised(e);
      case Returned(None) =>
        o := Returned(false);
      case Returned(Some(p)) =>
        line, col := p.line, p.col;
        match CharAt(lines, line, col)
        case None =>
          o := Raised(IndexError);
        case Some(ch) =>
          stream := [ch];
          stepsForward, stepsBack := 1, 1;
          o := Returned(true);
    }

    /** `reset`: seek(0), its boolean result discarded. */
    method Reset() returns (o: Outcome<()>)
      requires Valid()
      modifies this
      ensures Valid()
      ensures State() == SeekSpec(lines, old(State()), 0).1
      ensures o == if SeekSpec(lines, old(State()), 0).0.Raised? then Raised(SeekSpec(lines, old(State()), 0).0.error) else Returned(())
    {
      var sought := Seek(0);
      o := if sought.Raised? then Raised(sought.error) else Returned(());
    }

    /** `next`: seek(stepsForward). */
    method Next() returns (o: Outcome<bool>)
      requires Valid()
      modifies this
      ensures Valid()
      ensures (o, State()) == SeekSpec(lines, old(State()), old(stepsForward))
    {
      o := Seek(stepsForward);
    }

    /** `before`: seek(-stepsBack). */
    method Before() returns (o: Outcome<bool>)
      requires Valid()
      modifies this
      ensures Valid()
      ensures (o, State()) == SeekSpec(lines, old(State()), -(old(stepsBack) as int))
    {
      o := Seek(-(stepsBack as int));
    }

    method Read(start: int, end: int) returns (o: Outcome<bool>)
      requires Valid()
      modifies this
      ensures Valid()
      ensures (o, State()) == ReadSpec(lines, old(State()), start, end)
    {
      if start == 0 && end == 0 {
        stepsForward, stepsBack := 1, 1;
        match CharAt(lines, line, col)
        case None =>
          return Raised(IndexError);
        case Some(ch) =>
          stream := [ch];
          return Returned(true);
      }
      var reversed := false;
      var lo, hi := start, end;
      if lo > hi {
        reversed := true;
        lo, hi := hi, lo;
      }
      ResolvedReachable(lines, line, col, lo);
      ResolvedReachable(lines, line, col, hi);
      var startPositions := Resolve(lines, line, col, lo);
      if startPositions.Raised? {
        return Raised(startPositions.error);
      }
      var endPositions := Resolve(lines, line, col, hi);
      if endPositions.Raised? {
        return Raised(endPositions.error);
      }
      if startPositions.value.None? || endPositions.value.None? {
        return Returned(false);
      }
      Store(lo, hi, startPositions.value.value, endPositions.value.value);
      if reversed {
        stream := Reversed(stream);
      }
      o := Returned(true);
    }

    /** The stream and step bookkeeping of `read` once both endpoints are resolved. */
    method Store(lo: int, hi: int, sp: Pos, ep: Pos)
      requires Valid() && lines != []
      requires Reachable(lines, sp.line, sp.col) && Reachable(lines, ep.line, ep.col)
      modifies this
      ensures Valid()
      ensures State() == Ranged(lines, old(State()), lo, hi, sp, ep)
    {
      if hi < 0 {
        stream := Extract(lines, sp.line, sp.col, ep.line, ep.col);
        var between := Extract(lines, ep.line, ep.col, line, col);
        var gap := Slice(between, 1, |between|);
        stepsBack := |stream| + |gap|;
        stepsForward := 1;
      } else if lo > 0 {
        stream := Extract(lines, sp.line, sp.col, ep.line, ep.col);
        var between := Extract(lines, line, col, sp.line, sp.col);
        var gap := Slice(between, 0, if |between| > 0 then |between| - 1 else 0);
        stepsForward := |gap| + |stream|;
      } else {
        stream := Extract(lines, sp.line, sp.col, ep.line, ep.col);
        stepsBack := if lo < 0 then -lo + 1 else 1;
        stepsForward := if hi > 0 then hi + 1 else 1;
      }
    }
  }
}
