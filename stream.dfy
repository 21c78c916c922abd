/** The inclusive range extractor `__get_stream` of src/bufferreader.py. */
module Stream {
  import opened LineTable

  /**
   * The text from (sl, sc) through (el, ec) inclusive: on one line the slice
   * sc..ec+1, otherwise the rest of line sl, the whole lines strictly
   * between, and line el up to and including ec (Python slices clamp).
   */
  function Extract(lines: seq<string>, sl: int, sc: nat, el: int, ec: nat): string
    requires -|lines| <= -1 <= sl < |lines| && -1 <= el < |lines|
  {
    if sl == el then Slice(Line(lines, sl), sc, ec + 1)
    else
      Slice(Line(lines, sl), sc, |Line(lines, sl)|)
      + (if sl + 1 <= el then Concat(lines[sl + 1..el]) else [])
      + Slice(Line(lines, el), 0, ec + 1)
  }

  /** Where an extracted range ends: just after ec, or the end of line el when ec is already past it. */
  function RangeEnd(lines: seq<string>, el: int, ec: nat): nat
    requires -|lines| <= el < |lines|
  {
    if ec < |Line(lines, el)| then ec + 1 else |Line(lines, el)|
  }

  /**
   * For ordered positions within their lines, Extract is the slice of the
   * joined text from (sl, sc) up to RangeEnd(el, ec): every character from
   * start to end inclusive, except that an end one past its line contributes
   * nothing (the character there, the first of the next line, is dropped).
   */
  lemma ExtractIsSlice(lines: seq<string>, sl: int, sc: nat, el: int, ec: nat)
    requires lines != [] && -1 <= sl <= el < |lines|
    requires sc <= |Line(lines, sl)| && ec <= |Line(lines, el)|
    requires sl == el ==> sc <= ec + 1
    ensures Flat(lines, sl, sc) <= Flat(lines, el, RangeEnd(lines, el, ec)) <= |Joined(lines)|
    ensures Extract(lines, sl, sc, el, ec)
         == Joined(lines)[Flat(lines, sl, sc)..Flat(lines, el, RangeEnd(lines, el, ec))]
  {
    if sl == el {
      FlatSlice(lines, sl, sc, RangeEnd(lines, el, ec));
    } else {
      ExtractAcrossLines(lines, sl, sc, el, ec);
    }
  }

  lemma ExtractAcrossLines(lines: seq<string>, sl: int, sc: nat, el: int, ec: nat)
    requires lines != [] && -1 <= sl < el < |lines|
    requires sc <= |Line(lines, sl)| && ec <= |Line(lines, el)|
    ensures Flat(lines, sl, sc) <= Flat(lines, el, RangeEnd(lines, el, ec)) <= |Joined(lines)|
    ensures Extract(lines, sl, sc, el, ec)
         == Joined(lines)[Flat(lines, sl, sc)..Flat(lines, el, RangeEnd(lines, el, ec))]
  {
    var j := Joined(lines);
    var hi := RangeEnd(lines, el, ec);
    var a, b := Flat(lines, sl, sc), Flat(lines, sl + 1, 0);
    var c, d := Flat(lines, el, 0), Flat(lines, el, hi);
    assert a <= b && j[a..b] == Slice(Line(lines, sl), sc, |Line(lines, sl)|) by {
      FlatSlice(lines, sl, sc, |Line(lines, sl)|);
      FlatLineEnd(lines, sl);
    }
    assert c <= d <= |j| && j[c..d] == Slice(Line(lines, el), 0, ec + 1) by {
      FlatSlice(lines, el, 0, hi);
    }
    assert b <= c && j[b..c] == Concat(lines[sl + 1..el]) by {
      ConcatRange(Ext(lines), sl + 2, el + 1);
      ExtRange(lines, sl + 1, el);
    }
    SliceJoin(j, a, b, c, d);
  }

  lemma SliceJoin(s: string, a: nat, b: nat, c: nat, d: nat)
    requires a <= b <= c <= d <= |s|
    ensures s[a..d] == s[a..b] + s[b..c] + s[c..d]
  {
    assert s[a..d] == s[a..c] + s[c..d];
    assert s[a..c] == s[a..b] + s[b..c];
  }
}

