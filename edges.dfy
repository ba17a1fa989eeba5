/**
 * Table-edge selection (`find_edges`). Edge detection and the probabilistic
 * Hough transform are not modelled: the line segments they report are the input.
 */
module Edges {

  /** A detected line segment from (x1, y1) to (x2, y2), in pixels. */
  datatype Segment = Segment(x1: int, y1: int, x2: int, y2: int)

  /** The left edge assumed when no vertical segment lies further left. */
  const DefaultLeft := Segment(700, 0, 700, 0)

  /** The right edge assumed when no vertical segment lies further right. */
  const DefaultRight := Segment(240, 0, 240, 0)

  predicate IsVertical(s: Segment)
  {
    s.x1 == s.x2
  }

  predicate IsZero(s: Segment)
  {
    s.x1 == 0 && s.y1 == 0 && s.x2 == 0 && s.y2 == 0
  }

  /** The truth value of the detector's array: some coordinate is nonzero. */
  predicate AnyNonZero(lines: seq<Segment>)
  {
    exists i :: 0 <= i < |lines| && !IsZero(lines[i])
  }

  /** The vertical segments among the lines, in order. */
  function Verticals(lines: seq<Segment>): seq<Segment>
  {
    if |lines| == 0 then []
    else
      var last := lines[|lines| - 1];
      Verticals(lines[..|lines| - 1]) + (if IsVertical(last) then [last] else [])
  }

  /** The scan for the left edge: a vertical segment replaces it only when strictly further left. */
  function Leftmost(lines: seq<Segment>): Segment
  {
    if |lines| == 0 then DefaultLeft
    else
      var best := Leftmost(lines[..|lines| - 1]);
      var s := lines[|lines| - 1];
      if IsVertical(s) && s.x1 < best.x1 then s else best
  }

  /** The scan for the right edge: a vertical segment replaces it only when strictly further right. */
  function Rightmost(lines: seq<Segment>): Segment
  {
    if |lines| == 0 then DefaultRight
    else
      var best := Rightmost(lines[..|lines| - 1]);
      var s := lines[|lines| - 1];
      if IsVertical(s) && s.x1 > best.x1 then s else best
  }

  /** The left and right edges of a frame: the scans run only when the array is truthy. */
  function EdgesOf(lines: seq<Segment>): (Segment, Segment)
  {
    if AnyNonZero(lines) then (Leftmost(lines), Rightmost(lines)) else (DefaultLeft, DefaultRight)
  }

  /**
   * The left edge is vertical, its x is at most 700 and at most the x of every
   * vertical segment, and it is either the default or one of those segments:
   * its x is the minimum of 700 and the vertical x values.
   */
  lemma {:induction false} LeftmostIsMinimum(lines: seq<Segment>)
    ensures IsVertical(Leftmost(lines))
    ensures Leftmost(lines).x1 <= 700
    ensures forall i :: 0 <= i < |lines| && IsVertical(lines[i]) ==> Leftmost(lines).x1 <= lines[i].x1
    ensures Leftmost(lines) == DefaultLeft || Leftmost(lines) in lines
  {
    if |lines| > 0 {
      var prefix := lines[..|lines| - 1];
      LeftmostIsMinimum(prefix);
      assert forall i :: 0 <= i < |prefix| ==> prefix[i] == lines[i];
    }
  }

  /** The right edge is vertical and its x is the maximum of 240 and the vertical x values. */
  lemma {:induction false} RightmostIsMaximum(lines: seq<Segment>)
    ensures IsVertical(Rightmost(lines))
    ensures Rightmost(lines).x1 >= 240
    ensures forall i :: 0 <= i < |lines| && IsVertical(lines[i]) ==> Rightmost(lines).x1 >= lines[i].x1
    ensures Rightmost(lines) == DefaultRight || Rightmost(lines) in lines
  {
    if |lines| > 0 {
      var prefix := lines[..|lines| - 1];
      RightmostIsMaximum(prefix);
      assert forall i :: 0 <= i < |prefix| ==> prefix[i] == lines[i];
    }
  }

  /**
   * Ties keep the earlier choice: the left edge is the default exactly when no
   * vertical segment lies left of 700, and otherwise it is the FIRST vertical
   * segment with the smallest x.
   */
  lemma {:induction false} LeftmostKeepsFirstOfTies(lines: seq<Segment>)
    ensures Leftmost(lines) == DefaultLeft <==>
      forall i :: 0 <= i < |lines| && IsVertical(lines[i]) ==> lines[i].x1 >= 700
    ensures Leftmost(lines) != DefaultLeft ==>
      exists k :: 0 <= k < |lines| && lines[k] == Leftmost(lines) &&
        forall j :: 0 <= j < k && IsVertical(lines[j]) ==> lines[j].x1 > lines[k].x1
  {
    if |lines| > 0 {
      var prefix := lines[..|lines| - 1];
      LeftmostKeepsFirstOfTies(prefix);
      LeftmostIsMinimum(prefix);
      assert forall i :: 0 <= i < |prefix| ==> prefix[i] == lines[i];
      var s := lines[|lines| - 1];
      if IsVertical(s) && s.x1 < Leftmost(prefix).x1 {
        var k := |lines| - 1;
        assert forall j :: 0 <= j < k && IsVertical(lines[j]) ==> lines[j].x1 > lines[k].x1;
      } else if Leftmost(prefix) != DefaultLeft {
        var k :| 0 <= k < |prefix| && prefix[k] == Leftmost(prefix) &&
          forall j :: 0 <= j < k && IsVertical(prefix[j]) ==> prefix[j].x1 > prefix[k].x1;
        assert lines[k] == Leftmost(lines);
      }
    }
  }

  /**
   * Ties keep the earlier choice: the right edge is the default exactly when no
   * vertical segment lies right of 240, and otherwise it is the FIRST vertical
   * segment with the largest x.
   */
  lemma {:induction false} RightmostKeepsFirstOfTies(lines: seq<Segment>)
    ensures Rightmost(lines) == DefaultRight <==>
      forall i :: 0 <= i < |lines| && IsVertical(lines[i]) ==> lines[i].x1 <= 240
    ensures Rightmost(lines) != DefaultRight ==>
      exists k :: 0 <= k < |lines| && lines[k] == Rightmost(lines) &&
        forall j :: 0 <= j < k && IsVertical(lines[j]) ==> lines[j].x1 < lines[k].x1
  {
    if |lines| > 0 {
      var prefix := lines[..|lines| - 1];
      RightmostKeepsFirstOfTies(prefix);
      RightmostIsMaximum(prefix);
      assert forall i :: 0 <= i < |prefix| ==> prefix[i] == lines[i];
      var s := lines[|lines| - 1];
      if IsVertical(s) && s.x1 > Rightmost(prefix).x1 {
        var k := |lines| - 1;
        assert forall j :: 0 <= j < k && IsVertical(lines[j]) ==> lines[j].x1 < lines[k].x1;
      } else if Rightmost(prefix) != DefaultRight {
        var k :| 0 <= k < |prefix| && prefix[k] == Rightmost(prefix) &&
          forall j :: 0 <= j < k && IsVertical(prefix[j]) ==> prefix[j].x1 < prefix[k].x1;
        assert lines[k] == Rightmost(lines);
      }
    }
  }

  /** Non-vertical segments never affect either scan: scanning only the vertical ones gives the same edges. */
  lemma {:induction false} ScansIgnoreNonVertical(lines: seq<Segment>)
    ensures Leftmost(Verticals(lines)) == Leftmost(lines)
    ensures Rightmost(Verticals(lines)) == Rightmost(lines)
  {
    if |lines| > 0 {
      var prefix := lines[..|lines| - 1];
      ScansIgnoreNonVertical(prefix);
      var s := lines[|lines| - 1];
      if IsVertical(s) {
        var v := Verticals(prefix) + [s];
        assert Verticals(lines) == v;
        assert v[..|v| - 1] == Verticals(prefix);
      } else {
        assert Verticals(lines) == Verticals(prefix) + [];
        assert Verticals(prefix) + [] == Verticals(prefix);
      }
    }
  }

  /**
   * The guard is numpy truthiness, not emptiness: a non-empty array whose
   * coordinates are all zero keeps the defaults, although the scan alone
   * would have taken the zero segment as the left edge.
   */
  lemma {:induction false} AllZeroKeepsDefaults(lines: seq<Segment>)
    requires |lines| > 0
    requires forall i :: 0 <= i < |lines| ==> IsZero(lines[i])
    ensures EdgesOf(lines) == (DefaultLeft, DefaultRight)
    ensures Leftmost(lines).x1 == 0
  {
    LeftmostIsMinimum(lines);
    assert IsVertical(lines[0]);
  }

  /**
   * `find_edges` after the detector: scan the segments when the array is
   * truthy, keeping a running leftmost and rightmost vertical segment.
   */
  method FindEdges(lines: seq<Segment>) returns (left: Segment, right: Segment)
    ensures (left, right) == EdgesOf(lines)
    ensures |lines| == 0 ==> left == DefaultLeft && right == DefaultRight
    ensures IsVertical(left) && IsVertical(right)
    ensures left.x1 <= 700 && right.x1 >= 240
  {
    left := DefaultLeft;
    right := DefaultRight;
    if AnyNonZero(lines) {
      for i := 0 to |lines|
        invariant left == Leftmost(lines[..i])
        invariant right == Rightmost(lines[..i])
      {
        var line := lines[i];
        assert lines[..i + 1][..i] == lines[..i];
        if line.x1 == line.x2 {
          if line.x1 < left.x1 {
            left := line;
          }
          if line.x1 > right.x1 {
            right := line;
          }
        }
      }
      assert lines[..|lines|] == lines;
      LeftmostIsMinimum(lines);
      RightmostIsMaximum(lines);
    }
  }
}
