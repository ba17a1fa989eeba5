/**
 * Ball detection (`find_balls`). The vision calls that turn a frame into
 * enclosing circles are not modelled: the circles they produce are the input.
 */
module Balls {

  /** A minimum enclosing circle of one contour: centre (x, y) and radius r. */
  datatype Circle = Circle(x: real, y: real, r: real)

  /** A detected ball: the centre of a circle of ball size. */
  datatype Ball = Ball(x: real, y: real)

  /** The open range of enclosing radii, in pixels, that counts as a ball. */
  const MinRadius: real := 3.5
  const MaxRadius: real := 4.2

  /** A contour is a ball when its enclosing radius lies strictly between 3.5 and 4.2. */
  predicate BallSized(c: Circle)
  {
    MinRadius < c.r < MaxRadius
  }

  function CentreOf(c: Circle): Ball
  {
    Ball(c.x, c.y)
  }

  /** The balls among the circles, in the order the circles come. */
  function BallsAmong(circles: seq<Circle>): seq<Ball>
  {
    if |circles| == 0 then []
    else
      var last := circles[|circles| - 1];
      BallsAmong(circles[..|circles| - 1]) + (if BallSized(last) then [CentreOf(last)] else [])
  }

  /**
   * Every ball comes from a ball-sized circle, and every ball-sized circle
   * yields its centre as a ball; there are never more balls than circles.
   */
  lemma {:induction false} BallsAmongExact(circles: seq<Circle>)
    ensures |BallsAmong(circles)| <= |circles|
    ensures forall b :: b in BallsAmong(circles) <==>
      exists i :: 0 <= i < |circles| && BallSized(circles[i]) && b == CentreOf(circles[i])
  {
    if |circles| > 0 {
      var prefix := circles[..|circles| - 1];
      BallsAmongExact(prefix);
      forall b
        ensures b in BallsAmong(circles) <==>
          exists i :: 0 <= i < |circles| && BallSized(circles[i]) && b == CentreOf(circles[i])
      {
        if b in BallsAmong(prefix) {
          var i :| 0 <= i < |prefix| && BallSized(prefix[i]) && b == CentreOf(prefix[i]);
          assert circles[i] == prefix[i];
        }
        if exists i :: 0 <= i < |circles| && BallSized(circles[i]) && b == CentreOf(circles[i]) {
          var i :| 0 <= i < |circles| && BallSized(circles[i]) && b == CentreOf(circles[i]);
          if i < |prefix| {
            assert prefix[i] == circles[i];
          }
        }
      }
    }
  }

  /** Filtering distributes over concatenation: frames can be scanned piecewise. */
  lemma {:induction false} BallsAmongAppend(a: seq<Circle>, b: seq<Circle>)
    ensures BallsAmong(a + b) == BallsAmong(a) + BallsAmong(b)
  {
    if |b| > 0 {
      var b' := b[..|b| - 1];
      assert (a + b)[..|a + b| - 1] == a + b';
      BallsAmongAppend(a, b');
    } else {
      assert a + b == a;
    }
  }

  /** `find_balls`: keep the centre of every circle of ball size. */
  method FindBalls(circles: seq<Circle>) returns (result: seq<Ball>)
    ensures result == BallsAmong(circles)
    ensures |result| <= |circles|
  {
    result := [];
    for i := 0 to |circles|
      invariant result == BallsAmong(circles[..i])
      invariant |result| <= i
    {
      var c := circles[i];
      if MaxRadius > c.r > MinRadius {
        result := result + [Ball(c.x, c.y)];
      }
      assert circles[..i + 1][..i] == circles[..i];
    }
    assert circles[..|circles|] == circles;
  }
}
