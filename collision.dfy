/** Proximity of balls to the two table edges (`check_for_collision`). */
module Collision {
  import opened Balls
  import opened Edges

  /** Distance in pixels within which a ball counts as touching an edge. */
  const Reach: real := 20.0

  /**
   * A ball is near the left edge when it lies at most `Reach` right of it;
   * there is no absolute value, so a ball left of the edge is near it too.
   */
  predicate NearLeft(left: Segment, b: Ball)
  {
    b.x - left.x1 as real <= Reach
  }

  /** A ball is near the right edge when it lies at most `Reach` left of it, or beyond it. */
  predicate NearRight(right: Segment, b: Ball)
  {
    right.x1 as real - b.x <= Reach
  }

  /** What one ball adds to the count: one per edge it is near. */
  function Hits(left: Segment, right: Segment, b: Ball): (n: nat)
    ensures n <= 2
    ensures n == 2 <==> NearLeft(left, b) && NearRight(right, b)
    ensures n == 0 <==> !NearLeft(left, b) && !NearRight(right, b)
    ensures b.x <= left.x1 as real ==> n >= 1
    ensures right.x1 as real <= b.x ==> n >= 1
  {
    (if NearLeft(left, b) then 1 else 0) + (if NearRight(right, b) then 1 else 0)
  }

  /** The collision count of a list of balls: the sum of their hits. */
  function CollisionCount(left: Segment, right: Segment, balls: seq<Ball>): nat
  {
    if |balls| == 0 then 0
    else CollisionCount(left, right, balls[..|balls| - 1]) + Hits(left, right, balls[|balls| - 1])
  }

  /**
   * The count lies between 0 and twice the number of balls, and it is 0
   * exactly when no ball is near either edge.
   */
  lemma {:induction false} CollisionCountBounds(left: Segment, right: Segment, balls: seq<Ball>)
    ensures CollisionCount(left, right, balls) <= 2 * |balls|
    ensures CollisionCount(left, right, balls) == 0 <==>
      forall i :: 0 <= i < |balls| ==> Hits(left, right, balls[i]) == 0
  {
    if |balls| > 0 {
      var prefix := balls[..|balls| - 1];
      CollisionCountBounds(left, right, prefix);
      assert forall i :: 0 <= i < |prefix| ==> prefix[i] == balls[i];
    }
  }

  /** Counting is additive: the count of a concatenation is the sum of the counts. */
  lemma {:induction false} CollisionCountAppend(left: Segment, right: Segment, a: seq<Ball>, b: seq<Ball>)
    ensures CollisionCount(left, right, a + b) == CollisionCount(left, right, a) + CollisionCount(left, right, b)
  {
    if |b| == 0 {
      assert a + b == a;
    } else {
      var b' := b[..|b| - 1];
      assert (a + b)[..|a + b| - 1] == a + b';
      CollisionCountAppend(left, right, a, b');
    }
  }

  /** `check_for_collision`: add one for every ball near the left edge and one for every ball near the right edge. */
  method CheckForCollision(left: Segment, right: Segment, balls: seq<Ball>) returns (count: nat)
    ensures count == CollisionCount(left, right, balls)
    ensures count <= 2 * |balls|
  {
    count := 0;
    for i := 0 to |balls|
      invariant count == CollisionCount(left, right, balls[..i])
      invariant count <= 2 * i
    {
      var ball := balls[i];
      if ball.x - left.x1 as real <= Reach {
        count := count + 1;
      }
      if right.x1 as real - ball.x <= Reach {
        count := count + 1;
      }
      assert balls[..i + 1][..i] == balls[..i];
    }
    assert balls[..|balls|] == balls;
  }
}
