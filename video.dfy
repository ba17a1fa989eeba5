/**
 * `video_processing`: the edges are found once, on the first frame; every
 * frame's balls are then checked against them, and the per-frame counts
 * are accumulated through the cooldown.
 */
module Video {
  import opened Wrappers
  import opened Balls
  import opened Edges
  import opened Collision
  import opened Debounce

  /**
   * What the vision calls report for one frame: the line segments of the
   * Hough transform and the enclosing circles of the bright contours.
   */
  datatype Frame = Frame(segments: seq<Segment>, circles: seq<Circle>)

  /** The collision count of every frame against the given edges. */
  function FrameCounts(left: Segment, right: Segment, frames: seq<Frame>): (counts: seq<nat>)
    ensures |counts| == |frames|
  {
    seq(|frames|, i requires 0 <= i < |frames| => CollisionCount(left, right, BallsAmong(frames[i].circles)))
  }

  /** What the program reports for a video: nothing for an empty one, else the debounced total. */
  function VideoTotal(frames: seq<Frame>): Option<nat>
  {
    if |frames| == 0 then None
    else
      var (left, right) := EdgesOf(frames[0].segments);
      Some(Total(FrameCounts(left, right, frames)))
  }

  /** `video_processing` over the frames a capture delivers before its first failed read. */
  method VideoProcessing(frames: seq<Frame>) returns (result: Option<nat>)
    ensures result == VideoTotal(frames)
    ensures result == None <==> |frames| == 0
  {
    var currentFrameNo := 1;
    var lastCollisionFrameNo := -1;
    var collisionCounter := 0;

    if |frames| == 0 {
      return None;
    }
    var left, right := FindEdges(frames[0].segments);
    ghost var counts := FrameCounts(left, right, frames);

    var balls := FindBalls(frames[0].circles);
    var collisionsDetected := CheckForCollision(left, right, balls);
    FirstStep(counts);
    if collisionsDetected != 0 {
      collisionCounter := collisionCounter + collisionsDetected;
      lastCollisionFrameNo := currentFrameNo;
    }

    while true
      invariant 1 <= currentFrameNo <= |frames|
      invariant lastCollisionFrameNo == LastOf(Accepted(counts[..currentFrameNo]))
      invariant collisionCounter == Total(counts[..currentFrameNo])
      decreases |frames| - currentFrameNo
    {
      currentFrameNo := currentFrameNo + 1;
      if currentFrameNo > |frames| {
        break;
      }
      var frame := frames[currentFrameNo - 1];
      balls := FindBalls(frame.circles);
      collisionsDetected := CheckForCollision(left, right, balls);

      LaterStep(counts, currentFrameNo, lastCollisionFrameNo, collisionCounter);
      if collisionsDetected != 0 && currentFrameNo - lastCollisionFrameNo > Gap {
        collisionCounter := collisionCounter + collisionsDetected;
        lastCollisionFrameNo := currentFrameNo;
      }
    }
    assert counts[..|frames|] == counts;
    return Some(collisionCounter);
  }

  /** The reported total is at most the sum of every frame's count. */
  lemma VideoTotalBounded(frames: seq<Frame>)
    requires |frames| > 0
    ensures VideoTotal(frames).Some?
    ensures VideoTotal(frames).value <= Sum(FrameCounts(EdgesOf(frames[0].segments).0, EdgesOf(frames[0].segments).1, frames))
  {
    var (left, right) := EdgesOf(frames[0].segments);
    TotalAtMostSum(FrameCounts(left, right, frames));
  }
}
