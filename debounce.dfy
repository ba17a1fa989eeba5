/**
 * The frame cooldown of `video_processing`, stated over the sequence of
 * per-frame collision counts: counts[0] belongs to frame 1, counts[1] to
 * frame 2, and so on.
 */
module Debounce {

  /** A frame after the first is accepted only more than `Gap` frames after the last accepted one. */
  const Gap := 2

  /** The most recent accepted frame, or -1 before any frame was accepted. */
  function LastOf(accepted: seq<nat>): int
  {
    if |accepted| == 0 then -1 else accepted[|accepted| - 1]
  }

  /**
   * The rule for accepting frame `frameNo` with collision count `count`
   * after the frames `prev` were accepted: the first frame only needs a
   * nonzero count, a later frame also needs the cooldown to have passed.
   */
  predicate Admits(frameNo: nat, count: nat, prev: seq<nat>)
  {
    if frameNo == 1 then count != 0 else count != 0 && frameNo - LastOf(prev) > Gap
  }

  /** The accepted frame numbers, in increasing order. */
  function Accepted(counts: seq<nat>): seq<nat>
  {
    if |counts| == 0 then []
    else
      var prev := Accepted(counts[..|counts| - 1]);
      if Admits(|counts|, counts[|counts| - 1], prev) then prev + [|counts|] else prev
  }

  /** The count of frame `f`, or 0 for a frame number outside the video. */
  function CountOf(counts: seq<nat>, f: int): nat
  {
    if 1 <= f <= |counts| then counts[f - 1] else 0
  }

  /** The sum of the counts of the given frames. */
  function SumOver(counts: seq<nat>, frames: seq<nat>): nat
  {
    if |frames| == 0 then 0
    else SumOver(counts, frames[..|frames| - 1]) + CountOf(counts, frames[|frames| - 1])
  }

  /** The sum of all per-frame counts. */
  function Sum(counts: seq<nat>): nat
  {
    if |counts| == 0 then 0 else Sum(counts[..|counts| - 1]) + counts[|counts| - 1]
  }

  /** The collision total of a video: the counts of its accepted frames, added up. */
  function Total(counts: seq<nat>): nat
  {
    SumOver(counts, Accepted(counts))
  }

  /** Frame numbers within 1..n that are pairwise more than `Gap` apart, in increasing order. */
  ghost predicate Spaced(frames: seq<nat>, n: nat)
  {
    && (forall k :: 0 <= k < |frames| ==> 1 <= frames[k] <= n)
    && (forall j, k :: 0 <= j < k < |frames| ==> frames[k] - frames[j] > Gap)
  }

  /** In spaced frames the last one is the largest. */
  lemma LastOfSpaced(frames: seq<nat>, n: nat)
    requires Spaced(frames, n)
    ensures forall k :: 0 <= k < |frames| ==> frames[k] <= LastOf(frames)
    ensures |frames| > 0 ==> LastOf(frames) in frames && 1 <= LastOf(frames) <= n
  {
  }

  /**
   * Accepted frames are frames of the video with a nonzero count, and any two
   * of them are more than `Gap` frames apart.
   */
  lemma {:induction false} AcceptedSpaced(counts: seq<nat>)
    ensures Spaced(Accepted(counts), |counts|)
    ensures forall k :: 0 <= k < |Accepted(counts)| ==> counts[Accepted(counts)[k] - 1] != 0
  {
    if |counts| > 0 {
      var n := |counts|;
      var prefix := counts[..n - 1];
      var prev := Accepted(prefix);
      var a := Accepted(counts);
      AcceptedSpaced(prefix);
      LastOfSpaced(prev, n - 1);
      forall k | 0 <= k < |prev|
        ensures counts[prev[k] - 1] != 0
      {
        assert counts[prev[k] - 1] == prefix[prev[k] - 1];
      }
      if Admits(n, counts[n - 1], prev) {
        assert a == prev + [n];
        if n == 1 {
          assert prev == [];
        }
        forall j, k | 0 <= j < k < |a|
          ensures a[k] - a[j] > Gap
        {
          assert a[j] == prev[j];
          if k < |prev| {
            assert a[k] == prev[k];
          }
        }
      }
    }
  }

  /**
   * Accepting is final: the frames accepted in the first m frames are a
   * prefix of those accepted in the whole video, and every frame accepted
   * afterwards comes after frame m.
   */
  lemma {:induction false} AcceptedPrefix(counts: seq<nat>, m: nat)
    requires m <= |counts|
    ensures |Accepted(counts[..m])| <= |Accepted(counts)|
    ensures Accepted(counts)[..|Accepted(counts[..m])|] == Accepted(counts[..m])
    ensures forall k :: |Accepted(counts[..m])| <= k < |Accepted(counts)| ==> Accepted(counts)[k] > m
  {
    if m == |counts| {
      assert counts[..m] == counts;
    } else {
      var n := |counts|;
      var prefix := counts[..n - 1];
      assert prefix[..m] == counts[..m];
      AcceptedPrefix(prefix, m);
    }
  }

  /** Whether a frame up to m is accepted is already decided by the first m frames. */
  lemma AcceptedUpTo(counts: seq<nat>, m: nat, x: int)
    requires m <= |counts| && x <= m
    ensures x in Accepted(counts) <==> x in Accepted(counts[..m])
  {
    var a := Accepted(counts);
    var p := Accepted(counts[..m]);
    AcceptedPrefix(counts, m);
    var rest := a[|p|..];
    assert a == p + rest;
    assert forall j :: 0 <= j < |rest| ==> rest[j] == a[|p| + j] > m;
    assert x !in rest;
  }

  /**
   * For spaced frames before frame f, the cooldown has passed exactly when
   * neither of the two frames before f is among them.
   */
  lemma CooldownPassed(p: seq<nat>, f: nat)
    requires 2 <= f && Spaced(p, f - 1)
    ensures f - LastOf(p) > Gap <==> (f - 1) !in p && (f - 2) !in p
  {
    LastOfSpaced(p, f - 1);
  }

  /**
   * The cooldown rule read off the accepted frames themselves: frame f is
   * accepted exactly when its count is nonzero and neither of the two frames
   * before it was accepted.
   */
  lemma {:induction false} AcceptedLocally(counts: seq<nat>, f: nat)
    requires 1 <= f <= |counts|
    ensures f in Accepted(counts) <==>
      counts[f - 1] != 0 && (f - 1) !in Accepted(counts) && (f - 2) !in Accepted(counts)
  {
    var p := Accepted(counts[..f - 1]);
    var q := Accepted(counts[..f]);
    assert counts[..f][..f - 1] == counts[..f - 1];
    assert q == if Admits(f, counts[f - 1], p) then p + [f] else p;
    AcceptedSpaced(counts[..f - 1]);
    AcceptedUpTo(counts, f, f);
    AcceptedUpTo(counts, f - 1, f - 1);
    AcceptedUpTo(counts, f - 1, f - 2);
    assert f !in p;
    if f == 1 {
      assert (f - 1) !in p && (f - 2) !in p;
    } else {
      CooldownPassed(p, f);
    }
  }

  /** The frames within SumOver can be read from any longer video with the same first m frames. */
  lemma {:induction false} SumOverPrefix(counts: seq<nat>, frames: seq<nat>, m: nat)
    requires m <= |counts|
    requires forall k :: 0 <= k < |frames| ==> frames[k] <= m
    ensures SumOver(counts[..m], frames) == SumOver(counts, frames)
  {
    if |frames| > 0 {
      SumOverPrefix(counts, frames[..|frames| - 1], m);
    }
  }

  /** One more frame adds its count to the total when it is accepted, and nothing otherwise. */
  lemma TotalStep(counts: seq<nat>)
    requires |counts| > 0
    ensures Total(counts) == Total(counts[..|counts| - 1]) +
      (if Admits(|counts|, counts[|counts| - 1], Accepted(counts[..|counts| - 1])) then counts[|counts| - 1] else 0)
  {
    var n := |counts|;
    var prev := Accepted(counts[..n - 1]);
    AcceptedSpaced(counts[..n - 1]);
    SumOverPrefix(counts, prev, n - 1);
    if Admits(n, counts[n - 1], prev) {
      assert (prev + [n])[..|prev|] == prev;
    }
  }

  /**
   * The first frame sets the state: it is recorded as the last accepted frame
   * and adds its count when the count is nonzero, and otherwise nothing changes.
   */
  lemma FirstStep(counts: seq<nat>)
    requires |counts| > 0
    ensures LastOf(Accepted(counts[..1])) == if counts[0] != 0 then 1 else -1
    ensures Total(counts[..1]) == counts[0]
  {
    var one := counts[..1];
    assert one[..0] == [];
    TotalStep(one);
  }

  /**
   * One step of the cooldown state machine: given the last accepted frame and
   * the total after frame f - 1, frame f is accepted when its count is nonzero
   * and it comes more than `Gap` frames after the last accepted one; then it
   * becomes the last accepted frame and its count is added.
   */
  lemma LaterStep(counts: seq<nat>, f: nat, last: int, total: nat)
    requires 2 <= f <= |counts|
    requires last == LastOf(Accepted(counts[..f - 1]))
    requires total == Total(counts[..f - 1])
    ensures var accept := counts[f - 1] != 0 && f - last > Gap;
      && LastOf(Accepted(counts[..f])) == (if accept then f else last)
      && Total(counts[..f]) == (if accept then total + counts[f - 1] else total)
  {
    var seen := counts[..f];
    assert seen[..f - 1] == counts[..f - 1];
    TotalStep(seen);
  }

  /** The running total never decreases as frames are added. */
  lemma {:induction false} TotalMonotone(counts: seq<nat>, m: nat)
    requires m <= |counts|
    ensures Total(counts[..m]) <= Total(counts)
  {
    if m < |counts| {
      var prefix := counts[..|counts| - 1];
      assert prefix[..m] == counts[..m];
      TotalMonotone(prefix, m);
      TotalStep(counts);
    } else {
      assert counts[..m] == counts;
    }
  }

  /** The total never exceeds the sum of all per-frame counts. */
  lemma {:induction false} TotalAtMostSum(counts: seq<nat>)
    ensures Total(counts) <= Sum(counts)
  {
    if |counts| > 0 {
      TotalAtMostSum(counts[..|counts| - 1]);
      TotalStep(counts);
    }
  }

  /** A first frame with a nonzero count is always accepted and adds its whole count. */
  lemma FirstFrameAccepted(counts: seq<nat>)
    requires |counts| > 0 && counts[0] != 0
    ensures |Accepted(counts)| > 0 && Accepted(counts)[0] == 1
    ensures Total(counts) >= counts[0]
  {
    var one := counts[..1];
    assert one[..0] == [];
    assert Accepted(one) == [1];
    AcceptedPrefix(counts, 1);
    TotalStep(one);
    TotalMonotone(counts, 1);
  }

  /**
   * After a first frame with count 0 the last accepted frame is still -1, so
   * a nonzero second frame is accepted although it is only one frame later.
   */
  lemma QuietFirstFrameAdmitsSecond(counts: seq<nat>)
    requires |counts| >= 2 && counts[0] == 0 && counts[1] != 0
    ensures LastOf(Accepted(counts[..1])) == -1
    ensures |Accepted(counts)| > 0 && Accepted(counts)[0] == 2
  {
    var one := counts[..1];
    assert one[..0] == [];
    assert Accepted(one) == [];
    var two := counts[..2];
    assert two[..1] == one;
    assert Accepted(two) == [2];
    AcceptedPrefix(counts, 2);
  }
}
