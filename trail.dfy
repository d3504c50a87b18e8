/**
 * The trail of pointer samples that `draw` in canvas.js keeps: each frame
 * appends the newest sample `[mouseX, mouseY]` at the tail, then evicts at
 * most one sample from the head, and only when the trail is longer than
 * MAX_TRAIL_COUNT. This module is the value-level specification of that
 * step and of a run of frames; the in-place step is Canvas.Sketch.PushTrail.
 */
module TrailBuffer {
  import opened Geometry

  const MAX_TRAIL_COUNT: nat := 32

  function Min(a: int, b: int): int {
    if a <= b then a else b
  }

  /** One frame's push followed by the throttled trim. */
  function PushTrim(t: seq<Vec>, p: Vec): (r: seq<Vec>)
    ensures |t| <= MAX_TRAIL_COUNT ==> |r| <= MAX_TRAIL_COUNT
  {
    var u := t + [p];
    if |u| > MAX_TRAIL_COUNT then u[1..] else u
  }

  /**
   * The step is a FIFO: the new sample ends up last; at most one sample is
   * evicted, always the oldest; and one is evicted exactly when the trail
   * was already at capacity, so an over-full trail keeps its length.
   */
  lemma PushTrimFifo(t: seq<Vec>, p: Vec)
    ensures var r := PushTrim(t, p);
      && |r| > 0 && r[|r| - 1] == p
      && |t| <= |r| <= |t| + 1
      && r == (t + [p])[|t| + 1 - |r|..]
      && (|r| == |t| <==> |t| >= MAX_TRAIL_COUNT)
  {
  }

  /** The trail after one frame per sample of `samples`, oldest sample first. */
  function PushAll(t: seq<Vec>, samples: seq<Vec>): (r: seq<Vec>)
    ensures |t| <= MAX_TRAIL_COUNT ==> |r| <= MAX_TRAIL_COUNT
    ensures samples != [] ==> |r| > 0 && r[|r| - 1] == samples[|samples| - 1]
    decreases |samples|
  {
    if samples == [] then t
    else PushTrim(PushAll(t, samples[..|samples| - 1]), samples[|samples| - 1])
  }

  /**
   * From a trail within capacity, any run of frames leaves exactly the most
   * recent min(n, 32) samples of everything pushed, oldest first.
   */
  lemma {:induction false} PushAllWithinCapacity(t: seq<Vec>, samples: seq<Vec>)
    requires |t| <= MAX_TRAIL_COUNT
    ensures PushAll(t, samples) == (t + samples)[|t + samples| - Min(|t + samples|, MAX_TRAIL_COUNT)..]
    decreases |samples|
  {
    if samples == [] {
      assert t + samples == t;
    } else {
      var n := |samples|;
      var front, last := samples[..n - 1], samples[n - 1];
      PushAllWithinCapacity(t, front);
      var all := t + front;
      var k := |all| - Min(|all|, MAX_TRAIL_COUNT);
      assert samples == front + [last];
      assert t + samples == all + [last];
      var before := PushAll(t, front);
      assert before == all[k..];
      assert before + [last] == (all + [last])[k..];
      if |before| + 1 > MAX_TRAIL_COUNT {
        assert PushAll(t, samples) == (before + [last])[1..];
        assert (before + [last])[1..] == (all + [last])[k + 1..];
      } else {
        assert PushAll(t, samples) == before + [last];
      }
    }
  }

  /** Starting from the empty trail, n frames leave the last min(n, 32) samples. */
  lemma {:induction false} TrailAfterFrames(samples: seq<Vec>)
    ensures PushAll([], samples) == samples[|samples| - Min(|samples|, MAX_TRAIL_COUNT)..]
  {
    PushAllWithinCapacity([], samples);
    assert [] + samples == samples;
  }

  /**
   * Eviction is throttled to one sample per frame, so a trail that is over
   * capacity never shrinks back: each frame drops its oldest sample and
   * appends the new one, and the length stays where it was.
   */
  lemma {:induction false} PushAllOverCapacity(t: seq<Vec>, samples: seq<Vec>)
    requires |t| > MAX_TRAIL_COUNT
    ensures PushAll(t, samples) == (t + samples)[|samples|..]
    ensures |PushAll(t, samples)| == |t|
    decreases |samples|
  {
    if samples == [] {
      assert t + samples == t;
    } else {
      var n := |samples|;
      var front, last := samples[..n - 1], samples[n - 1];
      PushAllOverCapacity(t, front);
      assert samples == front + [last];
      assert t + samples == (t + front) + [last];
      var before := PushAll(t, front);
      assert before + [last] == ((t + front) + [last])[n - 1..];
      assert PushAll(t, samples) == (before + [last])[1..];
    }
  }
}
