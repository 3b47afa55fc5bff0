/**
 * The background-subtraction prototype's integer parts: a rolling buffer of
 * the last five normalised frames, their per-pixel mean truncated to uint8,
 * and the column at the centre of the bounding box of the largest contour.
 */
module FrameAverage {

  import opened Options
  import Fifo
  import Frames
  import Stats

  const Width := 32
  const Height := 24
  /** Capacity of the frame buffer. */
  const BufferSize := 5

  /** The (x, y, w, h) tuple `cv2.boundingRect` returns. */
  datatype Rect = Rect(x: int, y: int, w: int, h: int)

  /** Every frame is a full 24 x 32 normalised frame. */
  predicate AllFrames(frames: seq<seq<seq<int>>>)
  {
    forall i :: 0 <= i < |frames| ==> Frames.IsFrame(frames[i], Height, Width)
  }

  /** The values of pixel (r, c) across the frames, oldest first. */
  function PixelSeries(frames: seq<seq<seq<int>>>, r: nat, c: nat): (s: seq<int>)
    requires AllFrames(frames) && r < Height && c < Width
    ensures |s| == |frames|
    ensures forall i :: 0 <= i < |frames| ==> s[i] == frames[i][r][c]
  {
    seq(|frames|, i requires 0 <= i < |frames| => frames[i][r][c])
  }

  /** `np.mean(frames, axis=0).astype(np.uint8)`: each pixel's mean, truncated. */
  function MeanFrame(frames: seq<seq<seq<int>>>): (g: seq<seq<int>>)
    requires |frames| > 0 && AllFrames(frames)
    ensures |g| == Height
    ensures forall r :: 0 <= r < Height ==> |g[r]| == Width
    ensures forall r, c :: 0 <= r < Height && 0 <= c < Width ==> g[r][c] == Stats.TruncMean(PixelSeries(frames, r, c))
  {
    seq(Height, r requires 0 <= r < Height =>
      seq(Width, c requires 0 <= c < Width => Stats.TruncMean(PixelSeries(frames, r, c))))
  }

  /**
   * Each pixel of the averaged frame lies between that pixel's smallest
   * and largest value over the buffered frames, so the average is again a
   * uint8 frame and the cast to uint8 never wraps.
   */
  lemma MeanFrameBetween(frames: seq<seq<seq<int>>>)
    requires |frames| > 0 && AllFrames(frames)
    ensures forall r, c :: 0 <= r < Height && 0 <= c < Width ==>
      Stats.Min(PixelSeries(frames, r, c)) <= MeanFrame(frames)[r][c] <= Stats.Max(PixelSeries(frames, r, c))
    ensures Frames.IsFrame(MeanFrame(frames), Height, Width)
  {
    var g := MeanFrame(frames);
    forall r, c | 0 <= r < Height && 0 <= c < Width
      ensures Stats.Min(PixelSeries(frames, r, c)) <= g[r][c] <= Stats.Max(PixelSeries(frames, r, c))
      ensures Frames.IsPixel(g[r][c])
    {
      var s := PixelSeries(frames, r, c);
      Stats.MeanBetween(s);
      var lo :| 0 <= lo < |s| && s[lo] == Stats.Min(s);
      var hi :| 0 <= hi < |s| && s[hi] == Stats.Max(s);
      assert Frames.IsFrame(frames[lo], Height, Width) && Frames.IsFrame(frames[hi], Height, Width);
    }
  }

  /** Averaging copies of one frame gives that frame back. */
  lemma MeanOfEqualFrames(frames: seq<seq<seq<int>>>, f: seq<seq<int>>)
    requires |frames| > 0 && AllFrames(frames)
    requires forall i :: 0 <= i < |frames| ==> frames[i] == f
    ensures MeanFrame(frames) == f
  {
    var g := MeanFrame(frames);
    assert Frames.IsFrame(f, Height, Width) by {
      assert Frames.IsFrame(frames[0], Height, Width);
    }
    forall r | 0 <= r < Height ensures g[r] == f[r] {
      forall c | 0 <= c < Width ensures g[r][c] == f[r][c] {
        Stats.MeanOfConstant(PixelSeries(frames, r, c), f[r][c]);
      }
    }
  }

  /**
   * `x + w // 2`, the horizontal centre of a bounding box: the column
   * floor(w / 2) to the right of its left edge, inside the box when it is
   * at least one column wide.
   */
  function BoxCentreColumn(box: Rect): (col: int)
    ensures 2 * (col - box.x) <= box.w < 2 * (col - box.x) + 2
    ensures box.w >= 1 ==> box.x <= col < box.x + box.w
  {
    box.x + box.w / 2
  }

  /**
   * `detect_person` given the bounding box of the largest contour the
   * contour analysis found, or None when it found none: no column exactly
   * when there is no contour, otherwise the centre column of the box.
   */
  function DetectPerson(largest: Option<Rect>): (col: Option<int>)
    ensures col.None? <==> largest.None?
    ensures largest.Some? ==> col == Some(BoxCentreColumn(largest.value))
    ensures largest.Some? && largest.value.w >= 1 ==>
      largest.value.x <= col.value < largest.value.x + largest.value.w
  {
    if largest.None? then None else Some(BoxCentreColumn(largest.value))
  }

  /** Appending a frame to frames, and keeping the last few, leaves only frames. */
  lemma BufferedFrames(h: seq<seq<seq<int>>>, frame: seq<seq<int>>)
    requires AllFrames(h) && Frames.IsFrame(frame, Height, Width)
    ensures AllFrames(h + [frame]) && AllFrames(Fifo.LastK(h + [frame], BufferSize))
  {
    var h' := h + [frame];
    assert AllFrames(h') by {
      forall i | 0 <= i < |h'| ensures Frames.IsFrame(h'[i], Height, Width) {
        if i < |h| { assert h'[i] == h[i]; }
      }
    }
    var w := Fifo.LastK(h', BufferSize);
    forall i | 0 <= i < |w| ensures Frames.IsFrame(w[i], Height, Width) {
      assert w[i] == h'[|h'| - |w| + i];
    }
  }

  /** The buffer state of `main`. */
  class Smoother {
    /** The last frames read, oldest first. */
    var framesBuffer: seq<seq<seq<int>>>
    /** Number of frames read successfully. */
    var frameCount: nat
    /** Every frame read successfully so far, oldest first. */
    ghost var received: seq<seq<seq<int>>>

    ghost predicate Valid()
      reads this
    {
      AllFrames(received) && framesBuffer == Fifo.LastK(received, BufferSize)
    }

    constructor ()
      ensures Valid() && framesBuffer == [] && frameCount == 0 && received == []
    {
      framesBuffer := [];
      frameCount := 0;
      received := [];
    }

    /**
     * Append the frame, evict the oldest past five, and average the buffer:
     * the buffer stays the last min(n, 5) frames read, in order.
     */
    method PushFrame(frame: seq<seq<int>>) returns (smoothed: seq<seq<int>>)
      requires Valid() && Frames.IsFrame(frame, Height, Width)
      modifies this`framesBuffer, this`received
      ensures Valid()
      ensures received == old(received) + [frame]
      ensures framesBuffer == Fifo.Push(old(framesBuffer), frame, BufferSize)
      ensures framesBuffer == Fifo.LastK(received, BufferSize) && 1 <= |framesBuffer| <= BufferSize
      ensures AllFrames(framesBuffer) && smoothed == MeanFrame(framesBuffer)
      ensures Frames.IsFrame(smoothed, Height, Width)
    {
      Fifo.PushKeepsLastK(received, frame, BufferSize);
      framesBuffer := framesBuffer + [frame];
      if |framesBuffer| > BufferSize {
        framesBuffer := framesBuffer[1..];
      }
      BufferedFrames(received, frame);
      received := received + [frame];
      smoothed := MeanFrame(framesBuffer);
      MeanFrameBetween(framesBuffer);
    }

    /**
     * One pass of the main loop, given the normalised frame read (None when
     * `getFrame` raised) and the bounding box of the largest contour found
     * in this pass. A failed read changes nothing; a frame is buffered,
     * counted, and the box centre is reported.
     */
    method Step(reading: Option<seq<seq<int>>>, largest: Option<Rect>) returns (personColumn: Option<int>)
      requires Valid()
      requires reading.Some? ==> Frames.IsFrame(reading.value, Height, Width)
      modifies this`framesBuffer, this`received, this`frameCount
      ensures Valid()
      ensures reading.None? ==>
        personColumn == None && framesBuffer == old(framesBuffer) &&
        received == old(received) && frameCount == old(frameCount)
      ensures reading.Some? ==>
        received == old(received) + [reading.value] &&
        framesBuffer == Fifo.Push(old(framesBuffer), reading.value, BufferSize) &&
        frameCount == old(frameCount) + 1 &&
        personColumn == DetectPerson(largest)
    {
      if reading.None? {
        return None;
      }
      var smoothedFrame := PushFrame(reading.value);
      personColumn := DetectPerson(largest);
      frameCount := frameCount + 1;
    }
  }

}
