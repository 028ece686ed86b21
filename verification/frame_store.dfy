/** The frame store: one growable byte buffer that holds converted frames of a
    fixed size back to back, and the walk over it at finalisation that hands
    each stored frame to the encoder with its presentation timestamp. */
module FrameStore {

  import opened Arith

  /** A frame as handed to the encoder: its presentation timestamp and its bytes. */
  datatype TimedFrame = TimedFrame(pts: int, data: seq<bv8>)

  /** The buffer that results from appending the given frames in order. */
  function Concat(frames: seq<seq<bv8>>): seq<bv8> {
    if frames == [] then []
    else Concat(frames[..|frames| - 1]) + frames[|frames| - 1]
  }

  predicate AllOfSize(frames: seq<seq<bv8>>, n: nat) {
    forall k :: 0 <= k < |frames| ==> |frames[k]| == n
  }

  /** Appending a frame to the buffer appends it to the frames the buffer holds. */
  lemma ConcatAppend(frames: seq<seq<bv8>>, f: seq<bv8>)
    ensures Concat(frames + [f]) == Concat(frames) + f
  {
    assert (frames + [f])[..|frames|] == frames;
  }

  lemma {:induction false} ConcatLength(frames: seq<seq<bv8>>, n: nat)
    requires AllOfSize(frames, n)
    ensures |Concat(frames)| == |frames| * n
  {
    if frames != [] {
      var init := frames[..|frames| - 1];
      ConcatLength(init, n);
      assert |frames| * n == |init| * n + n;
    }
  }

  /** A buffer of whole frames divides exactly: the frame count derived from
      its length is the number of frames appended. */
  lemma FrameCountExact(frames: seq<seq<bv8>>, n: nat)
    requires n > 0 && AllOfSize(frames, n)
    ensures |Concat(frames)| % n == 0
    ensures |Concat(frames)| / n == |frames|
  {
    ConcatLength(frames, n);
    DivExact(|frames|, n);
  }

  /** Bytes [k*n, k*n + n) of the buffer: the k-th frame of n bytes. */
  function FrameSlice(buffer: seq<bv8>, n: nat, k: nat): seq<bv8>
    requires k * n + n <= |buffer|
  {
    buffer[k * n..k * n + n]
  }

  /** Frame i occupies bytes [i*n, (i+1)*n) of the buffer. */
  lemma {:induction false} ConcatSlice(frames: seq<seq<bv8>>, n: nat, i: nat)
    requires AllOfSize(frames, n) && i < |frames|
    ensures i * n + n <= |Concat(frames)|
    ensures FrameSlice(Concat(frames), n, i) == frames[i]
  {
    var last := |frames| - 1;
    var init := frames[..last];
    var whole, before := Concat(frames), Concat(init);
    assert whole == before + frames[last];
    ConcatLength(init, n);
    ConcatLength(frames, n);
    RowFits(i, |frames|, n);
    if i < last {
      ConcatSlice(init, n, i);
      assert whole[i * n..i * n + n] == before[i * n..i * n + n];
      assert init[i] == frames[i];
    } else {
      assert i * n == |before|;
      assert whole[i * n..i * n + n] == frames[last];
    }
  }

  /** The first `count` frames of the buffer, frame k stamped with presentation time k. */
  function Slices(buffer: seq<bv8>, n: nat, count: nat): (r: seq<TimedFrame>)
    requires count * n <= |buffer|
    ensures |r| == count
  {
    if count == 0 then []
    else
      assert (count - 1) * n + n == count * n;
      Slices(buffer, n, count - 1) + [TimedFrame(count - 1, FrameSlice(buffer, n, count - 1))]
  }

  lemma {:induction false} SlicesAt(buffer: seq<bv8>, n: nat, count: nat, k: nat)
    requires count * n <= |buffer| && k < count
    ensures k * n + n <= |buffer|
    ensures Slices(buffer, n, count)[k] == TimedFrame(k, FrameSlice(buffer, n, k))
  {
    assert (count - 1) * n + n == count * n;
    if k < count - 1 {
      SlicesAt(buffer, n, count - 1, k);
    }
  }

  /** The loop of the finaliser over the stored frames: frame i is the i-th
      slice of frameSize bytes and is stamped with presentation time i. A
      trailing partial frame, if the buffer held one, is not sent. */
  method SliceFrames(buffer: seq<bv8>, frameSize: nat) returns (sent: seq<TimedFrame>)
    requires frameSize > 0
    ensures |sent| == |buffer| / frameSize
    ensures forall i :: 0 <= i < |sent| ==>
              i * frameSize + frameSize <= |buffer| &&
              sent[i] == TimedFrame(i, FrameSlice(buffer, frameSize, i))
  {
    var frameCount := |buffer| / frameSize;
    DivBound(|buffer|, frameSize);
    sent := [];
    var i := 0;
    while i < frameCount
      invariant 0 <= i <= frameCount
      invariant sent == Slices(buffer, frameSize, i)
    {
      DivFits(|buffer|, frameSize, i);
      var start := i * frameSize;
      var frameData := buffer[start..start + frameSize];
      sent := sent + [TimedFrame(i, frameData)];
      i := i + 1;
    }
    forall k | 0 <= k < |sent|
      ensures k * frameSize + frameSize <= |buffer|
      ensures sent[k] == TimedFrame(k, FrameSlice(buffer, frameSize, k))
    {
      SlicesAt(buffer, frameSize, frameCount, k);
    }
  }

  /** Slicing a buffer of whole frames gives back exactly those frames, in the
      order they were appended, stamped 0, 1, 2, ... */
  lemma SlicesAreFrames(frames: seq<seq<bv8>>, n: nat, sent: seq<TimedFrame>)
    requires n > 0 && AllOfSize(frames, n)
    requires |sent| == |Concat(frames)| / n
    requires forall i :: 0 <= i < |sent| ==>
               i * n + n <= |Concat(frames)| &&
               sent[i] == TimedFrame(i, FrameSlice(Concat(frames), n, i))
    ensures |sent| == |frames|
    ensures forall i :: 0 <= i < |sent| ==> sent[i] == TimedFrame(i, frames[i])
  {
    FrameCountExact(frames, n);
    forall i | 0 <= i < |sent|
      ensures sent[i] == TimedFrame(i, frames[i])
    {
      ConcatSlice(frames, n, i);
    }
  }
}
