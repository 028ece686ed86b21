/** The recording session: the two state flags, the frame counter and the
    frame store of the recorder, and the operations that start, feed, finalise
    and tear down a recording, plus the capture step of the main loop. */
module Recording {

  import opened FrameStore
  import Pixels

  /** The file every recording is written to. */
  const RecordingFile: string := "recording.mp4"

  /** The scaler that converts a packed BGR24 capture to one frame of the
      encoder's planar format: (source bytes, source row stride, source rows)
      to the converted frame's bytes. It is a library call and is not modelled. */
  type Converter = (seq<bv8>, int, int) -> seq<bv8>

  /** The bytes a converted frame occupies in the store: a buffer of exactly
      frameSize bytes, zero-filled, into which the converted frame is copied. */
  function FitFrame(converted: seq<bv8>, frameSize: nat): (r: seq<bv8>)
    ensures |r| == frameSize
    ensures forall k :: 0 <= k < frameSize && k < |converted| ==> r[k] == converted[k]
    ensures forall k :: |converted| <= k < frameSize ==> r[k] == 0
  {
    if |converted| >= frameSize then converted[..frameSize]
    else converted + seq(frameSize - |converted|, _ => 0)
  }

  /** The stored frame for one call of the frame writer on a capture of
      `height` rows: the input is read as BGR24 with a row stride of width*3. */
  function StoredFrame(convert: Converter, data: seq<bv8>, width: int, height: int, frameSize: nat): seq<bv8> {
    FitFrame(convert(data, width * 3, height), frameSize)
  }

  class RecordingContext {
    var isRecording: bool
    var isInitialized: bool
    var filename: string
    /** Frames written since the last successful initialisation. */
    var videoFrameNumber: int
    /** The frame store: every frame written, back to back. */
    var frameBuffer: seq<bv8>
    /** The frames the store holds, in the order they were written. */
    ghost var frames: seq<seq<bv8>>
    /** Bytes in one converted frame. */
    const frameSize: nat

    ghost predicate Valid()
      reads this
    {
      frameSize > 0 &&
      AllOfSize(frames, frameSize) &&
      frameBuffer == Concat(frames) &&
      (isInitialized ==> videoFrameNumber == |frames|)
    }

    /** The relation the start/stop toggle keeps between the two flags. */
    predicate Synced()
      reads this
    {
      isRecording == isInitialized
    }

    /** The store always holds whole frames; while a recording is initialised
        it holds exactly videoFrameNumber of them. */
    lemma WholeFrames()
      requires Valid()
      ensures |frameBuffer| % frameSize == 0
      ensures |frameBuffer| / frameSize == |frames|
      ensures isInitialized ==> |frameBuffer| == videoFrameNumber * frameSize
    {
      FrameCountExact(frames, frameSize);
      ConcatLength(frames, frameSize);
    }

    /** The zero-initialised context the main loop starts from. */
    constructor (frameSize: nat)
      requires frameSize > 0
      ensures Valid() && Synced()
      ensures this.frameSize == frameSize
      ensures !isRecording && !isInitialized
      ensures videoFrameNumber == 0 && frameBuffer == [] && frames == [] && filename == ""
    {
      this.frameSize := frameSize;
      isRecording := false;
      isInitialized := false;
      filename := "";
      videoFrameNumber := 0;
      frameBuffer := [];
      frames := [];
    }

    /** Starts a recording. The flag is cleared and the store emptied before
        any codec set-up step is attempted; `codecReady` says whether all of
        them (encoder lookup, context allocation, opening the codec, creating
        the scaler, allocating the frame) succeed. Only then is the counter
        reset and the context marked initialised. */
    method InitRecording(codecReady: bool) returns (ok: bool)
      requires Valid()
      modifies this`isInitialized, this`filename, this`videoFrameNumber,
               this`frameBuffer, this`frames
      ensures Valid()
      ensures ok == codecReady
      ensures isInitialized == ok
      ensures filename == RecordingFile
      ensures frameBuffer == [] && frames == []
      ensures videoFrameNumber == if ok then 0 else old(videoFrameNumber)
    {
      filename := RecordingFile;
      isInitialized := false;
      frameBuffer := [];
      frames := [];
      if !codecReady {
        return false;
      }
      videoFrameNumber := 0;
      isInitialized := true;
      ok := true;
    }

    /** Converts one capture and appends it to the store, if a recording is
        both active and initialised; otherwise does nothing. */
    method WriteFrame(data: seq<bv8>, width: int, height: int, convert: Converter)
      requires Valid()
      modifies this`videoFrameNumber, this`frameBuffer, this`frames
      ensures Valid()
      ensures old(isRecording && isInitialized) ==>
                frames == old(frames) + [StoredFrame(convert, data, width, height, frameSize)] &&
                frameBuffer == old(frameBuffer) + StoredFrame(convert, data, width, height, frameSize) &&
                videoFrameNumber == old(videoFrameNumber) + 1
      ensures !old(isRecording && isInitialized) ==>
                frames == old(frames) && frameBuffer == old(frameBuffer) &&
                videoFrameNumber == old(videoFrameNumber)
    {
      if !isRecording || !isInitialized {
        return;
      }
      var frameData := StoredFrame(convert, data, width, height, frameSize);
      videoFrameNumber := videoFrameNumber + 1;
      ConcatAppend(frames, frameData);
      frames := frames + [frameData];
      frameBuffer := frameBuffer + frameData;
    }

    /** Hands every stored frame to the encoder. Nothing is sent when the
        context is not initialised or when `containerReady` says one of the
        container set-up steps (output format, context, stream, codec
        parameters, opening the file, writing the header) failed. Otherwise
        frame i, bytes [i*frameSize, (i+1)*frameSize) of the store, is sent
        with presentation time i, so presentation order is the order in which
        the frames were written. */
    method FinalizeRecording(containerReady: bool) returns (ok: bool, sent: seq<TimedFrame>)
      requires Valid()
      ensures ok == (isInitialized && containerReady)
      ensures |sent| == if ok then |frames| else 0
      ensures forall i :: 0 <= i < |sent| ==> sent[i] == TimedFrame(i, frames[i])
    {
      if !isInitialized {
        return false, [];
      }
      if !containerReady {
        return false, [];
      }
      sent := SliceFrames(frameBuffer, frameSize);
      SlicesAreFrames(frames, frameSize, sent);
      ok := true;
    }

    /** Finalises and tears down an initialised recording: both flags end
        false and the store empty. On a context that is not initialised it
        does nothing. */
    method CleanupRecording(containerReady: bool) returns (sent: seq<TimedFrame>)
      requires Valid()
      modifies this`isRecording, this`isInitialized, this`frameBuffer, this`frames
      ensures Valid()
      ensures old(isInitialized) ==>
                !isRecording && !isInitialized && frameBuffer == [] && frames == [] &&
                |sent| == (if containerReady then |old(frames)| else 0) &&
                forall i :: 0 <= i < |sent| ==> sent[i] == TimedFrame(i, old(frames)[i])
      ensures !old(isInitialized) ==>
                isRecording == old(isRecording) && !isInitialized &&
                frameBuffer == old(frameBuffer) && frames == old(frames) && sent == []
    {
      if !isInitialized {
        return [];
      }
      var finalized;
      finalized, sent := FinalizeRecording(containerReady);
      isRecording := false;
      isInitialized := false;
      frameBuffer := [];
      frames := [];
    }

    /** The release of the start/stop button: flips isRecording, then either
        starts a recording (rolling the flag back if that fails) or finalises
        and tears down the current one. */
    method ToggleRecording(codecReady: bool, containerReady: bool) returns (sent: seq<TimedFrame>)
      requires Valid()
      modifies this`isRecording, this`isInitialized, this`filename, this`videoFrameNumber,
               this`frameBuffer, this`frames
      ensures Valid()
      ensures old(Synced()) ==> Synced()
      ensures !old(isRecording) ==>
                isRecording == codecReady && isInitialized == codecReady &&
                frameBuffer == [] && frames == [] && filename == RecordingFile && sent == [] &&
                videoFrameNumber == (if codecReady then 0 else old(videoFrameNumber))
      ensures old(isRecording) ==>
                !isRecording && !isInitialized &&
                filename == old(filename) && videoFrameNumber == old(videoFrameNumber)
      ensures old(isRecording) && old(isInitialized) ==>
                frameBuffer == [] && frames == [] &&
                |sent| == (if containerReady then |old(frames)| else 0) &&
                forall i :: 0 <= i < |sent| ==> sent[i] == TimedFrame(i, old(frames)[i])
      ensures old(isRecording) && !old(isInitialized) ==>
                frameBuffer == old(frameBuffer) && frames == old(frames) && sent == []
    {
      isRecording := !isRecording;
      sent := [];
      if isRecording {
        var ok := InitRecording(codecReady);
        if !ok {
          isRecording := false;
        }
      } else {
        sent := CleanupRecording(containerReady);
      }
    }

    /** Leaving the main loop: a recording still running is finalised and torn down. */
    method Shutdown(containerReady: bool) returns (sent: seq<TimedFrame>)
      requires Valid()
      modifies this`isRecording, this`isInitialized, this`frameBuffer, this`frames
      ensures Valid()
      ensures old(isRecording && isInitialized) ==>
                !isRecording && !isInitialized && frameBuffer == [] && frames == [] &&
                |sent| == (if containerReady then |old(frames)| else 0) &&
                forall i :: 0 <= i < |sent| ==> sent[i] == TimedFrame(i, old(frames)[i])
      ensures !old(isRecording && isInitialized) ==>
                isRecording == old(isRecording) && isInitialized == old(isInitialized) &&
                frameBuffer == old(frameBuffer) && frames == old(frames) && sent == []
    {
      sent := [];
      if isRecording {
        sent := CleanupRecording(containerReady);
      }
    }

    /** One capture step of the main loop: a 32-bit image with a recognised
        mask set is repacked to BGR24, a 24-bit image is used as it is, and
        either is written while recording; any other image is dropped. */
    method CaptureFrame(img: Pixels.Image, width: nat, height: nat, convert: Converter)
      requires Valid()
      requires img.bitsPerPixel == 32 ==> Pixels.Covers(img, width, height)
      modifies this`videoFrameNumber, this`frameBuffer, this`frames
      ensures Valid()
      ensures var input := Pixels.WriterInput(img, width, height);
              if old(isRecording && isInitialized) && input.Some? then
                frames == old(frames) + [StoredFrame(convert, input.value, width, height, frameSize)] &&
                frameBuffer == old(frameBuffer) + StoredFrame(convert, input.value, width, height, frameSize) &&
                videoFrameNumber == old(videoFrameNumber) + 1
              else
                frames == old(frames) && frameBuffer == old(frameBuffer) &&
                videoFrameNumber == old(videoFrameNumber)
    {
      if img.bitsPerPixel == 32 {
        var isArgb := img.redMask == 0xff0000 && img.greenMask == 0xff00 && img.blueMask == 0xff;
        var isBgra := img.blueMask == 0xff0000 && img.greenMask == 0xff00 && img.redMask == 0xff;
        if isArgb || isBgra {
          if isRecording {
            var bgr := Pixels.RepackBgr24(img, width, height);
            WriteFrame(bgr[..], width, height, convert);
          }
        }
      } else if img.bitsPerPixel == 24 {
        if isRecording {
          WriteFrame(img.data, width, height, convert);
        }
      }
    }
  }
}
