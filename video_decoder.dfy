/** The `QVideoDecoder` class: the fields the seek engine updates in place
    and its operations, each proved to leave the state, and return the
    value, that the matching function of SeekModel gives. */
module Decoder {
  import opened CArith
  import opened Wrappers
  import opened SeekModel

  /** The stream information of a decoder that has opened nothing yet. */
  const NoInfo := StreamInfo(Other, -1, 0, 0, 0, 0, 0, 0, 0, 0, 0, 0, false)

  /** The first video stream of a container, found the way `openFile` scans
      the stream list. */
  method FindFirstVideoStream(streams: seq<StreamKind>) returns (videoStream: int)
    ensures -1 <= videoStream < |streams|
    ensures videoStream >= 0 ==> streams[videoStream] == VideoStream
    ensures videoStream >= 0 ==> forall j :: 0 <= j < videoStream ==> streams[j] != VideoStream
    ensures videoStream == -1 ==> forall j :: 0 <= j < |streams| ==> streams[j] != VideoStream
  {
    videoStream := -1;
    var i := 0;
    while i < |streams|
      invariant 0 <= i <= |streams|
      invariant forall j :: 0 <= j < i ==> streams[j] != VideoStream
    {
      if streams[i] == VideoStream {
        videoStream := i;
        break;
      }
      i := i + 1;
    }
  }

  /** Milliseconds of a duration in microseconds, computed as whole seconds
      and remaining microseconds, is the duration truncated to
      milliseconds. */
  lemma LengthMsIsTruncatedMillis(d: int)
    ensures Div(d, 1000000) * 1000 + Div(Mod(d, 1000000), 1000) == Div(d, 1000)
  {
    if d >= 0 {
      MillisSplit(d);
    } else {
      MillisSplit(-d);
      assert Div(d, 1000000) == -((-d) / 1000000);
      assert Mod(d, 1000000) == -((-d) % 1000000);
    }
  }

  lemma MillisSplit(d: nat)
    ensures (d / 1000000) * 1000 + (d % 1000000) / 1000 == d / 1000
  {
    var q, r := d / 1000000, d % 1000000;
    assert d == q * 1000000 + r;
    var p, u := r / 1000, r % 1000;
    assert r == p * 1000 + u;
    assert d == (q * 1000 + p) * 1000 + u;
  }

  class VideoDecoder {
    var ok: bool
    var lastFrameOk: bool
    var lastFrameNumber: int
    var lastFrameTime: int
    var lastLastFrameNumber: int
    var lastLastFrameTime: int
    var lastIdealFrameNumber: int
    /** The picture last converted to RGB (the source's `LastFrame`). */
    var lastFrame: Option<Packet>
    /** The stream information stored by the last successful open. */
    var info: StreamInfo
    /** The open container and its read position. */
    var packets: seq<Packet>
    var pos: nat
    /** How many retreats one Matroska correction may make in the model. */
    const retreatFuel: nat

    function Win(): Window
      reads this
    {
      Window(lastFrameOk, lastFrameNumber, lastFrameTime, lastLastFrameNumber, lastLastFrameTime)
    }

    function State(): DecoderState
      reads this
    {
      DecoderState(ok, Win(), lastIdealFrameNumber, lastFrame, info, packets, pos, retreatFuel)
    }

    ghost predicate Valid()
      reads this
    {
      SeekModel.Valid(State())
    }

    /** `QVideoDecoder()`: nothing is loaded. */
    constructor (fuel: nat)
      ensures Valid() && !ok && retreatFuel == fuel
      ensures Win() == FreshWindow && lastIdealFrameNumber == 0 && lastFrame == None
      ensures packets == [] && pos == 0
    {
      ok := false;
      lastFrameOk, lastFrameNumber, lastFrameTime := false, 0, 0;
      lastLastFrameNumber, lastLastFrameTime := IntMin, IntMin;
      lastIdealFrameNumber := 0;
      lastFrame := None;
      info := NoInfo;
      packets, pos := [], 0;
      retreatFuel := fuel;
    }

    /** `QVideoDecoder(file)`: the decoder is loaded exactly when the file
        opens. */
    constructor WithFile(m: MediaFile, fuel: nat)
      requires Openable(m)
      ensures Valid() && retreatFuel == fuel
      ensures ok == OpenSucceeds(m)
      ensures Win() == FreshWindow && lastIdealFrameNumber == 0 && lastFrame == None
      ensures ok ==> info == InfoOf(m) && packets == m.packets && pos == 0
    {
      ok := false;
      lastFrameOk, lastFrameNumber, lastFrameTime := false, 0, 0;
      lastLastFrameNumber, lastLastFrameTime := IntMin, IntMin;
      lastIdealFrameNumber := 0;
      lastFrame := None;
      info := NoInfo;
      packets, pos := [], 0;
      retreatFuel := fuel;
      new;
      var loaded := OpenFile(m);
      ok := loaded;
    }

    /** `close()`: a loaded decoder releases its container. */
    method Close()
      requires Valid()
      modifies this
      ensures Valid()
      ensures State() == SeekModel.Close(old(State()))
    {
      if !ok {
        return;
      }
      packets, pos := [], 0;
    }

    /** `openFile(m)`. */
    method OpenFile(m: MediaFile) returns (ret: bool)
      requires Valid() && Openable(m)
      modifies this
      ensures Valid()
      ensures State() == Open(old(State()), m).state && ret == Open(old(State()), m).ret
    {
      Close();
      lastLastFrameTime := IntMin;
      lastFrameTime := 0;
      lastLastFrameNumber := IntMin;
      lastFrameNumber := 0;
      lastIdealFrameNumber := 0;
      lastFrameOk := false;

      if !m.opens {
        return false;
      }
      if !m.probes {
        return false;
      }
      var videoStream := FindFirstVideoStream(m.streams);
      assert videoStream == FirstVideo(m.streams);
      if videoStream == -1 {
        return false;
      }
      if !m.codecFound {
        return false;
      }
      if !m.codecOpens {
        return false;
      }
      if !m.rgbFrameAllocated {
        return false;
      }
      info := InfoOf(m);
      packets, pos := m.packets, 0;
      ok := true;
      return true;
    }

    /** `decodeSeekFrame(ideal)`. */
    method DecodeSeekFrame(ideal: int) returns (ret: bool)
      requires Valid()
      modifies this
      ensures Valid()
      ensures State() == DecodeSeek(old(State()), ideal).state
      ensures ret == DecodeSeek(old(State()), ideal).ret
    {
      if !ok {
        return false;
      }
      if ideal != -1 && lastFrameOk && ideal >= lastLastFrameNumber && ideal <= lastFrameNumber {
        return true;
      }
      ghost var s0, goal := State(), DecodeLoop(Win(), packets, pos, info.videoStream,
                                                ideal, info.convertible);
      var done := false;
      while !done
        invariant !done ==> Decoding(s0, ideal, goal)
        invariant done ==> Decoded(s0, goal, true)
        decreases !done, |packets| - pos
      {
        var failed: bool;
        done, failed := DecodeStep(ideal, s0, goal);
        if failed {
          return false;
        }
      }
      return done;
    }

    /** While the read loop of `decodeSeekFrame` runs, only the window and the
        read position have moved, and reading on from here ends as the
        whole loop does. */
    ghost predicate Decoding(s0: DecoderState, ideal: int, goal: SeekModel.Decoded)
      reads this
    {
      && pos <= |packets| && ok == s0.ok && info == s0.info && packets == s0.packets
      && lastIdealFrameNumber == s0.lastIdeal && retreatFuel == s0.retreatFuel && lastFrame == s0.lastFrame
      && DecodeLoop(Win(), packets, pos, info.videoStream, ideal, info.convertible) == goal
    }

    /** The read loop has ended as `goal` says, returning `ret`. */
    ghost predicate Decoded(s0: DecoderState, goal: SeekModel.Decoded, ret: bool)
      reads this
    {
      && ok == s0.ok && info == s0.info && packets == s0.packets
      && lastIdealFrameNumber == s0.lastIdeal && retreatFuel == s0.retreatFuel
      && goal == SeekModel.Decoded(Win(), pos, ret, if ret then lastFrame else None)
      && (ret ==> lastFrame.Some?) && (!ret ==> lastFrame == s0.lastFrame)
    }

    /** One pass of the read loop (lines 265-337): read a packet, or fail at
        end of stream; a picture of the video stream is shifted into the
        window, and the first that reaches `ideal` ends the loop, converted
        when the conversion works. */
    method DecodeStep(ideal: int, ghost s0: DecoderState, ghost goal: SeekModel.Decoded)
      returns (done: bool, failed: bool)
      requires Decoding(s0, ideal, goal)
      modifies this`pos, this`lastFrameOk, this`lastFrameNumber, this`lastFrameTime,
               this`lastLastFrameNumber, this`lastLastFrameTime, this`lastFrame
      ensures !done && !failed ==> Decoding(s0, ideal, goal) && old(pos) < pos
      ensures done ==> !failed && Decoded(s0, goal, true)
      ensures failed ==> Decoded(s0, goal, false)
    {
      done, failed := false, false;
      // Read a packet; none is left at end of stream.
      if pos == |packets| {
        return false, true;
      }
      var packet := packets[pos];
      pos := pos + 1;
      if packet.stream == info.videoStream && packet.finished {
        ShiftWindow(packet.frameNumber, packet.time);
        if ideal == -1 || lastFrameNumber >= ideal {
          if !info.convertible {
            return false, true;
          }
          lastFrame := Some(packet);
          lastFrameOk := true;
          done := true;
        }
      }
    }

    /** Records one more decoded picture in the window. */
    method ShiftWindow(f: int, t: int)
      modifies this`lastFrameOk, this`lastFrameNumber, this`lastFrameTime,
               this`lastLastFrameNumber, this`lastLastFrameTime
      ensures Win() == Shift(old(Win()), f, t)
    {
      if lastFrameOk {
        lastLastFrameTime := lastFrameTime;
        lastLastFrameNumber := lastFrameNumber;
        lastFrameTime := t;
        lastFrameNumber := f;
      } else {
        lastFrameOk := true;
        lastLastFrameTime, lastFrameTime := t, t;
        lastLastFrameNumber, lastFrameNumber := f, f;
      }
    }

    /** `seekNextFrame()`. */
    method SeekNextFrame() returns (ret: bool)
      requires Valid()
      modifies this
      ensures Valid()
      ensures State() == SeekNext(old(State())).state && ret == SeekNext(old(State())).ret
    {
      ret := DecodeSeekFrame(lastIdealFrameNumber + 1);
      if ret {
        lastIdealFrameNumber := lastIdealFrameNumber + 1;
      } else {
        lastFrameOk := false;
      }
    }

    /** `seekPrevFrame()`. */
    method SeekPrevFrame() returns (ret: bool)
      requires Valid()
      modifies this
      ensures Valid()
      ensures State() == SeekPrev(old(State())).state && ret == SeekPrev(old(State())).ret
    {
      ret := SeekFrame(lastIdealFrameNumber - 1);
      if !ret {
        lastFrameOk := false;
      }
    }

    /** `seekMs(tsms)`. */
    method SeekMs(tsms: int) returns (ret: bool)
      requires Valid()
      modifies this
      ensures Valid()
      ensures State() == SeekModel.SeekMs(old(State()), tsms).state
      ensures ret == SeekModel.SeekMs(old(State()), tsms).ret
    {
      if !ok {
        return false;
      }
      ret := SeekFrame(FrameAtMs(tsms, info));
    }

    /** `seekFrame(ideal)`. */
    method SeekFrame(ideal: int) returns (ret: bool)
      requires Valid()
      modifies this
      ensures Valid()
      ensures State() == SeekModel.SeekFrame(old(State()), ideal).state
      ensures ret == SeekModel.SeekFrame(old(State()), ideal).ret
    {
      if !ok {
        return false;
      }
      if lastIdealFrameNumber + 1 == ideal {
        ret := SeekNextFrame();
        return;
      }
      if !lastFrameOk || (lastFrameOk && (ideal <= lastLastFrameNumber || ideal > lastFrameNumber)) {
        var found := CorrectSeekToKeyFrame(ideal);
        if !found {
          return false;
        }
        // avcodec_flush_buffers: the codec's buffered pictures are not modelled
        lastIdealFrameNumber := ideal;
        lastFrameOk := false;
      }
      ret := DecodeSeekFrame(ideal);
    }

    /** `correctSeekToKeyFrame(ideal)`: moves the read position to a point
        from which decoding reaches frame `ideal`. */
    method CorrectSeekToKeyFrame(ideal: int) returns (ret: bool)
      requires Valid() && ok
      modifies this`pos
      ensures Valid()
      ensures pos == CorrectSeek(old(State()), ideal).pos
      ensures ret == CorrectSeek(old(State()), ideal).found
    {
      var videoStream := info.videoStream;
      var startDts := Int64Min;
      var desiredDts: int;
      var mode: SeekMode;
      if info.format == Mpeg {
        desiredDts := MpegDesired(ideal, info);
        startDts := MpegMinTs;
        mode := Backward;
      } else if info.format == Asf {
        desiredDts := AsfDesired(ideal, info);
        mode := Backward;
      } else if info.format == Matroska {
        var targetDts := MatroskaTarget(ideal, info);
        desiredDts := MatroskaDesired(ideal, info);
        pos := SeekOr(packets, videoStream, targetDts, ByFrame, pos);
        var done := false;
        var firstEof := true;
        var fuel := retreatFuel;
        ghost var goal := MatroskaLoop(packets, videoStream, pos, targetDts, desiredDts, true, fuel);
        while !done
          invariant pos <= |packets|
          invariant !done ==> MatroskaLoop(packets, videoStream, pos, targetDts, desiredDts, firstEof, fuel) == goal
          invariant done ==> goal == Corrected(pos)
          decreases !done, fuel, |packets| - pos
        {
          if pos == |packets| {
            // first end of stream: retreat and try again; a second one fails
            if firstEof {
              firstEof := false;
              if fuel == 0 {
                return false;
              }
              fuel := fuel - 1;
              targetDts := Retreat(targetDts);
              pos := SeekOr(packets, videoStream, targetDts, Backward, pos);
            } else {
              return false;
            }
          } else {
            var packet := packets[pos];
            pos := pos + 1;
            if packet.stream == videoStream && packet.finished {
              var t := packet.time;
              if t > desiredDts {
                // past the desired frame: retreat and seek again
                if fuel == 0 {
                  return false;
                }
                fuel := fuel - 1;
                targetDts := Retreat(targetDts);
                pos := SeekOr(packets, videoStream, targetDts, Backward, pos);
              } else {
                done := true;
                pos := SeekOr(packets, videoStream, targetDts, Backward, pos);
              }
            }
          }
        }
        return true;
      } else {
        desiredDts := ideal;
        mode := ByFrame;
      }
      var target := SeekTarget(packets, videoStream, startDts, desiredDts, mode);
      if target.None? {
        return false;
      }
      pos := target.value;
      return true;
    }

    /** `seekToAndGetFrame(ideal)`: seeks, then hands out the frame. */
    method SeekToAndGetFrame(ideal: int) returns (ret: bool, img: Option<Packet>, frameNum: int, frameTime: int)
      requires Valid()
      modifies this
      ensures Valid()
      ensures State() == SeekModel.SeekFrame(old(State()), ideal).state
      ensures !SeekModel.SeekFrame(old(State()), ideal).ret ==> !ret
      ensures SeekModel.SeekFrame(old(State()), ideal).ret ==>
                ret == lastFrameOk && img == lastFrame && frameNum == lastFrameNumber && frameTime == lastFrameTime
    {
      var seeked := SeekFrame(ideal);
      if !seeked {
        return false, None, 0, 0;
      }
      ret, img, frameNum, frameTime := GetFrame();
    }

    /** `getFrame()`: the last converted picture, its frame number and
        time, and whether the window holds a decoded frame. */
    method GetFrame() returns (valid: bool, img: Option<Packet>, frameNum: int, frameTime: int)
      ensures valid == lastFrameOk && img == lastFrame
      ensures frameNum == lastFrameNumber && frameTime == lastFrameTime
    {
      img := lastFrame;
      frameNum := lastFrameNumber;
      frameTime := lastFrameTime;
      valid := lastFrameOk;
    }

    /** `getActualFrameNumber()`: -1 while nothing is loaded. */
    function GetActualFrameNumber(): (n: int)
      reads this
      ensures !ok ==> n == -1
      ensures ok ==> n == lastFrameNumber
    {
      if !ok then -1 else lastFrameNumber
    }

    /** `getIdealFrameNumber()`: -1 while nothing is loaded. */
    function GetIdealFrameNumber(): (n: int)
      reads this
      ensures !ok ==> n == -1
      ensures ok ==> n == lastIdealFrameNumber
    {
      if !ok then -1 else lastIdealFrameNumber
    }

    /** `getFrameTime()`: -1 while nothing is loaded. */
    function GetFrameTime(): (t: int)
      reads this
      ensures !ok ==> t == -1
      ensures ok ==> t == lastFrameTime
    {
      if !ok then -1 else lastFrameTime
    }

    /** `getNumFrameByTime(tsms)`: 0 (the source returns `false`) while
        nothing is loaded or for a time at or before the start. */
    function GetNumFrameByTime(tsms: int): (n: int)
      requires Valid()
      reads this
      ensures n >= 0
      ensures !ok || tsms <= 0 ==> n == 0
      ensures ok && tsms > 0 ==> n == FrameAtMs(tsms, info)
    {
      if !ok then 0
      else if tsms <= 0 then 0
      else FrameAtMs(tsms, info)
    }

    /** `getVideoLengthMs()`: -1 while nothing is loaded, otherwise the
        duration truncated to milliseconds. */
    function GetVideoLengthMs(): (ms: int)
      reads this
      ensures !ok ==> ms == -1
      ensures ok ==> ms == Div(info.durationUs, 1000)
    {
      if !ok then -1
      else
        var secs := Div(info.durationUs, 1000000);
        var us := Mod(info.durationUs, 1000000);
        LengthMsIsTruncatedMillis(info.durationUs);
        secs * 1000 + Div(us, 1000)
    }
  }
}
