/** The frame-seek engine of `QVideoDecoder` as pure functions over the
    decoder's state. Each function gives the state and the return value one
    call of the corresponding member leaves behind; the class in
    video_decoder.dfy is proved to do exactly this, and seek_lemmas.dfy
    proves what the engine promises about them.

    The container is abstracted as a sequence of packets with a read
    position: reading consumes one packet, end of stream is the position
    reaching the end, and a container-level seek moves the position to the
    last key packet of the video stream at or before the target. */
module SeekModel {
  import opened CArith
  import opened Wrappers

  /** The container formats the decoder tells apart by the format name. */
  datatype ContainerFormat = Mpeg | Asf | Matroska | Other

  /** The format whose code paths the decoder takes for a container whose
      format name is `name`. */
  function FormatOf(name: string): (f: ContainerFormat)
    ensures f == Mpeg <==> name == "mpeg"
    ensures f == Asf <==> name == "asf"
    ensures f == Matroska <==> name == "matroska,webm"
  {
    if name == "mpeg" then Mpeg
    else if name == "asf" then Asf
    else if name == "matroska,webm" then Matroska
    else Other
  }

  /** One packet of the container. `finished` says whether decoding it
      completes a picture; `frameNumber` and `time` are the frame number and
      millisecond time the decoder derives for that picture, by the
      format-specific rule it applies to the packet's timestamps. */
  datatype Packet = Packet(stream: int, finished: bool, key: bool, dts: int,
                           frameNumber: int, time: int)

  /** A packet of the video stream whose decoding completes a picture. */
  predicate Completes(p: Packet, stream: int)
  {
    p.stream == stream && p.finished
  }

  /** How a container-level seek reads its target: as a timestamp, or
      (AVSEEK_FLAG_FRAME) as a frame number. */
  datatype SeekMode = Backward | ByFrame

  predicate IsSeekPoint(p: Packet, stream: int, minTs: int, ts: int, mode: SeekMode)
  {
    var k := if mode == ByFrame then p.frameNumber else p.dts;
    p.stream == stream && p.key && minTs <= k <= ts
  }

  /** The position a container-level seek moves to: the last key packet of
      the stream whose timestamp lies in [minTs, ts]; None when the seek
      fails. */
  function SeekTarget(packets: seq<Packet>, stream: int, minTs: int, ts: int, mode: SeekMode): (r: Option<nat>)
    ensures r.Some? ==> r.value < |packets| && IsSeekPoint(packets[r.value], stream, minTs, ts, mode)
    ensures r.Some? ==> forall j :: r.value < j < |packets| ==> !IsSeekPoint(packets[j], stream, minTs, ts, mode)
    ensures r.None? ==> forall j :: 0 <= j < |packets| ==> !IsSeekPoint(packets[j], stream, minTs, ts, mode)
    decreases |packets|
  {
    if |packets| == 0 then None
    else if IsSeekPoint(packets[|packets| - 1], stream, minTs, ts, mode) then Some(|packets| - 1)
    else SeekTarget(packets[..|packets| - 1], stream, minTs, ts, mode)
  }

  /** `av_seek_frame`, whose failure the Matroska path ignores: the read
      position stays where it was. */
  function SeekOr(packets: seq<Packet>, stream: int, ts: int, mode: SeekMode, pos: nat): (r: nat)
    requires pos <= |packets|
    ensures r <= |packets|
  {
    match SeekTarget(packets, stream, Int64Min, ts, mode)
    case Some(p) => p
    case None => pos
  }

  /** The kinds of stream the open step distinguishes. */
  datatype StreamKind = VideoStream | OtherStream

  /** The index of the first video stream, or -1 when there is none. */
  function FirstVideo(streams: seq<StreamKind>): (i: int)
    ensures -1 <= i < |streams|
    ensures i >= 0 ==> streams[i] == VideoStream && forall j :: 0 <= j < i ==> streams[j] != VideoStream
    ensures i == -1 ==> forall j :: 0 <= j < |streams| ==> streams[j] != VideoStream
  {
    if |streams| == 0 then -1
    else if streams[0] == VideoStream then 0
    else
      var r := FirstVideo(streams[1..]);
      if r == -1 then -1 else r + 1
  }

  /** What the container and codec libraries report for a file: whether
      each step of opening it succeeds, the format name, the stream kinds,
      the rationals and timestamps of the first video stream, whether the
      RGB conversion context can be created for its pixel format, and the
      packets. */
  datatype MediaFile = MediaFile(
    opens: bool, probes: bool, formatName: string, streams: seq<StreamKind>,
    codecFound: bool, codecOpens: bool, rgbFrameAllocated: bool,
    frameRateNum: int, frameRateDen: int,
    timeBaseNum: int, timeBaseDen: int,
    codecTimeBaseNum: int, codecTimeBaseDen: int, ticksPerFrame: int,
    firstDts: int, startTime: int, durationUs: int,
    convertible: bool,
    packets: seq<Packet>)

  /** The stream information fixed when a file is opened. */
  datatype StreamInfo = StreamInfo(
    format: ContainerFormat, videoStream: int,
    frameRateNum: int, frameRateDen: int,
    timeBaseNum: int, timeBaseDen: int,
    codecTimeBaseNum: int, codecTimeBaseDen: int, ticksPerFrame: int,
    firstDts: int, startTs: int, durationUs: int,
    convertible: bool)

  /** The rationals the seek targets divide by are usable: a positive
      frame rate and time base, and for Matroska a codec time base whose
      integer ratio den/num is positive. */
  predicate Predictable(info: StreamInfo)
  {
    && info.frameRateNum > 0 && info.frameRateDen > 0
    && info.timeBaseNum > 0 && info.timeBaseDen > 0
    && (info.format == Matroska ==>
          info.codecTimeBaseNum > 0 && info.codecTimeBaseDen >= info.codecTimeBaseNum)
  }

  /** Every step of opening the file succeeds. */
  predicate OpenSucceeds(m: MediaFile)
  {
    m.opens && m.probes && FirstVideo(m.streams) >= 0 &&
    m.codecFound && m.codecOpens && m.rgbFrameAllocated
  }

  /** The codec time-base denominator after the correction for codecs that
      report a numerator above 1000 over a denominator of 1. */
  function CorrectedCodecDen(num: int, den: int): (d: int)
    ensures d != den ==> num > 1000 && den == 1 && d == 1000
  {
    if num > 1000 && den == 1 then 1000 else den
  }

  /** The stream information an open stores. When the stream's start time
      is unknown, the code resets firstDts, not startTs. */
  function InfoOf(m: MediaFile): StreamInfo
  {
    var firstDts := if m.firstDts == NoPts then 0 else m.firstDts;
    StreamInfo(
      FormatOf(m.formatName), FirstVideo(m.streams),
      m.frameRateNum, m.frameRateDen, m.timeBaseNum, m.timeBaseDen,
      m.codecTimeBaseNum, CorrectedCodecDen(m.codecTimeBaseNum, m.codecTimeBaseDen),
      m.ticksPerFrame,
      if m.startTime == NoPts then 0 else firstDts,
      m.startTime, m.durationUs, m.convertible)
  }

  /** The rolling window of the last two decoded (frame number, time)
      pairs, and whether it holds a decoded frame at all. */
  datatype Window = Window(frameOk: bool, lastNumber: int, lastTime: int,
                           lastLastNumber: int, lastLastTime: int)

  /** The window `openFile` starts from. */
  const FreshWindow := Window(false, 0, 0, IntMin, IntMin)

  /** The window after one more picture (f, t) is decoded: the last entry
      moves to the entry before it, or, in a window without a frame, both
      entries become the new picture. */
  function Shift(w: Window, f: int, t: int): (r: Window)
    ensures r.frameOk && r.lastNumber == f && r.lastTime == t
  {
    if w.frameOk then Window(true, f, t, w.lastNumber, w.lastTime)
    else Window(true, f, t, f, t)
  }

  /** Everything the seek engine keeps between calls. `lastFrame` is the
      picture last converted to RGB; `retreatFuel` bounds the retreats of
      one Matroska correction. */
  datatype DecoderState = DecoderState(
    ok: bool, window: Window, lastIdeal: int, lastFrame: Option<Packet>,
    info: StreamInfo, packets: seq<Packet>, pos: nat, retreatFuel: nat)

  predicate Valid(s: DecoderState)
  {
    s.pos <= |s.packets| && (s.ok ==> Predictable(s.info))
  }

  /** The state after a call and what the call returned; `seeked` records
      whether the call asked the container to reposition. */
  datatype Step = Step(state: DecoderState, ret: bool, seeked: bool)

  /** What the forward decode loop leaves behind: the window, the read
      position, the return value and the picture it converted. */
  datatype Decoded = Decoded(window: Window, pos: nat, ret: bool, frame: Option<Packet>)

  /** The forward decode loop of `decodeSeekFrame`: read packets from `pos`
      until a picture of the video stream with frame number at least
      `ideal` (any picture when `ideal` is -1) is decoded, shifting every
      decoded picture into the window. */
  function DecodeLoop(w: Window, packets: seq<Packet>, pos: nat, stream: int,
                      ideal: int, convertible: bool): (d: Decoded)
    requires pos <= |packets|
    ensures pos <= d.pos <= |packets|
    decreases |packets| - pos
  {
    if pos == |packets| then Decoded(w, pos, false, None)
    else
      var p := packets[pos];
      if !Completes(p, stream) then DecodeLoop(w, packets, pos + 1, stream, ideal, convertible)
      else
        var w' := Shift(w, p.frameNumber, p.time);
        if ideal == -1 || w'.lastNumber >= ideal then
          if convertible then Decoded(w', pos + 1, true, Some(p))
          else Decoded(w', pos + 1, false, None)
        else DecodeLoop(w', packets, pos + 1, stream, ideal, convertible)
  }

  /** The window already covers `ideal`, so no decoding is needed. */
  predicate CacheHit(w: Window, ideal: int)
  {
    ideal != -1 && w.frameOk && w.lastLastNumber <= ideal <= w.lastNumber
  }

  /** `decodeSeekFrame(ideal)`. */
  function DecodeSeek(s: DecoderState, ideal: int): (r: Step)
    requires Valid(s)
    ensures Valid(r.state) && !r.seeked
  {
    if !s.ok then Step(s, false, false)
    else if CacheHit(s.window, ideal) then Step(s, true, false)
    else
      var d := DecodeLoop(s.window, s.packets, s.pos, s.info.videoStream,
                          ideal, s.info.convertible);
      var s' := s.(window := d.window, pos := d.pos,
                   lastFrame := if d.frame.Some? then d.frame else s.lastFrame);
      Step(s', d.ret, false)
  }

  /** `seekNextFrame()`. */
  function SeekNext(s: DecoderState): (r: Step)
    requires Valid(s)
    ensures Valid(r.state) && !r.seeked
  {
    var d := DecodeSeek(s, s.lastIdeal + 1);
    if d.ret then Step(d.state.(lastIdeal := s.lastIdeal + 1), true, false)
    else Step(d.state.(window := d.state.window.(frameOk := false)), false, false)
  }

  /** `seekFrame` repositions the container exactly when the window does
      not cover `ideal`; the window it tests is (lastLast, last]. */
  predicate NeedsReposition(w: Window, ideal: int)
  {
    !w.frameOk || ideal <= w.lastLastNumber || ideal > w.lastNumber
  }

  /** The amount a Matroska correction moves its seek target back. */
  const RetreatStep: int := 3000

  /** One retreat of the Matroska seek target, floored at 0. */
  function Retreat(target: int): (r: int)
    ensures 0 <= r
    ensures target > 0 ==> r < target
    ensures target >= RetreatStep ==> r == target - RetreatStep
  {
    if target - RetreatStep < 0 then 0 else target - RetreatStep
  }

  /** How a Matroska correction ends: with the position to decode from, at
      a second end of stream, or (in the model only) with no retreats left,
      where the code would go on retreating. */
  datatype Correction = Corrected(pos: nat) | NotFound(pos: nat) | OutOfFuel(pos: nat)

  /** The correction loop of the Matroska path of `correctSeekToKeyFrame`. */
  function MatroskaLoop(packets: seq<Packet>, stream: int, pos: nat, target: int, desired: int,
                        firstEof: bool, fuel: nat): (c: Correction)
    requires pos <= |packets|
    ensures c.pos <= |packets|
    decreases fuel, |packets| - pos
  {
    if pos == |packets| then
      if !firstEof then NotFound(pos)
      else if fuel == 0 then OutOfFuel(pos)
      else
        var t := Retreat(target);
        MatroskaLoop(packets, stream, SeekOr(packets, stream, t, Backward, pos), t, desired, false, fuel - 1)
    else
      var p := packets[pos];
      if !Completes(p, stream) then
        MatroskaLoop(packets, stream, pos + 1, target, desired, firstEof, fuel)
      else if p.time > desired then
        if fuel == 0 then OutOfFuel(pos + 1)
        else
          var t := Retreat(target);
          MatroskaLoop(packets, stream, SeekOr(packets, stream, t, Backward, pos + 1), t, desired, firstEof, fuel - 1)
      else Corrected(SeekOr(packets, stream, target, Backward, pos + 1))
  }

  /** The lower bound the MPEG path passes to `avformat_seek_file`. */
  const MpegMinTs: int := -0x7ff_ffff_ffff_ffff

  /** The MPEG seek target (idealFrameNumber - 0.5 - fps) / (fps * timeBase)
      + firstDts, converted to an integer by truncation and clamped below
      at firstDts; computed exactly on the rationals fps = frameRateNum /
      frameRateDen and timeBase = timeBaseNum / timeBaseDen. */
  function MpegDesired(ideal: int, info: StreamInfo): (d: int)
    requires Predictable(info)
    ensures d >= info.firstDts
  {
    var den := 2 * info.frameRateNum * info.timeBaseNum;
    var num := (2 * ideal * info.frameRateDen - info.frameRateDen - 2 * info.frameRateNum) * info.timeBaseDen;
    var d := Div(num + info.firstDts * den, den);
    if d < info.firstDts then info.firstDts else d
  }

  /** The ASF seek target idealFrameNumber * frameMSec, truncated, with
      frameMSec = 1000 / fps. */
  function AsfDesired(ideal: int, info: StreamInfo): int
    requires Predictable(info)
  {
    Div(ideal * 1000 * info.frameRateDen, info.frameRateNum)
  }

  /** The Matroska integer seek target
      ideal * (tb.den / tb.num) / (codecTb.den / codecTb.num) * ticksPerFrame. */
  function MatroskaTarget(ideal: int, info: StreamInfo): int
    requires Predictable(info) && info.format == Matroska
  {
    Div(ideal * Div(info.timeBaseDen, info.timeBaseNum),
        Div(info.codecTimeBaseDen, info.codecTimeBaseNum)) * info.ticksPerFrame
  }

  /** The Matroska desired timestamp round(ideal * frameMSec). */
  function MatroskaDesired(ideal: int, info: StreamInfo): int
    requires Predictable(info)
  {
    RoundDiv(ideal * 1000 * info.frameRateDen, info.frameRateNum)
  }

  /** Whether `correctSeekToKeyFrame` succeeded, and the read position it
      leaves. */
  datatype Reposition = Reposition(found: bool, pos: nat)

  /** `avformat_seek_file` as the MPEG, ASF and other paths use it. */
  function SeekFile(s: DecoderState, minTs: int, ts: int, mode: SeekMode): (r: Reposition)
    requires Valid(s)
    ensures r.pos <= |s.packets|
  {
    match SeekTarget(s.packets, s.info.videoStream, minTs, ts, mode)
    case Some(p) => Reposition(true, p)
    case None => Reposition(false, s.pos)
  }

  /** `correctSeekToKeyFrame(ideal)`. */
  function CorrectSeek(s: DecoderState, ideal: int): (r: Reposition)
    requires Valid(s) && s.ok
    ensures r.pos <= |s.packets|
  {
    var info := s.info;
    match info.format
    case Mpeg => SeekFile(s, MpegMinTs, MpegDesired(ideal, info), Backward)
    case Asf => SeekFile(s, Int64Min, AsfDesired(ideal, info), Backward)
    case Matroska =>
      var target := MatroskaTarget(ideal, info);
      var start := SeekOr(s.packets, info.videoStream, target, ByFrame, s.pos);
      var c := MatroskaLoop(s.packets, info.videoStream, start, target,
                            MatroskaDesired(ideal, info), true, s.retreatFuel);
      Reposition(c.Corrected?, c.pos)
    case Other => SeekFile(s, Int64Min, ideal, ByFrame)
  }

  /** `seekFrame(ideal)`. */
  function SeekFrame(s: DecoderState, ideal: int): (r: Step)
    requires Valid(s)
    ensures Valid(r.state)
  {
    if !s.ok then Step(s, false, false)
    else if s.lastIdeal + 1 == ideal then SeekNext(s)
    else if NeedsReposition(s.window, ideal) then
      var c := CorrectSeek(s, ideal);
      if !c.found then Step(s.(pos := c.pos), false, true)
      else
        var s1 := s.(pos := c.pos, lastIdeal := ideal, window := s.window.(frameOk := false));
        var d := DecodeSeek(s1, ideal);
        Step(d.state, d.ret, true)
    else DecodeSeek(s, ideal)
  }

  /** `seekPrevFrame()`. */
  function SeekPrev(s: DecoderState): (r: Step)
    requires Valid(s)
    ensures Valid(r.state)
  {
    var d := SeekFrame(s, s.lastIdeal - 1);
    if d.ret then d
    else Step(d.state.(window := d.state.window.(frameOk := false)), false, d.seeked)
  }

  /** The frame number closest to `tsms` milliseconds, round(tsms /
      frameMSec), or 0 for a time at or before the start. */
  function FrameAtMs(tsms: int, info: StreamInfo): (n: int)
    requires Predictable(info)
    ensures n >= 0
  {
    if tsms <= 0 then 0 else RoundDiv(tsms * info.frameRateNum, 1000 * info.frameRateDen)
  }

  /** `seekMs(tsms)`. */
  function SeekMs(s: DecoderState, tsms: int): (r: Step)
    requires Valid(s)
    ensures Valid(r.state)
  {
    if !s.ok then Step(s, false, false)
    else SeekFrame(s, FrameAtMs(tsms, s.info))
  }

  /** `close()`: releases the container of a loaded file. */
  function Close(s: DecoderState): (r: DecoderState)
  {
    if !s.ok then s else s.(packets := [], pos := 0)
  }

  /** The media files whose open, if it succeeds, yields usable rationals. */
  predicate Openable(m: MediaFile)
  {
    OpenSucceeds(m) ==> Predictable(InfoOf(m))
  }

  /** `openFile(m)`. */
  function Open(s: DecoderState, m: MediaFile): (r: Step)
    requires Valid(s) && Openable(m)
    ensures Valid(r.state)
  {
    var c := Close(s);
    var reset := c.(window := FreshWindow, lastIdeal := 0);
    if OpenSucceeds(m) then
      Step(reset.(ok := true, info := InfoOf(m), packets := m.packets, pos := 0), true, false)
    else Step(reset, false, false)
  }
}
