/** What the frame-seek engine promises, proved about the functions of
    SeekModel: the window and return value of the forward decode, when a
    seek repositions the container, what opening resets, and how the
    Matroska correction ends. */
module SeekLemmas {
  import opened CArith
  import opened Wrappers
  import opened SeekModel

  // ---------------------------------------------------------------------
  // The window as a replay of the decoded pictures

  /** The window after the pictures of `ps` are decoded in order starting
      from `w`; packets that complete no picture of `stream` leave it as it
      is. */
  function Replay(w: Window, ps: seq<Packet>, stream: int): Window
    decreases |ps|
  {
    if |ps| == 0 then w
    else
      var w0 := Replay(w, ps[..|ps| - 1], stream);
      var p := ps[|ps| - 1];
      if Completes(p, stream) then Shift(w0, p.frameNumber, p.time) else w0
  }

  /** Replaying two runs of packets is replaying the first, then the second. */
  lemma {:induction false} ReplayAppend(w: Window, a: seq<Packet>, b: seq<Packet>, stream: int)
    ensures Replay(w, a + b, stream) == Replay(Replay(w, a, stream), b, stream)
    decreases |b|
  {
    if |b| == 0 {
      assert a + b == a;
    } else {
      var ab := a + b;
      assert ab[..|ab| - 1] == a + b[..|b| - 1];
      assert ab[|ab| - 1] == b[|b| - 1];
      ReplayAppend(w, a, b[..|b| - 1], stream);
    }
  }

  /** Packets of other streams, and packets that finish no picture, leave
      the window untouched. */
  lemma {:induction false} ReplayIgnoresOtherPackets(w: Window, ps: seq<Packet>, stream: int)
    requires forall i :: 0 <= i < |ps| ==> !Completes(ps[i], stream)
    ensures Replay(w, ps, stream) == w
    decreases |ps|
  {
    if |ps| > 0 {
      ReplayIgnoresOtherPackets(w, ps[..|ps| - 1], stream);
    }
  }

  /** The entry before the last is the picture decoded before the last one;
      when no picture was decoded before it in `ps`, it is the last entry of
      the starting window if that held a frame, and the last picture itself
      otherwise. */
  lemma ReplayLastLast(w: Window, ps: seq<Packet>, stream: int, k: int)
    requires |ps| > 0 && Completes(ps[|ps| - 1], stream)
    requires -1 <= k < |ps| - 1
    requires k >= 0 ==> Completes(ps[k], stream)
    requires forall i :: k < i < |ps| - 1 ==> !Completes(ps[i], stream)
    ensures var r := Replay(w, ps, stream);
      r.frameOk && r.lastNumber == ps[|ps| - 1].frameNumber && r.lastTime == ps[|ps| - 1].time
    ensures var r := Replay(w, ps, stream);
      k >= 0 ==>
        && r.lastLastNumber == ps[k].frameNumber
        && r.lastLastTime == ps[k].time
    ensures var r := Replay(w, ps, stream);
      k == -1 && w.frameOk ==>
        && r.lastLastNumber == w.lastNumber
        && r.lastLastTime == w.lastTime
    ensures var r := Replay(w, ps, stream);
      k == -1 && !w.frameOk ==>
        r.lastLastNumber == ps[|ps| - 1].frameNumber && r.lastLastTime == ps[|ps| - 1].time
  {
    var n := |ps|;
    ReplaySkipsTo(w, ps, stream, k);
    assert ps[..n][..n - 1] == ps[..n - 1];
    assert ps[..n] == ps;
    var wk := Replay(w, ps[..k + 1], stream);
    assert Replay(w, ps, stream) == Shift(wk, ps[n - 1].frameNumber, ps[n - 1].time);
    if k >= 0 {
      assert ps[..k + 1][..k] == ps[..k];
      assert wk == Shift(Replay(w, ps[..k], stream), ps[k].frameNumber, ps[k].time);
    } else {
      assert ps[..k + 1] == [];
    }
  }

  /** With no picture after `k` before the last packet, the window before
      the last packet is the window after packet `k`. */
  lemma ReplaySkipsTo(w: Window, ps: seq<Packet>, stream: int, k: int)
    requires |ps| > 0 && -1 <= k < |ps| - 1
    requires forall i :: k < i < |ps| - 1 ==> !Completes(ps[i], stream)
    ensures Replay(w, ps[..|ps| - 1], stream) == Replay(w, ps[..k + 1], stream)
  {
    var before := ps[..|ps| - 1];
    var head := before[..k + 1];
    var middle := before[k + 1..];
    assert before == head + middle;
    assert head == ps[..k + 1];
    ReplayAppend(w, head, middle, stream);
    ReplayIgnoresOtherPackets(Replay(w, head, stream), middle, stream);
  }

  // ---------------------------------------------------------------------
  // The forward decode loop

  /** A picture that ends the forward decode: one of the video stream whose
      frame number has reached `ideal` (any picture when `ideal` is -1). */
  predicate Reaches(p: Packet, stream: int, ideal: int)
  {
    Completes(p, stream) && (ideal == -1 || p.frameNumber >= ideal)
  }

  /** The window the forward decode leaves is the one that decoding the
      packets it read produces. */
  lemma {:induction false} DecodeLoopReplays(w: Window, packets: seq<Packet>, pos: nat, stream: int,
                                             ideal: int, convertible: bool)
    requires pos <= |packets|
    ensures var d := DecodeLoop(w, packets, pos, stream, ideal, convertible);
      d.window == Replay(w, packets[pos..d.pos], stream)
    decreases |packets| - pos
  {
    var d := DecodeLoop(w, packets, pos, stream, ideal, convertible);
    if pos == |packets| {
      assert packets[pos..pos] == [];
    } else {
      var p := packets[pos];
      var w' := if Completes(p, stream) then Shift(w, p.frameNumber, p.time) else w;
      assert Replay(w, [p], stream) == w' by {
        assert [p][..0] == [];
      }
      if Completes(p, stream) && (ideal == -1 || p.frameNumber >= ideal) {
        assert packets[pos..pos + 1] == [p];
      } else {
        DecodeLoopReplays(w', packets, pos + 1, stream, ideal, convertible);
        assert packets[pos..d.pos] == [p] + packets[pos + 1..d.pos];
        ReplayAppend(w, [p], packets[pos + 1..d.pos], stream);
      }
    }
  }

  /** The forward decode stops at the first picture that reaches `ideal`,
      succeeds exactly when there is one and it can be converted, and hands
      out that picture; with no such picture it reads to end of stream. */
  lemma {:induction false} DecodeLoopSpec(w: Window, packets: seq<Packet>, pos: nat, stream: int,
                                          ideal: int, convertible: bool)
    requires pos <= |packets|
    ensures var d := DecodeLoop(w, packets, pos, stream, ideal, convertible);
      && (forall j :: pos <= j < d.pos - 1 ==> !Reaches(packets[j], stream, ideal))
      && ((exists j :: pos <= j < |packets| && Reaches(packets[j], stream, ideal)) ==>
            pos < d.pos && Reaches(packets[d.pos - 1], stream, ideal))
      && ((forall j :: pos <= j < |packets| ==> !Reaches(packets[j], stream, ideal)) ==>
            d.pos == |packets|)
      && (d.ret <==> convertible && exists j :: pos <= j < |packets| && Reaches(packets[j], stream, ideal))
      && (d.ret ==> pos < d.pos && d.frame == Some(packets[d.pos - 1]))
      && (!d.ret ==> d.frame == None)
    decreases |packets| - pos
  {
    if pos < |packets| {
      var p := packets[pos];
      var w' := if Completes(p, stream) then Shift(w, p.frameNumber, p.time) else w;
      if !Reaches(p, stream, ideal) {
        DecodeLoopSpec(w', packets, pos + 1, stream, ideal, convertible);
        if exists j :: pos <= j < |packets| && Reaches(packets[j], stream, ideal) {
          var j :| pos <= j < |packets| && Reaches(packets[j], stream, ideal);
          assert pos + 1 <= j;
        }
      }
    }
  }

  /** `decodeSeekFrame` returns true only when the window holds a frame whose
      number has reached `ideal`, and then `lastFrame` is that picture;
      a call that decodes returns false only after reading to end of stream
      or meeting a picture it cannot convert. */
  lemma DecodeSeekReachesIdeal(s: DecoderState, ideal: int)
    requires Valid(s)
    ensures var r := DecodeSeek(s, ideal);
      r.ret ==> r.state.window.frameOk && (ideal == -1 || r.state.window.lastNumber >= ideal)
    ensures var r := DecodeSeek(s, ideal);
      s.ok && !CacheHit(s.window, ideal) && r.ret ==>
        r.state.lastFrame.Some? && r.state.lastFrame.value.frameNumber == r.state.window.lastNumber
    ensures var r := DecodeSeek(s, ideal);
      s.ok && !CacheHit(s.window, ideal) && !r.ret ==>
        r.state.pos == |s.packets| || !s.info.convertible
  {
    if s.ok && !CacheHit(s.window, ideal) {
      var stream := s.info.videoStream;
      DecodeLoopSpec(s.window, s.packets, s.pos, stream, ideal, s.info.convertible);
      DecodeLoopReplays(s.window, s.packets, s.pos, stream, ideal, s.info.convertible);
      var d := DecodeLoop(s.window, s.packets, s.pos, stream, ideal, s.info.convertible);
      if d.ret {
        var read := s.packets[s.pos..d.pos];
        ReplayLastLast(s.window, read, stream, LastCompletionBefore(read, stream));
      }
    }
  }

  /** The index in `ps` of the last picture of `stream` decoded before the
      last packet, or -1. */
  function LastCompletionBefore(ps: seq<Packet>, stream: int): (k: int)
    requires |ps| > 0
    ensures -1 <= k < |ps| - 1
    ensures k >= 0 ==> Completes(ps[k], stream)
    ensures forall i :: k < i < |ps| - 1 ==> !Completes(ps[i], stream)
    decreases |ps|
  {
    if |ps| == 1 then -1
    else if Completes(ps[|ps| - 2], stream) then |ps| - 2
    else LastCompletionBefore(ps[..|ps| - 1], stream)
  }

  // ---------------------------------------------------------------------
  // Calls on a decoder with nothing loaded, and the cache hit

  /** With nothing loaded, `decodeSeekFrame`, `seekFrame` and `seekMs`
      return false and change nothing. */
  lemma NotLoadedChangesNothing(s: DecoderState, ideal: int, tsms: int)
    requires Valid(s) && !s.ok
    ensures DecodeSeek(s, ideal) == Step(s, false, false)
    ensures SeekFrame(s, ideal) == Step(s, false, false)
    ensures SeekMs(s, tsms) == Step(s, false, false)
  {
  }

  /** A window that already covers `ideal` answers `decodeSeekFrame` with
      true, without reading and without changing anything. */
  lemma CacheHitChangesNothing(s: DecoderState, ideal: int)
    requires Valid(s) && s.ok && CacheHit(s.window, ideal)
    ensures DecodeSeek(s, ideal) == Step(s, true, false)
  {
  }

  // ---------------------------------------------------------------------
  // Opening

  /** `openFile` resets the window and the ideal frame number whether or
      not the open succeeds; it reports success exactly when every step
      succeeds, and never clears `ok`. */
  lemma OpenResets(s: DecoderState, m: MediaFile)
    requires Valid(s) && Openable(m)
    ensures var r := Open(s, m);
      && !r.state.window.frameOk
      && r.state.window.lastNumber == 0
      && r.state.window.lastLastNumber == IntMin
      && r.state.lastIdeal == 0
      && r.ret == OpenSucceeds(m)
      && r.state.ok == (s.ok || OpenSucceeds(m))
      && (r.ret ==> r.state.info == InfoOf(m) && r.state.packets == m.packets && r.state.pos == 0)
  {
  }

  // ---------------------------------------------------------------------
  // When a seek repositions the container

  /** `seekFrame(lastIdeal + 1)` is `seekNextFrame`, which never
      repositions; it advances the ideal frame number on success and
      clears the window's frame flag on failure. */
  lemma SequentialRequestNeverRepositions(s: DecoderState)
    requires Valid(s) && s.ok
    ensures SeekFrame(s, s.lastIdeal + 1) == SeekNext(s)
    ensures !SeekNext(s).seeked
    ensures SeekNext(s).ret ==> SeekNext(s).state.lastIdeal == s.lastIdeal + 1
    ensures !SeekNext(s).ret ==> !SeekNext(s).state.window.frameOk && SeekNext(s).state.lastIdeal == s.lastIdeal
  {
  }

  /** Any other request repositions exactly when the window (lastLast,
      last] does not cover it. A repositioning that finds its key frame
      sets the ideal frame number to the request; one that does not find it
      returns false and keeps the window. Without repositioning the ideal
      frame number is left as it was. */
  lemma RepositionsIffOutsideWindow(s: DecoderState, ideal: int)
    requires Valid(s) && s.ok && ideal != s.lastIdeal + 1
    ensures SeekFrame(s, ideal).seeked <==> NeedsReposition(s.window, ideal)
    ensures !NeedsReposition(s.window, ideal) ==> SeekFrame(s, ideal).state.lastIdeal == s.lastIdeal
    ensures NeedsReposition(s.window, ideal) && CorrectSeek(s, ideal).found ==>
              SeekFrame(s, ideal).state.lastIdeal == ideal
    ensures NeedsReposition(s.window, ideal) && !CorrectSeek(s, ideal).found ==>
              !SeekFrame(s, ideal).ret && SeekFrame(s, ideal).state.window == s.window
  {
  }

  /** `seekPrevFrame` is `seekFrame(lastIdeal - 1)`, whose request is
      never the next frame: it repositions exactly when the window does not
      cover the frame before the ideal one, and a failure clears the
      window's frame flag. Inside the window it is answered from the window
      and changes nothing, so the ideal frame number is not lowered; after
      a repositioning that finds its key frame it is the frame asked for. */
  lemma SeekPrevRepositionsIffOutsideWindow(s: DecoderState)
    requires Valid(s)
    ensures SeekPrev(s).seeked <==> s.ok && NeedsReposition(s.window, s.lastIdeal - 1)
    ensures SeekPrev(s).ret ==> SeekPrev(s) == SeekFrame(s, s.lastIdeal - 1)
    ensures !SeekPrev(s).ret ==> !SeekPrev(s).state.window.frameOk
    ensures !s.ok ==> SeekPrev(s) == Step(s.(window := s.window.(frameOk := false)), false, false)
    ensures s.ok && s.lastIdeal != 0 && !NeedsReposition(s.window, s.lastIdeal - 1) ==>
              SeekPrev(s) == Step(s, true, false)
    ensures s.ok && NeedsReposition(s.window, s.lastIdeal - 1) && CorrectSeek(s, s.lastIdeal - 1).found ==>
              SeekPrev(s).state.lastIdeal == s.lastIdeal - 1
  {
    if s.ok {
      RepositionsIffOutsideWindow(s, s.lastIdeal - 1);
    }
  }

  /** The window `seekFrame` tests is half-open while the one
      `decodeSeekFrame` tests is closed: right after a repositioning has
      decoded exactly the requested frame, asking for it again repositions
      once more, although the decode alone would answer from the window. */
  lemma ExactFrameRequestedAgainRepositions(s: DecoderState, ideal: int)
    requires Valid(s) && s.ok && ideal != -1 && ideal != s.lastIdeal + 1
    requires s.window.frameOk && s.window.lastLastNumber == ideal && s.window.lastNumber == ideal
    ensures CacheHit(s.window, ideal)
    ensures SeekFrame(s, ideal).seeked
  {
  }

  /** A window whose two entries carry the same frame number, as the first
      picture decoded after a repositioning leaves it, makes every request
      other than the next frame reposition, even one for the frame it
      holds. */
  lemma CollapsedWindowAlwaysRepositions(s: DecoderState, ideal: int)
    requires Valid(s) && s.ok && ideal != s.lastIdeal + 1
    requires s.window.lastLastNumber == s.window.lastNumber
    ensures SeekFrame(s, ideal).seeked
  {
    RepositionsIffOutsideWindow(s, ideal);
  }

  /** The outcome of a run of `seekFrame` calls on consecutive frame numbers
      that stops at the first failure: the state left, whether every call
      succeeded, and how many calls repositioned the container. */
  datatype Series = Series(state: DecoderState, allOk: bool, repositions: nat)

  function SeekSeries(s: DecoderState, from: int, k: nat): (r: Series)
    requires Valid(s)
    ensures Valid(r.state)
    decreases k
  {
    if k == 0 then Series(s, true, 0)
    else
      var st := SeekFrame(s, from);
      var here := if st.seeked then 1 else 0;
      if !st.ret then Series(st.state, false, here)
      else
        var rest := SeekSeries(st.state, from + 1, k - 1);
        Series(rest.state, rest.allOk, rest.repositions + here)
  }

  /** Stepping on from the last requested frame never repositions. */
  lemma {:induction false} SequentialSeriesNeverRepositions(s: DecoderState, from: int, k: nat)
    requires Valid(s) && s.lastIdeal == from - 1
    ensures SeekSeries(s, from, k).repositions == 0
    decreases k
  {
    if k > 0 && s.ok {
      SequentialRequestNeverRepositions(s);
      var st := SeekFrame(s, from);
      if st.ret {
        SequentialSeriesNeverRepositions(st.state, from + 1, k - 1);
      }
    }
  }

  /** A run of consecutive requests that starts on the last requested frame
      or outside the window repositions at most once. */
  lemma {:induction false} SeriesRepositionsAtMostOnce(s: DecoderState, from: int, k: nat)
    requires Valid(s)
    requires s.lastIdeal == from - 1 || NeedsReposition(s.window, from)
    ensures SeekSeries(s, from, k).repositions <= 1
  {
    if s.lastIdeal == from - 1 {
      SequentialSeriesNeverRepositions(s, from, k);
    } else if k > 0 && s.ok {
      var st := SeekFrame(s, from);
      if st.ret {
        RepositionsIffOutsideWindow(s, from);
        assert st.state.lastIdeal == from;
        SequentialSeriesNeverRepositions(st.state, from + 1, k - 1);
      }
    }
  }

  // ---------------------------------------------------------------------
  // The key-frame correction

  /** The number of retreats needed to move the Matroska target from `t`
      to the start. */
  function RetreatN(t: int, n: nat): int
    decreases n
  {
    if n == 0 then t else RetreatN(Retreat(t), n - 1)
  }

  /** Each retreat lowers the target by 3000, floored at 0. */
  lemma {:induction false} RetreatNLowers(t: int, n: nat)
    requires t >= 0
    ensures RetreatN(t, n) == if t - n * RetreatStep < 0 then 0 else t - n * RetreatStep
    decreases n
  {
    if n > 0 {
      RetreatNLowers(Retreat(t), n - 1);
    }
  }

  /** A Matroska correction that succeeds has decoded a picture `j` whose
      time does not exceed the desired one, and then sought back with the
      target in force after its `n` retreats; with no retreat, `j` is the
      first picture read from where the correction started. */
  lemma {:induction false} MatroskaCorrectedAfterEarlyFrame(packets: seq<Packet>, stream: int, pos: nat,
                                                            target: int, desired: int, firstEof: bool, fuel: nat)
    requires pos <= |packets|
    ensures var c := MatroskaLoop(packets, stream, pos, target, desired, firstEof, fuel);
      c.Corrected? ==>
        exists j: int, n: nat ::
          && n <= fuel && 0 <= j < |packets| && Completes(packets[j], stream) && packets[j].time <= desired
          && c.pos == SeekOr(packets, stream, RetreatN(target, n), Backward, j + 1)
          && (n == 0 ==> pos <= j && forall i :: pos <= i < j ==> !Completes(packets[i], stream))
    decreases fuel, |packets| - pos
  {
    var c := MatroskaLoop(packets, stream, pos, target, desired, firstEof, fuel);
    if pos == |packets| {
      if firstEof && fuel > 0 {
        var t := Retreat(target);
        MatroskaCorrectedAfterEarlyFrame(packets, stream, SeekOr(packets, stream, t, Backward, pos), t, desired, false, fuel - 1);
        if c.Corrected? {
          var j: int, n: nat :| n <= fuel - 1 && 0 <= j < |packets| && Completes(packets[j], stream)
            && packets[j].time <= desired && c.pos == SeekOr(packets, stream, RetreatN(t, n), Backward, j + 1);
          assert RetreatN(target, n + 1) == RetreatN(t, n);
        }
      }
    } else {
      var p := packets[pos];
      if !Completes(p, stream) {
        MatroskaCorrectedAfterEarlyFrame(packets, stream, pos + 1, target, desired, firstEof, fuel);
      } else if p.time > desired {
        if fuel > 0 {
          var t := Retreat(target);
          MatroskaCorrectedAfterEarlyFrame(packets, stream, SeekOr(packets, stream, t, Backward, pos + 1), t, desired, firstEof, fuel - 1);
          if c.Corrected? {
            var j: int, n: nat :| n <= fuel - 1 && 0 <= j < |packets| && Completes(packets[j], stream)
              && packets[j].time <= desired && c.pos == SeekOr(packets, stream, RetreatN(t, n), Backward, j + 1);
            assert RetreatN(target, n + 1) == RetreatN(t, n);
          }
        }
      } else {
        assert RetreatN(target, 0) == target;
      }
    }
  }

  /** Packets that complete no picture are read past without effect. */
  lemma {:induction false} MatroskaSkipsOtherPackets(packets: seq<Packet>, stream: int, pos: nat, j: nat,
                                                     target: int, desired: int, firstEof: bool, fuel: nat)
    requires pos <= j <= |packets|
    requires forall i :: pos <= i < j ==> !Completes(packets[i], stream)
    ensures MatroskaLoop(packets, stream, pos, target, desired, firstEof, fuel)
         == MatroskaLoop(packets, stream, j, target, desired, firstEof, fuel)
    decreases j - pos
  {
    if pos < j {
      MatroskaSkipsOtherPackets(packets, stream, pos + 1, j, target, desired, firstEof, fuel);
    }
  }

  /** A second end of stream ends the correction with failure: once
      `firstEof` is cleared, reaching the end without a picture fails. */
  lemma SecondEndOfStreamFails(packets: seq<Packet>, stream: int, pos: nat,
                               target: int, desired: int, fuel: nat)
    requires pos <= |packets|
    requires forall i :: pos <= i < |packets| ==> !Completes(packets[i], stream)
    ensures MatroskaLoop(packets, stream, pos, target, desired, false, fuel) == NotFound(|packets|)
  {
    MatroskaSkipsOtherPackets(packets, stream, pos, |packets|, target, desired, false, fuel);
  }

  /** The correction does not terminate in the source: once the target is
      0, if the seek to 0 lands at `q` and the first picture decoded from
      there is later than desired, every retreat returns to `q`, so however
      many retreats are allowed they all run out. */
  lemma {:induction false} MatroskaDivergesAtStart(packets: seq<Packet>, stream: int, q: nat, j: nat,
                                                   desired: int, firstEof: bool, fuel: nat)
    requires SeekTarget(packets, stream, Int64Min, 0, Backward) == Some(q)
    requires q <= j < |packets|
    requires forall i :: q <= i < j ==> !Completes(packets[i], stream)
    requires Completes(packets[j], stream) && packets[j].time > desired
    ensures MatroskaLoop(packets, stream, q, 0, desired, firstEof, fuel).OutOfFuel?
    decreases fuel
  {
    MatroskaSkipsOtherPackets(packets, stream, q, j, 0, desired, firstEof, fuel);
    if fuel > 0 {
      assert Retreat(0) == 0;
      assert SeekOr(packets, stream, 0, Backward, j + 1) == q;
      MatroskaDivergesAtStart(packets, stream, q, j, desired, firstEof, fuel - 1);
    }
  }

  /** A successful `correctSeekToKeyFrame` leaves the read position on a
      key packet of the video stream at or before the target (MPEG, ASF and
      other formats), or, for Matroska, has first decoded a picture no later
      than the desired time and then sought back with the target in force
      after its retreats. */
  lemma CorrectSeekFound(s: DecoderState, ideal: int)
    requires Valid(s) && s.ok
    ensures var c := CorrectSeek(s, ideal);
      c.found && s.info.format != Matroska ==>
        c.pos < |s.packets| && s.packets[c.pos].key && s.packets[c.pos].stream == s.info.videoStream
    ensures var c := CorrectSeek(s, ideal);
      c.found && s.info.format == Matroska ==>
        exists j: int, n: nat ::
          && n <= s.retreatFuel && 0 <= j < |s.packets| && Completes(s.packets[j], s.info.videoStream)
          && s.packets[j].time <= MatroskaDesired(ideal, s.info)
          && c.pos == SeekOr(s.packets, s.info.videoStream, RetreatN(MatroskaTarget(ideal, s.info), n), Backward, j + 1)
    ensures var c := CorrectSeek(s, ideal);
      !c.found && s.info.format != Matroska ==> c.pos == s.pos
  {
    if s.info.format == Matroska {
      var info := s.info;
      var target := MatroskaTarget(ideal, info);
      var start := SeekOr(s.packets, info.videoStream, target, ByFrame, s.pos);
      MatroskaCorrectedAfterEarlyFrame(s.packets, info.videoStream, start, target,
                                       MatroskaDesired(ideal, info), true, s.retreatFuel);
    }
  }
}
