/** The integer logic of the main window: the time label `updateTime`
    shows, the value a page step of the video slider predicts, and the
    frame numbers the marker buttons hand to the markers widget, with -1
    meaning "no frame". */
module MainWindow {
  import opened CArith
  import opened Wrappers

  // ---------------------------------------------------------------------
  // The time label

  // Milliseconds in a second (1000), a minute (60000), an hour (3600000)
  // and a day (86400000) are written out as literals, so that products
  // with them stay linear for the verifier.

  /** The four fields of the time label. */
  datatype Clock = Clock(h: int, m: int, s: int, ms: int)

  /** `updateTime(time)`: milliseconds, seconds, minutes and hours, each
      taken with C's truncating `/` and `%`; the hours wrap every day. */
  function TimeFields(time: int): (c: Clock)
    ensures time >= 0 ==> 0 <= c.ms < 1000 && 0 <= c.s < 60 && 0 <= c.m < 60 && 0 <= c.h < 24
    ensures time < 0 ==> -1000 < c.ms <= 0 && -60 < c.s <= 0 && -60 < c.m <= 0 && -24 < c.h <= 0
  {
    Clock(Mod(Div(time, 3600000), 24), Mod(Div(time, 60000), 60),
          Mod(Div(time, 1000), 60), Mod(time, 1000))
  }

  /** The milliseconds a clock stands for. */
  function Total(c: Clock): int
  {
    c.h * 3600000 + c.m * 60000 + c.s * 1000 + c.ms
  }

  /** Division of a natural number is determined by quotient and
      remainder bounds. */
  lemma DivUnique(a: nat, b: int, q: int, r: int)
    requires b > 0 && a == q * b + r && 0 <= r < b
    ensures Div(a, b) == q && Mod(a, b) == r
  {
    var q' := Div(a, b);
    if q' < q {
      MulStep(q', q, b);
    } else if q' > q {
      MulStep(q, q', b);
    }
  }

  lemma {:induction false} MulStep(x: int, y: int, b: int)
    requires x < y && b > 0
    ensures x * b + b <= y * b
    decreases y - x
  {
    assert y * b == (y - 1) * b + b;
    if y - 1 > x {
      MulStep(x, y - 1, b);
    }
  }

  /** Dividing by `b` and then by `c` is dividing by `b * c`, and the
      remainders combine. */
  lemma {:induction false} NestedDiv(a: nat, b: int, c: int)
    requires b > 0 && c > 0
    ensures Div(Div(a, b), c) == Div(a, b * c)
    ensures Mod(a, b * c) == Mod(Div(a, b), c) * b + Mod(a, b)
  {
    var q1, r1 := Div(a, b), Mod(a, b);
    var q2, r2 := Div(q1, c), Mod(q1, c);
    assert a == q2 * (b * c) + (r2 * b + r1) by {
      assert q1 == q2 * c + r2;
      assert q1 * b == (q2 * c) * b + r2 * b;
      assert (q2 * c) * b == q2 * (b * c);
    }
    assert 0 <= r2 * b + r1 < b * c by {
      MulStep(r2, c, b);
      assert r2 * b >= 0;
    }
    DivUnique(a, b * c, q2, r2 * b + r1);
  }

  /** C's division and remainder are odd in the dividend. */
  lemma DivNegate(a: int, b: int)
    requires b > 0
    ensures Div(-a, b) == -Div(a, b) && Mod(-a, b) == -Mod(a, b)
  {
  }

  /** Within a day of either sign, the four fields give the time back. */
  lemma FieldsRecombine(time: int)
    requires -86400000 < time < 86400000
    ensures Total(TimeFields(time)) == time
  {
    if time >= 0 {
      FieldsRecombineNat(time);
    } else {
      FieldsRecombineNat(-time);
      FieldsNegate(-time);
    }
  }

  lemma FieldsRecombineNat(time: nat)
    requires time < 86400000
    ensures Total(TimeFields(time)) == time
  {
    var c := TimeFields(time);
    NestedDiv(time, 1000, 60);
    NestedDiv(time, 60000, 60);
    var hours := Div(time, 3600000);
    assert hours < 24 by {
      if hours >= 24 {
        MulStep(23, hours, 3600000);
      }
    }
    DivUnique(hours, 24, 0, hours);
    assert time == hours * 3600000 + Mod(time, 3600000);
  }

  /** A negative time shows the fields of its absolute value, negated. */
  lemma FieldsNegate(time: int)
    requires time >= 0
    ensures TimeFields(-time) == Clock(-TimeFields(time).h, -TimeFields(time).m, -TimeFields(time).s, -TimeFields(time).ms)
  {
    DivNegate(time, 3600000);
    DivNegate(Div(time, 3600000), 24);
    DivNegate(time, 60000);
    DivNegate(Div(time, 60000), 60);
    DivNegate(time, 1000);
    DivNegate(Div(time, 1000), 60);
  }

  /** The hours wrap: a time a day later shows the same label fields. */
  lemma {:induction false} FieldsWrapDaily(time: nat)
    ensures TimeFields(time + 86400000) == TimeFields(time)
  {
    var c := TimeFields(time);
    DivUnique(time + 86400000, 1000, Div(time, 1000) + 24 * 3600, Mod(time, 1000));
    DivUnique(time + 86400000, 60000, Div(time, 60000) + 24 * 60, Mod(time, 60000));
    DivUnique(time + 86400000, 3600000, Div(time, 3600000) + 24, Mod(time, 3600000));
    DivUnique(Div(time, 1000) + 24 * 3600, 60, Div(Div(time, 1000), 60) + 24 * 60, Mod(Div(time, 1000), 60));
    DivUnique(Div(time, 60000) + 24 * 60, 60, Div(Div(time, 60000), 60) + 24, Mod(Div(time, 60000), 60));
    DivUnique(Div(time, 3600000) + 24, 24, Div(Div(time, 3600000), 24) + 1, Mod(Div(time, 3600000), 24));
  }

  // ---------------------------------------------------------------------
  // Decimal text

  predicate IsDigit(ch: char)
  {
    '0' <= ch <= '9'
  }

  predicate AllDigits(s: string)
  {
    forall i :: 0 <= i < |s| ==> IsDigit(s[i])
  }

  function DigitChar(d: int): (ch: char)
    requires 0 <= d < 10
    ensures IsDigit(ch)
  {
    (48 + d) as char
  }

  function DigitValue(ch: char): int
  {
    ch as int - 48
  }

  /** The decimal digits of a natural number, most significant first,
      without leading zeros. */
  function Digits(n: nat): (s: string)
    ensures |s| >= 1 && AllDigits(s)
    decreases n
  {
    if n < 10 then [DigitChar(n)] else Digits(n / 10) + [DigitChar(n % 10)]
  }

  /** The number a string of digits spells. */
  function ValueOf(s: string): nat
    requires AllDigits(s)
    decreases |s|
  {
    if |s| == 0 then 0 else 10 * ValueOf(s[..|s| - 1]) + DigitValue(s[|s| - 1])
  }

  /** Reading the digits back gives the number. */
  lemma {:induction false} DigitsRoundTrip(n: nat)
    ensures ValueOf(Digits(n)) == n
    decreases n
  {
    if n >= 10 {
      DigitsRoundTrip(n / 10);
      var s := Digits(n);
      assert s[..|s| - 1] == Digits(n / 10);
    }
  }

  /** Numbers below 10, 100 and 1000 take at most one, two and three
      digits. */
  lemma DigitsLength(n: nat)
    ensures n < 10 ==> |Digits(n)| == 1
    ensures n < 100 ==> |Digits(n)| <= 2
    ensures n < 1000 ==> |Digits(n)| <= 3
  {
    if n >= 10 {
      DigitsLength(n / 10);
    }
  }

  /** `k` copies of the character zero. */
  function Zeros(k: int): (z: string)
    ensures |z| == if k > 0 then k else 0
    ensures AllDigits(z)
    decreases k
  {
    if k <= 0 then "" else Zeros(k - 1) + "0"
  }

  /** Leading zeros do not change the value. */
  lemma {:induction false} ZerosAddNothing(k: int, s: string)
    requires AllDigits(s)
    ensures ValueOf(Zeros(k) + s) == ValueOf(s)
    decreases |s|
  {
    var t := Zeros(k) + s;
    if |s| == 0 {
      assert t == Zeros(k);
      ZerosValue(k);
    } else {
      assert t[..|t| - 1] == Zeros(k) + s[..|s| - 1];
      ZerosAddNothing(k, s[..|s| - 1]);
    }
  }

  lemma {:induction false} ZerosValue(k: int)
    ensures ValueOf(Zeros(k)) == 0
    decreases k
  {
    if k > 0 {
      ZerosValue(k - 1);
      var z := Zeros(k);
      assert z[..|z| - 1] == Zeros(k - 1);
    }
  }

  /** `QString::number(n)`: the digits, after a minus sign when `n` is
      negative. */
  function Number(n: int): string
  {
    if n < 0 then "-" + Digits(-n) else Digits(n)
  }

  /** `QString("%1").arg(n, width, 10, QChar('0'))`: the number filled
      with zeros, after the sign, up to `width` characters. */
  function ZeroPadded(n: int, width: nat): (r: string)
    ensures |r| >= width
  {
    if n < 0 then "-" + Zeros(width - 1 - |Digits(-n)|) + Digits(-n)
    else Zeros(width - |Digits(n)|) + Digits(n)
  }

  /** The text `updateTime(time)` puts in the label, as `h:mm:ss mmm`. */
  function TimeLabel(time: int): string
  {
    ClockLabel(TimeFields(time))
  }

  function ClockLabel(c: Clock): string
  {
    Number(c.h) + ":" + ZeroPadded(c.m, 2) + ":" + ZeroPadded(c.s, 2) + " " + ZeroPadded(c.ms, 3)
  }

  /** The four fields of a label's text. */
  datatype LabelText = LabelText(h: string, m: string, s: string, ms: string)

  predicate Numeric(f: LabelText)
  {
    AllDigits(f.h) && AllDigits(f.m) && AllDigits(f.s) && AllDigits(f.ms)
  }

  /** The milliseconds the digits of a label stand for. */
  function Millis(f: LabelText): int
    requires Numeric(f)
  {
    ValueOf(f.h) * 3600000 + ValueOf(f.m) * 60000 + ValueOf(f.s) * 1000 + ValueOf(f.ms)
  }

  /** The fields of a text of the layout `h:mm:ss mmm`: the hours before
      the first colon, then two characters of minutes, two of seconds
      after a colon and three of milliseconds after a space. */
  function Layout(l: string): Option<LabelText>
  {
    if |l| < 11 then None
    else
      var rest := l[|l| - 10..];
      if rest[0] != ':' || rest[3] != ':' || rest[6] != ' ' then None
      else Some(LabelText(l[..|l| - 10], rest[1..3], rest[4..6], rest[7..]))
  }

  /** A label read back as a time, when its fields are all digits. */
  function ParseLabel(l: string): Option<int>
  {
    var f := Layout(l);
    if f.None? || !Numeric(f.value) then None else Some(Millis(f.value))
  }

  /** A padded field of a natural number is all digits of the given width
      and reads back as the number. */
  lemma PaddedField(n: nat, width: nat)
    requires |Digits(n)| <= width
    ensures |ZeroPadded(n, width)| == width && AllDigits(ZeroPadded(n, width))
    ensures ValueOf(ZeroPadded(n, width)) == n
  {
    ZerosAddNothing(width - |Digits(n)|, Digits(n));
    DigitsRoundTrip(n);
  }

  /** Where the fields of a text of the layout `h:mm:ss mmm` sit. */
  lemma LayoutPieces(h: string, m: string, s: string, ms: string)
    requires |m| == 2 && |s| == 2 && |ms| == 3
    ensures var l := h + ":" + m + ":" + s + " " + ms;
      var rest := l[|l| - 10..];
      && |l| == |h| + 10 && l[..|l| - 10] == h
      && rest[0] == ':' && rest[3] == ':' && rest[6] == ' '
      && rest[1..3] == m && rest[4..6] == s && rest[7..] == ms
  {
    var l := h + ":" + m + ":" + s + " " + ms;
    assert forall i :: 0 <= i < |h| ==> l[i] == h[i];
    var rest := l[|l| - 10..];
    assert forall i :: 0 <= i < 2 ==> rest[1 + i] == m[i] && rest[4 + i] == s[i];
    assert forall i :: 0 <= i < 3 ==> rest[7 + i] == ms[i];
  }

  /** Any text of the layout `h:mm:ss mmm` made of digits reads back as
      the time its fields stand for. */
  lemma ParseLayout(h: string, m: string, s: string, ms: string)
    requires |h| >= 1 && |m| == 2 && |s| == 2 && |ms| == 3
    requires AllDigits(h) && AllDigits(m) && AllDigits(s) && AllDigits(ms)
    ensures ParseLabel(h + ":" + m + ":" + s + " " + ms) == Some(Millis(LabelText(h, m, s, ms)))
  {
    LayoutPieces(h, m, s, ms);
    assert Layout(h + ":" + m + ":" + s + " " + ms) == Some(LabelText(h, m, s, ms));
  }

  /** A clock with fields in range is shown as `h:mm:ss mmm` and reads
      back as the milliseconds it stands for. */
  lemma ClockRoundTrip(c: Clock)
    requires 0 <= c.h && 0 <= c.m < 60 && 0 <= c.s < 60 && 0 <= c.ms < 1000
    ensures ParseLabel(ClockLabel(c)) == Some(Total(c))
  {
    ClockFieldTexts(c);
    ParseLayout(Number(c.h), ZeroPadded(c.m, 2), ZeroPadded(c.s, 2), ZeroPadded(c.ms, 3));
  }

  /** The texts of the fields of a clock in range: digits of the widths
      the layout expects, reading back as the fields. */
  lemma ClockFieldTexts(c: Clock)
    requires 0 <= c.h && 0 <= c.m < 60 && 0 <= c.s < 60 && 0 <= c.ms < 1000
    ensures |Number(c.h)| >= 1 && AllDigits(Number(c.h)) && ValueOf(Number(c.h)) == c.h
    ensures |ZeroPadded(c.m, 2)| == 2 && AllDigits(ZeroPadded(c.m, 2)) && ValueOf(ZeroPadded(c.m, 2)) == c.m
    ensures |ZeroPadded(c.s, 2)| == 2 && AllDigits(ZeroPadded(c.s, 2)) && ValueOf(ZeroPadded(c.s, 2)) == c.s
    ensures |ZeroPadded(c.ms, 3)| == 3 && AllDigits(ZeroPadded(c.ms, 3)) && ValueOf(ZeroPadded(c.ms, 3)) == c.ms
  {
    DigitsLength(c.m);
    DigitsLength(c.s);
    DigitsLength(c.ms);
    PaddedField(c.m, 2);
    PaddedField(c.s, 2);
    PaddedField(c.ms, 3);
    DigitsRoundTrip(c.h);
  }

  /** Within a day the label reads back as the time it shows. */
  lemma LabelRoundTrip(time: int)
    requires 0 <= time < 86400000
    ensures ParseLabel(TimeLabel(time)) == Some(time)
  {
    ClockRoundTrip(TimeFields(time));
    FieldsRecombine(time);
  }

  // ---------------------------------------------------------------------
  // The video slider

  /** What a slider action does: nothing, a reset to 0 when no video is
      loaded, or a seek to the slider value it predicts. */
  datatype SliderEffect = Ignored | ResetToZero | SeekTo(value: int)

  const PageAdd: int := 3
  const PageSubtract: int := 4

  /** `on_videoSlider_actionTriggered(action)`: only the two page-step
      actions act; the predicted value is one page away from the current
      one, kept below `maxVal` but not above zero. */
  function PageStep(action: int, loaded: bool, value: int, pageStep: int, maxVal: int): (e: SliderEffect)
  {
    if action != PageAdd && action != PageSubtract then Ignored
    else if !loaded then ResetToZero
    else
      var v := value + (if action == PageAdd then 1 else -1) * pageStep;
      SeekTo(if v >= maxVal then maxVal - 1 else v)
  }

  /** The cases of a slider action, and the value a page step seeks to:
      never `maxVal` or above, one page away whenever that is below
      `maxVal`, and unclamped below. */
  lemma PageStepCases(action: int, loaded: bool, value: int, pageStep: int, maxVal: int)
    ensures var e := PageStep(action, loaded, value, pageStep, maxVal);
      && (e == Ignored <==> action != PageAdd && action != PageSubtract)
      && (e == ResetToZero <==> (action == PageAdd || action == PageSubtract) && !loaded)
      && (e.SeekTo? ==> e.value < maxVal)
      && (e.SeekTo? && action == PageAdd ==> e.value == Min(value + pageStep, maxVal - 1))
      && (e.SeekTo? && action == PageSubtract && value - pageStep < maxVal ==> e.value == value - pageStep)
  {
  }

  function Min(a: int, b: int): int
  {
    if a <= b then a else b
  }

  /** A later slider position never predicts an earlier target. */
  lemma PageStepMonotone(action: int, value1: int, value2: int, pageStep: int, maxVal: int)
    requires action == PageAdd || action == PageSubtract
    requires value1 <= value2
    ensures PageStep(action, true, value1, pageStep, maxVal).value <= PageStep(action, true, value2, pageStep, maxVal).value
  {
  }

  /** Paging down from the start predicts a negative slider value. */
  lemma PageDownHasNoLowerClamp(pageStep: int, maxVal: int)
    requires 0 < pageStep && 0 < maxVal
    ensures PageStep(PageSubtract, true, 0, pageStep, maxVal) == SeekTo(-pageStep)
  {
  }

  // ---------------------------------------------------------------------
  // The marker buttons

  /** The frame number -1 stands for "no frame". */
  const NoFrame: int := -1

  /** `on_startMarkerBtn_clicked()`: the (end, start) pair for
      `endAndStartMarker`. An open marker is ended on the current frame
      and a new one starts on the next; otherwise only a start is given. */
  function StartMarkerArgs(markerStarted: bool, frame: int): (int, int)
  {
    if markerStarted then (frame, frame + 1) else (NoFrame, frame)
  }

  /** `on_endMarkerBtn_clicked()`: an end on the current frame, no start. */
  function EndMarkerArgs(frame: int): (int, int)
  {
    (frame, NoFrame)
  }

  /** How the markers widget reads a frame argument. */
  function FrameArg(x: int): Option<int>
  {
    if x == NoFrame then None else Some(x)
  }

  /** For a real frame number (never negative) the -1 encoding is read
      back as intended: the start button ends an open marker on the
      current frame and starts the next on the following frame, or only
      starts one; the end button only ends one. */
  lemma MarkerArgsDecode(markerStarted: bool, frame: int)
    requires frame >= 0
    ensures var (e, s) := StartMarkerArgs(markerStarted, frame);
      && FrameArg(e) == (if markerStarted then Some(frame) else None)
      && FrameArg(s) == Some(if markerStarted then frame + 1 else frame)
    ensures FrameArg(EndMarkerArgs(frame).0) == Some(frame) && FrameArg(EndMarkerArgs(frame).1) == None
  {
  }

  /** A current frame number of -1 (what `getActualFrameNumber` gives
      when no video is loaded, `Decoder.VideoDecoder.GetActualFrameNumber`;
      the player widget in between is not part of this model) is passed
      on by the start button as "no start". */
  lemma StartOnNoFrameStartsNothing()
    ensures FrameArg(StartMarkerArgs(false, NoFrame).1) == None
    ensures FrameArg(StartMarkerArgs(true, NoFrame).1) == Some(0)
  {
  }
}
