# Video decoder seeking and marker comparison, in Dafny

This project models three parts of a Qt video-marking tool and proves
what they promise.

- **The frame-seek engine of `QVideoDecoder`.** The decoder keeps a
  two-entry window of the last decoded frames (`LastFrameOk`,
  `LastFrameNumber`/`LastFrameTime`, `LastLastFrameNumber`/`LastLastFrameTime`)
  and the last requested frame (`LastIdealFrameNumber`). `openFile` resets
  them. `decodeSeekFrame` decodes forward until the window reaches the
  requested frame. `seekFrame` chooses between the next-frame fast path,
  the window, and a repositioning of the container through
  `correctSeekToKeyFrame`. For Matroska files, that correction retreats by
  3000 timestamp units until the first decoded picture is early enough.
  - The container is a sequence of packets and a read position.
  - Each packet carries its stream, whether decoding it completes a
    picture, a key flag, its timestamp, and the frame number and
    millisecond time the decoder derives for it.
  - A container seek moves the read position to the last key packet of
    the video stream within the requested range.
  - `seek_model.dfy` gives the behaviour as pure functions of a
    `DecoderState`.
  - `video_decoder.dfy` gives the class with its fields updated in place.
    Every method is proved to move the fields exactly as the matching
    function says.
  - `seek_lemmas.dfy` proves the properties.
- **`CompareMarkersDialog`.** Two files of `"start, end"` marker lines are
  flattened into start/end sequences. They are walked with one cursor per
  file and written side by side into two panes.
  - A pane is a sequence of rows: a plain line, a bold line with a
    background colour, or an empty block.
  - `setBckCol` rotates a five-colour palette in place.
  - `marker_text.dfy` holds the splitting of a line, `QList::value`
    behind a `char` line index, and the palette.
  - `compare_markers.dfy` holds the dialog class and the walk.
- **`mainwindow.cpp` integer logic** (`main_window.dfy`):
  - the `h:mm:ss mmm` time label;
  - the page-step value the slider predicts;
  - the `(end, start)` pairs the marker buttons hand on, with -1 for
    "none".

`c_arith.dfy` gives C++'s truncating `/` and `%`, `round`, `std::abs` and
the narrowing of an `int` to a signed `char`. `wrappers.dfy` gives `Option`.

Where the code departs from what its comments and design describe, the
model follows the code:

- **The `seekFrame` window.** `seekFrame` tests a half-open window, while
  the cache hit in `decodeSeekFrame` tests a closed one. A request for the
  window's lower frame still repositions
  (`SeekLemmas.ExactFrameRequestedAgainRepositions`). The first picture
  decoded after a repositioning fills both entries of the window, so from
  that window every request other than the next frame repositions
  (`SeekLemmas.CollapsedWindowAlwaysRepositions`).
- **A failed key-frame seek.** It returns false without clearing
  `LastFrameOk`.
- **An unknown stream start time.** `openFile` then resets `firstDts`,
  not `startTs` (QVideoDecoder.cpp:226-228).
- **A failed re-open.** `openFile` never sets `ok` to false, so a decoder
  whose re-open fails still reports itself loaded. What the model keeps
  of it is an abstraction, listed under "Left out".

## Model

| member | source | states |
|---|---|---|
| CArith.Div | mainwindow.cpp:193-196 | C++ `/` truncates toward zero: the quotient times the divisor lies between 0 and the dividend, less than one divisor away |
| CArith.Mod | mainwindow.cpp:193-196 | C++ `%` completes `Div` (`a == Div(a,b)*b + r`) and takes the sign of the dividend, with magnitude below the divisor |
| CArith.RoundDiv | QVideoDecoder.cpp:635-642 | `round(a/b)` is within half a unit of the exact quotient; an exact half rounds away from zero; a non-negative dividend gives a non-negative result |
| CArith.ToChar | CompareMarkersDialog.cpp:357-375 | the `char nline` parameter holds a value in [-128, 128) congruent to the `int` passed, modulo 256 |
| CArith.Abs | CompareMarkersDialog.cpp:184 | `std::abs` gives the value or its negation, never negative |
| SeekModel.FormatOf | QVideoDecoder.cpp:439-528 | the MPEG, ASF and Matroska paths are taken exactly for the format names "mpeg", "asf" and "matroska,webm" |
| SeekModel.FirstVideo | QVideoDecoder.cpp:156-164 | the index of the first video stream, or -1 exactly when there is none |
| SeekModel.CorrectedCodecDen | QVideoDecoder.cpp:180-181 | the codec time-base denominator changes only for a numerator above 1000 over 1, and then to 1000 |
| SeekModel.SeekTarget | QVideoDecoder.cpp:529-533 | a container seek lands on the last key packet of the video stream in range, and fails exactly when there is none |
| SeekModel.SeekOr | QVideoDecoder.cpp:465 | the seek whose failure the Matroska path ignores keeps the read position within the container |
| SeekModel.Shift | QVideoDecoder.cpp:295-306 | after a decoded picture the window holds a frame, and its last entry is that picture's number and time |
| SeekModel.DecodeLoop | QVideoDecoder.cpp:263-339 | the forward decode only moves the read position forward and stays within the container |
| SeekModel.DecodeSeek | QVideoDecoder.cpp:247-341 | `decodeSeekFrame` keeps the state well formed and never repositions |
| SeekModel.SeekNext | QVideoDecoder.cpp:350-359 | `seekNextFrame` keeps the state well formed and never repositions |
| SeekModel.Retreat | QVideoDecoder.cpp:480-482 | one retreat gives a non-negative target, lower than a positive target, exactly 3000 lower when the target is at least 3000 |
| SeekModel.MatroskaLoop | QVideoDecoder.cpp:472-521 | the correction loop ends with a read position within the container |
| SeekModel.MpegDesired | QVideoDecoder.cpp:443-444 | the MPEG seek target is never below `firstDts` |
| SeekModel.SeekFile | QVideoDecoder.cpp:529-535 | `avformat_seek_file` leaves the read position within the container |
| SeekModel.CorrectSeek | QVideoDecoder.cpp:434-536 | `correctSeekToKeyFrame` leaves the read position within the container |
| SeekModel.SeekFrame | QVideoDecoder.cpp:400-423 | `seekFrame` keeps the state well formed |
| SeekModel.SeekPrev | QVideoDecoder.cpp:368-375 | `seekPrevFrame` keeps the state well formed |
| SeekLemmas.SeekPrevRepositionsIffOutsideWindow | QVideoDecoder.cpp:368-375 | `seekPrevFrame` repositions exactly when loaded and the window does not cover the frame before the ideal one; a failure clears the frame flag; inside the window it returns true and changes nothing (the ideal frame is not lowered); a repositioning that finds its key frame sets the ideal frame to the one asked for |
| SeekModel.FrameAtMs | QVideoDecoder.cpp:641 | the frame nearest a time, `round(tsms / frameMSec)`, is never negative |
| SeekModel.SeekMs | QVideoDecoder.cpp:384-389 | `seekMs` keeps the state well formed |
| SeekModel.Open | QVideoDecoder.cpp:132-236 | `openFile` keeps the state well formed |
| Decoder.FindFirstVideoStream | QVideoDecoder.cpp:156-164 | the scan returns the first video stream's index, or -1 exactly when no stream is video |
| Decoder.LengthMsIsTruncatedMillis | QVideoDecoder.cpp:649-657 | whole seconds times 1000 plus the truncated milliseconds of the rest is the duration in µs divided by 1000, truncated |
| Decoder.VideoDecoder.constructor | QVideoDecoder.cpp:37-41 | a new decoder has nothing loaded, the fresh window and no picture |
| Decoder.VideoDecoder.WithFile | QVideoDecoder.cpp:46-52 | a decoder built on a file is loaded exactly when every step of the open succeeds, with the file's stream information and packets |
| Decoder.VideoDecoder.Close | QVideoDecoder.cpp:99-123 | a loaded decoder releases its container (`SeekModel.Close`); nothing else changes |
| Decoder.VideoDecoder.OpenFile | QVideoDecoder.cpp:132-236 | the fields and the return value are those of `SeekModel.Open` |
| Decoder.VideoDecoder.DecodeSeekFrame | QVideoDecoder.cpp:247-341 | the decode loop leaves the fields and returns exactly as `SeekModel.DecodeSeek` |
| Decoder.VideoDecoder.DecodeStep | QVideoDecoder.cpp:265-337 | one read of the loop: fails at end of stream or on a failed conversion, stops at the first picture reaching the target, and otherwise keeps the rest of the decode leading where the whole loop does |
| Decoder.VideoDecoder.ShiftWindow | QVideoDecoder.cpp:295-306 | the window fields move as `SeekModel.Shift` |
| Decoder.VideoDecoder.SeekNextFrame | QVideoDecoder.cpp:350-359 | fields and return value as `SeekModel.SeekNext` |
| Decoder.VideoDecoder.SeekPrevFrame | QVideoDecoder.cpp:368-375 | fields and return value as `SeekModel.SeekPrev` |
| Decoder.VideoDecoder.SeekMs | QVideoDecoder.cpp:384-389 | fields and return value as `SeekModel.SeekMs` |
| Decoder.VideoDecoder.SeekFrame | QVideoDecoder.cpp:400-423 | fields and return value as `SeekModel.SeekFrame` |
| Decoder.VideoDecoder.CorrectSeekToKeyFrame | QVideoDecoder.cpp:434-536 | the Matroska retreat loop and the other paths leave the read position and return as `SeekModel.CorrectSeek` |
| Decoder.VideoDecoder.SeekToAndGetFrame | QVideoDecoder.cpp:547-552 | the seek moves the state as `SeekModel.SeekFrame`; on failure false, otherwise the last picture, its number and time, and `LastFrameOk` |
| Decoder.VideoDecoder.GetFrame | QVideoDecoder.cpp:578-588 | hands out the last picture, its frame number and time, and returns `LastFrameOk` |
| Decoder.VideoDecoder.GetActualFrameNumber | QVideoDecoder.cpp:597-602 | -1 while nothing is loaded, otherwise the last decoded frame number |
| Decoder.VideoDecoder.GetIdealFrameNumber | QVideoDecoder.cpp:611-616 | -1 while nothing is loaded, otherwise the last requested frame number |
| Decoder.VideoDecoder.GetFrameTime | QVideoDecoder.cpp:623-628 | -1 while nothing is loaded, otherwise the last decoded frame time |
| Decoder.VideoDecoder.GetNumFrameByTime | QVideoDecoder.cpp:635-642 | 0 while nothing is loaded or for a time not above 0, otherwise the nearest frame; never negative |
| Decoder.VideoDecoder.GetVideoLengthMs | QVideoDecoder.cpp:649-657 | -1 while nothing is loaded, otherwise the duration in µs divided by 1000, truncated |
| SeekLemmas.ReplayIgnoresOtherPackets | QVideoDecoder.cpp:270-276 | packets of other streams, and packets that complete no picture, leave the window unchanged |
| SeekLemmas.ReplayAppend | QVideoDecoder.cpp:263-339 | decoding two runs of packets is decoding the first, then the second |
| SeekLemmas.ReplayLastLast | QVideoDecoder.cpp:295-306 | after a run of packets the window's last entry is the last picture, and the entry before it is the picture decoded before it (or the old last entry) |
| SeekLemmas.DecodeLoopSpec | QVideoDecoder.cpp:263-339 | the decode stops at the first picture reaching the target and succeeds exactly when one exists and converts; with no such picture it reads to end of stream |
| SeekLemmas.DecodeLoopReplays | QVideoDecoder.cpp:263-339 | the window the decode leaves is the replay of the packets it read |
| SeekLemmas.DecodeSeekReachesIdeal | QVideoDecoder.cpp:247-341 | `decodeSeekFrame` returns true only with a frame at or past the target in the window, whose picture is `LastFrame`; a false after decoding means end of stream or no conversion |
| SeekLemmas.NotLoadedChangesNothing | QVideoDecoder.cpp:384-403 | with nothing loaded, `decodeSeekFrame`, `seekFrame` and `seekMs` return false and change nothing |
| SeekLemmas.CacheHitChangesNothing | QVideoDecoder.cpp:256-261 | a request inside the closed window returns true with no read and no change |
| SeekLemmas.OpenResets | QVideoDecoder.cpp:132-236 | `openFile` resets the window and the ideal frame number whether or not it succeeds, reports success exactly when every step succeeds, and never clears `ok` |
| SeekLemmas.SequentialRequestNeverRepositions | QVideoDecoder.cpp:350-407 | a request for the next frame is `seekNextFrame`: no repositioning, the ideal frame steps by one on success, the window is emptied on failure |
| SeekLemmas.RepositionsIffOutsideWindow | QVideoDecoder.cpp:409-422 | any other request repositions exactly outside the half-open window; otherwise the ideal frame is kept; a failed key-frame seek returns false and keeps the window |
| SeekLemmas.ExactFrameRequestedAgainRepositions | QVideoDecoder.cpp:409-411 | a request for the window's lower frame is a cache hit for `decodeSeekFrame` yet makes `seekFrame` reposition |
| SeekLemmas.CollapsedWindowAlwaysRepositions | QVideoDecoder.cpp:409-411 | with both window entries on one frame number, every request other than the next frame repositions |
| SeekLemmas.SequentialSeriesNeverRepositions | QVideoDecoder.cpp:405-407 | consecutive requests continuing from the last requested frame never reposition |
| SeekLemmas.SeriesRepositionsAtMostOnce | QVideoDecoder.cpp:400-422 | consecutive requests starting outside the window reposition at most once |
| SeekLemmas.RetreatNLowers | QVideoDecoder.cpp:505-507 | `n` retreats lower the Matroska target by 3000 each, floored at 0 |
| SeekLemmas.MatroskaCorrectedAfterEarlyFrame | QVideoDecoder.cpp:472-521 | a Matroska correction succeeds only after decoding a picture no later than the desired time, and leaves the read position just after it in the container as last sought (the target lowered by the retreats taken); when no retreat was taken, that picture is the first completed one from the starting position |
| SeekLemmas.MatroskaSkipsOtherPackets | QVideoDecoder.cpp:491-497 | packets that complete no picture are read past without effect |
| SeekLemmas.SecondEndOfStreamFails | QVideoDecoder.cpp:474-489 | once `firstEOF` is spent, end of stream ends the correction with failure |
| SeekLemmas.MatroskaDivergesAtStart | QVideoDecoder.cpp:472-521 | with the target at 0 and the first picture still too late, every retreat returns to the same place, so any number of retreats runs out |
| SeekLemmas.CorrectSeekFound | QVideoDecoder.cpp:434-536 | a successful correction leaves the read position on a video key packet (MPEG, ASF, others), or (Matroska) just after an early enough picture in the container as last sought; a failed one outside Matroska keeps the position |
| MarkerText.Split | CompareMarkersDialog.cpp:377-383 | splitting at ", " always gives at least one part |
| MarkerText.JoinSplit | CompareMarkersDialog.cpp:377-383 | joining the parts with ", " gives the line back |
| MarkerText.SplitPartsHaveNoSep | CompareMarkersDialog.cpp:377-383 | no part contains the separator |
| MarkerText.SplitTwoFields | CompareMarkersDialog.cpp:377-383 | a line of two comma-free fields splits into exactly those fields |
| MarkerText.Value | CompareMarkersDialog.cpp:357-375 | `QList::value` gives the element at an index in range and "" outside |
| MarkerText.SplitListFields | CompareMarkersDialog.cpp:377-383 | `splitList` gives the start and end of a well-formed line and "" for a missing field |
| MarkerText.ShownLineNarrowing | CompareMarkersDialog.cpp:357-375 | line indices below 128 show their line, 128 to 255 show "", and from 256 they wrap round |
| MarkerText.RotatePermutes | CompareMarkersDialog.cpp:397-403 | one `setBckCol` keeps every colour and its count |
| MarkerText.RotateNPermutes | CompareMarkersDialog.cpp:397-403 | any number of rotations keeps every colour and its count |
| MarkerText.RotateNSplice | CompareMarkersDialog.cpp:397-403 | up to a full turn, `k` rotations move the first `k` colours to the back in order |
| MarkerText.FullTurnRestoresPalette | CompareMarkersDialog.cpp:385-403 | five calls of `setBckCol` after `fillCol` restore lightGray, red, cyan, magenta, yellow |
| MarkerText.NthBackground | CompareMarkersDialog.cpp:385-403 | the `n`-th call hands out palette colour `n mod 5` |
| MarkerText.ConsecutiveBackgroundsDiffer | CompareMarkersDialog.cpp:385-403 | five consecutive calls hand out five different colours |
| CompareMarkers.FlattenLines | CompareMarkersDialog.cpp:130-131 | a file flattens to `Flat` of its lines: the start and end field of each line, in order, converted by `fieldValue` |
| CompareMarkers.CompareMarkersDialog.constructor | CompareMarkersDialog.cpp:19-43 | the dialog starts with empty lists and panes and the `fillCol` palette |
| CompareMarkers.CompareMarkersDialog.FillCol | CompareMarkersDialog.cpp:385-395 | the palette is lightGray, red, cyan, magenta, yellow |
| CompareMarkers.CompareMarkersDialog.SetBckCol | CompareMarkersDialog.cpp:397-403 | bold text takes the head colour, which moves to the back of the palette |
| CompareMarkers.CompareMarkersDialog.C1BWrite | CompareMarkersDialog.cpp:357-360 | appends the bold line `nline` of file 1 to pane 1 |
| CompareMarkers.CompareMarkersDialog.C1TWrite | CompareMarkersDialog.cpp:362-365 | appends the plain line `nline` of file 1 to pane 1 |
| CompareMarkers.CompareMarkersDialog.C2BWrite | CompareMarkersDialog.cpp:367-370 | appends the bold line `nline` of file 2 to pane 2 |
| CompareMarkers.CompareMarkersDialog.C2TWrite | CompareMarkersDialog.cpp:372-375 | appends the plain line `nline` of file 2 to pane 2 |
| CompareMarkers.CompareMarkersDialog.AddCursorBlock | CompareMarkersDialog.cpp:340-354 | one pane gets marker `i` in bold, the other an empty block, chosen by `cond` |
| CompareMarkers.CompareMarkersDialog.WritePair | CompareMarkersDialog.cpp:146-156 | both markers go on the same line, the file-1 marker on the left whichever file is shorter |
| CompareMarkers.CompareMarkersDialog.AbsorbOne | CompareMarkersDialog.cpp:190-200 | one pass of the absorb loop: the block of the next marker, the cursor two further, the differences recomputed for the marker after it, and a read past the list end reported |
| CompareMarkers.CompareMarkersDialog.AbsorbCloser | CompareMarkersDialog.cpp:179-233 | after a same-start pair, the other file's following markers go in as blocks exactly while their end is closer to the longer-lasting marker's end than to its file's next start (`in_diff < end_diff`), stopping at the first that is not or at the list's last marker; none when that end does not pass the next start; a read past a list end is reported |
| CompareMarkers.CompareMarkersDialog.AbsorbOverlapped | CompareMarkersDialog.cpp:294-310 | the longer file's following markers go in as blocks exactly while each starts more than the overlap before the shorter marker's end (`in_diff < end_diff`), stopping at the first that does not; a read past the list end is reported |
| CompareMarkers.CompareMarkersDialog.AbsorbSameStart | CompareMarkersDialog.cpp:174-233 | after a same-start pair, the longer-lasting marker absorbs exactly the other file's markers that end closer to its end than to its file's next start, as blocks on their own side; the cursors move on by whole markers |
| CompareMarkers.CompareMarkersDialog.StepSameStart | CompareMarkersDialog.cpp:166-235 | same start, different ends: a bold pair with file 1's line `i_min/2` left and file 2's `i_max/2` right (no swap), one colour taken, then the blocks of exactly the markers the longer-lasting one absorbs |
| CompareMarkers.CompareMarkersDialog.SameStartRows | CompareMarkersDialog.cpp:166-235 | the same-start case adds equally many rows to both panes and moves a cursor forward |
| CompareMarkers.CompareMarkersDialog.StepContained | CompareMarkersDialog.cpp:243-255 | a contained marker gives one bold pair and moves both cursors by one marker |
| CompareMarkers.CompareMarkersDialog.StepDisjoint | CompareMarkersDialog.cpp:259-273 | disjoint markers: the earlier one in bold against a block, and the other cursor is held |
| CompareMarkers.CompareMarkersDialog.StepOverlap | CompareMarkersDialog.cpp:276-312 | overlapping markers: a bold pair, then, when the next marker starts more than the overlap before the shorter marker's end, blocks of exactly the markers that do so |
| CompareMarkers.CompareMarkersDialog.StepDifferentStart | CompareMarkersDialog.cpp:238-315 | every different-start case takes one colour, grows both panes equally and moves a cursor forward; a shorter-file marker starting at or after the longer one's end (and not empty) puts the longer one alone in bold, in the colour taken, and holds the shorter cursor |
| CompareMarkers.CompareMarkersDialog.CompareStep | CompareMarkersDialog.cpp:143-317 | equal markers give one plain pair with no colour taken; a longer-file marker wholly before the shorter one gives its bold line alone in the colour taken; every step keeps the panes aligned and moves a cursor forward |
| CompareMarkers.CompareMarkersDialog.WriteMaxMarker | CompareMarkersDialog.cpp:331-332 | the longer file's marker goes in bold on its own pane; the other pane is unchanged |
| CompareMarkers.CompareMarkersDialog.WriteTailMarker | CompareMarkersDialog.cpp:330-333 | one remaining marker: a colour is taken, and becomes the bold background, only when it starts after the shorter file's last end; otherwise the background is unchanged; its bold line is then written in that background |
| CompareMarkers.CompareMarkersDialog.WriteRemainingMax | CompareMarkersDialog.cpp:326-335 | every remaining marker of the longer file goes in bold on its own pane, showing consecutive lines; the palette turns once per marker starting after the last end, and each row's background is the colour taken for the last such marker up to it (or the earlier background); an empty shorter file is a read out of range |
| CompareMarkers.CompareMarkersDialog.WalkStep | CompareMarkersDialog.cpp:140-318 | one pass of the walk keeps `Walked`: shared-prefix files stay aligned on plain pairs, and a file with one marker inserted is aligned up to it or past it |
| CompareMarkers.CompareMarkersDialog.WalkCommon | CompareMarkersDialog.cpp:140-318 | while both files have markers the panes grow in step and the walk ends at a list end or an out-of-range read; when the shorter file's markers start the longer file it writes one plain pair per marker and takes no colour; when the longer file has one marker inserted ending by the next start, it writes plain pairs, that marker alone in bold in the first colour, then plain pairs shifted by one marker |
| CompareMarkers.CompareMarkersDialog.FlattenBoth | CompareMarkersDialog.cpp:127-137 | the shorter file (file 1 on a tie) is the min side; each side is `Flat` of its file's lines |
| CompareMarkers.CompareMarkersDialog.WriteRest | CompareMarkersDialog.cpp:326-336 | after the walk, only the longer file's pane grows, and only with bold lines |
| CompareMarkers.CompareMarkersDialog.CompareFlattened | CompareMarkersDialog.cpp:140-336 | the shorter file's pane holds the common rows only; the longer one's holds as many, then bold lines; the shared-prefix and inserted-marker layouts hold (`KnownLayouts`), equal files adding nothing after the common rows and taking no colour |
| CompareMarkers.CompareMarkersDialog.CompareDifferent | CompareMarkersDialog.cpp:119-338 | `compare_differentF`: empty files write nothing; an empty shorter file against a non-empty one reads out of range; otherwise the panes align, then the longer file's rest in bold; `KnownLayouts` holds of the flattened files |
| CompareMarkers.CompareMarkersDialog.Compare | CompareMarkersDialog.cpp:51-81 | `on_compareBtn_clicked` with both files read: the panes restart empty and hold exactly the comparison's rows; files that agree line for line up to the shorter one's length show each shared line plain on both panes at the same row, and identical files give exactly those rows with no colour taken; a file with one disjoint marker inserted gives the inserted-marker layout |
| CompareMarkers.SharedLinesPlain | CompareMarkersDialog.cpp:140-156 | shared lines appear plain, side by side, at their own row; equal files take no colour and leave nothing after |
| CompareMarkers.FlatPrefix | CompareMarkersDialog.cpp:130-131 | the first `n` lines of a file flatten to the first `2n` values |
| MainWindow.TimeFields | mainwindow.cpp:193-196 | for a non-negative time the fields are ms < 1000, s < 60, m < 60, h < 24; for a negative one each lies in the mirrored range |
| MainWindow.FieldsRecombine | mainwindow.cpp:193-196 | within a day of either sign the four fields give the time back |
| MainWindow.FieldsNegate | mainwindow.cpp:193-196 | a negative time gives the negated fields of its absolute value |
| MainWindow.FieldsWrapDaily | mainwindow.cpp:196 | hours are taken modulo 24, so a time a day later gives the same fields |
| MainWindow.DigitsRoundTrip | mainwindow.cpp:198 | `QString::number` of a natural number reads back as that number |
| MainWindow.ZeroPadded | mainwindow.cpp:199-201 | a zero-padded field is at least its width long |
| MainWindow.PaddedField | mainwindow.cpp:199-201 | a natural number that fits is padded to exactly its width with digits that read back as the number |
| MainWindow.ParseLayout | mainwindow.cpp:197-202 | any `h:mm:ss mmm` text of digits reads back field by field |
| MainWindow.ClockRoundTrip | mainwindow.cpp:197-202 | a clock with fields in range is shown as `h:mm:ss mmm` and reads back as its milliseconds |
| MainWindow.ClockFieldTexts | mainwindow.cpp:197-202 | hours unpadded, minutes and seconds two digits, milliseconds three, each reading back as its field |
| MainWindow.LabelRoundTrip | mainwindow.cpp:191-203 | within a day the label reads back as the time it shows |
| MainWindow.PageStepCases | mainwindow.cpp:353-361 | only actions 3 and 4 act; with no video the slider resets to 0; the prediction is one page away, kept below `sliderMaxVal`, with no lower clamp |
| MainWindow.PageStepMonotone | mainwindow.cpp:359-361 | a later slider position never predicts an earlier value |
| MainWindow.PageDownHasNoLowerClamp | mainwindow.cpp:359-361 | paging down from 0 predicts a negative value |
| MainWindow.MarkerArgsDecode | mainwindow.cpp:406-420 | start with a marker open gives (frame, frame+1), start with none gives (none, frame), end gives (frame, none) |
| MainWindow.StartOnNoFrameStartsNothing | mainwindow.cpp:406-414 | a current frame number of -1 (the decoder's answer when nothing is loaded) with no marker open is passed on as "no start"; with one open the next marker starts at 0 |

## Left out

- ffmpeg is not modelled. That covers opening, probing, reading, decoding, `avcodec_flush_buffers` and the RGB conversion. The container is a packet sequence and a read position. Whether conversion works is a flag of the file, and a converted picture is the packet it came from.
- The per-format derivation of frame numbers and times from packet timestamps (QVideoDecoder.cpp:278-290) is not modelled. Each packet carries the values derived for it.
- Floating-point arithmetic is replaced by exact rational arithmetic over the integer numerators and denominators, with C truncation and `round`. This covers `frameMSec`, `baseFrameRate`, `timeBase` and the MPEG and ASF seek targets. Rounding error of `double` is not modelled.
- SeekModel.MatroskaLoop: the source may retry forever (`SeekLemmas.MatroskaDivergesAtStart`). The model allows a fixed number of retreats (`retreatFuel`) and reports failure when they run out.
- `getNumFrames`, `getPath`, `getType`, the rational and frame-rate getters, `getFrameWidth`/`getFrameHeight`, `getBitrate`, `getProgramsString`, `getMetadataString`, `dumpFormat`, `saveFramePPM`, `initCodec`, `isOk` and the destructor are not modelled. They are ffmpeg queries, floating point or printing.
- `copyTxt` file reading is I/O. The compared files arrive as line lists.
- The conversion of a marker field to a number (`VList` is not part of this model) is a parameter `fieldValue`.
- Qt text rendering, cursors and formats are not modelled. A pane is the sequence of rows written to it.
- SeekModel.Open, Decoder.VideoDecoder.OpenFile, Decoder.VideoDecoder.WithFile and SeekLemmas.OpenResets require `Openable`: a file that opens has a positive frame rate and stream time base, and a Matroska file a codec time base with `0 < num <= den`. The source checks none of this. A zero `r_frame_rate` makes `frameMSec` infinite (QVideoDecoder.cpp:203-204). A Matroska stream time base with numerator 0 divides by zero at open (QVideoDecoder.cpp:206-211). A Matroska codec time base with `den < num` makes the integer quotient at QVideoDecoder.cpp:457-460 zero, so a later `correctSeekToKeyFrame` divides by zero. Such files are outside the model.
- SeekModel.Close and Decoder.VideoDecoder.Close: releasing a loaded file empties the container and keeps the stream information; a failed re-open then leaves that empty container. This is the model's abstraction, and the source differs from it. After `avformat_open_input` fails, `pFormatCtx` is null and the next read dereferences it. An open that fails after probing keeps the new file's container and `videoStream`, next to the old rationals. `close` frees `buffer` without clearing it, so closing again after a failed re-open (`ok` is still true) frees it twice.
- CArith.ToChar and MarkerText.ShownLine assume a signed 8-bit `char`. Where `char` is unsigned (ARM Linux), indices 128 to 255 would show their lines and the wrap-round starts at 256 only.
- CompareMarkers.CompareMarkersDialog.Valid: it states only that the palette keeps five colours. That it keeps the very colours of `fillCol` is `MarkerText.RotateNPermutes`.
- MainWindow.ZeroPadded follows Qt 5's `arg` with a `'0'` fill. The zeros go after the minus sign of a negative field; a negative time gives such fields.
- The page-step value is an `int` in the source. Overflow near the 32-bit limits is not modelled.
- Qt UI in `mainwindow.cpp` is not modelled: dialogs, splitters, the slider's percentage seek, previews, the info view. The same goes for `PlayerWidget`, `MarkersWidget` and `ImagesBuffer` behind the marker buttons; these are not part of this model.
