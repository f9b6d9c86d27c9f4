/** `CompareMarkersDialog`: two marker files, each a list of
    `"start, end"` lines, are compared marker by marker and written side
    by side into two panes. A pane is the sequence of rows written so far:
    a line of text (plain, or bold with the current background colour) or
    an empty block. */
module CompareMarkers {
  import opened CArith
  import opened Wrappers
  import opened MarkerText

  datatype Row = Line(text: string, bold: bool, background: Option<Color>) | Blank

  /** Whether a comparison ran to its end, or stopped at a read past the
      end of a marker list (which the source does not guard against). */
  datatype Outcome = Completed | OutOfRange

  /** The bold row `c1_Bwrite`/`c2_Bwrite` writes for line `n` of `list`. */
  function Bold(list: seq<string>, n: int, bg: Option<Color>): Row
  {
    Line(ShownLine(list, n), true, bg)
  }

  /** The rows both panes get for markers `iMin` of the shorter file and
      `iMax` of the longer one written on the same line: the file-1 marker
      goes on the left, so the indices are swapped when file 2 is the
      shorter. */
  function PairRows(list1: seq<string>, list2: seq<string>, blength: bool, iMin: int, iMax: int,
                    bold: bool, bg: Option<Color>): (Row, Row)
  {
    var n1 := if blength then iMin else iMax;
    var n2 := if blength then iMax else iMin;
    (Line(ShownLine(list1, Div(n1, 2)), bold, bg), Line(ShownLine(list2, Div(n2, 2)), bold, bg))
  }

  /** The rows `addCursorBlock(cond, i)` writes: marker `i` in bold on one
      pane (file 1 when `cond` is false, file 2 otherwise) and an empty
      block on the other. */
  function BlockRows(list1: seq<string>, list2: seq<string>, cond: bool, i: int, bg: Option<Color>): (Row, Row)
  {
    if !cond then (Bold(list1, Div(i, 2), bg), Blank) else (Blank, Bold(list2, Div(i, 2), bg))
  }

  /** `a` and `b` are the blocks for the markers at `from`, `from + 2`, ... */
  ghost predicate Blocks(list1: seq<string>, list2: seq<string>, cond: bool, from: int, bg: Option<Color>,
                         a: seq<Row>, b: seq<Row>)
  {
    |a| == |b| &&
    forall k :: 0 <= k < |a| ==> (a[k], b[k]) == BlockRows(list1, list2, cond, from + 2 * k, bg)
  }

  /** Rows `k` of `a` and `b` show marker `fMin + 2k` of the shorter file
      and marker `fMax + 2k` of the longer one on the same line, in plain
      text: what the walk writes for equal markers. */
  ghost predicate PlainPairs(list1: seq<string>, list2: seq<string>, blength: bool, fMin: int, fMax: int,
                             a: seq<Row>, b: seq<Row>)
  {
    |a| == |b| &&
    forall k :: 0 <= k < |a| ==> (a[k], b[k]) == PairRows(list1, list2, blength, fMin + 2 * k, fMax + 2 * k, false, None)
  }

  /** The shorter file's markers are the first markers of the longer one
      (identical files among them). */
  ghost predicate SharedPrefix(lMin: seq<int>, lMax: seq<int>)
  {
    |lMin| <= |lMax| && lMin == lMax[..|lMin|]
  }

  /** The longer file is the shorter one with marker `m` inserted before
      the shorter file's marker `m`: the inserted marker ends no later than
      that one starts, and starts elsewhere; that one starts before it
      ends. The longer file may have more markers after these. */
  ghost predicate InsertedBefore(lMin: seq<int>, lMax: seq<int>, m: int)
  {
    && 0 <= m && 2 * m + 2 <= |lMin| && |lMin| + 2 <= |lMax|
    && lMax[..2 * m] == lMin[..2 * m]
    && lMax[2 * m + 2..|lMin| + 2] == lMin[2 * m..]
    && lMax[2 * m] != lMin[2 * m] && lMax[2 * m + 1] <= lMin[2 * m] < lMin[2 * m + 1]
  }

  /** The inserted marker is the first place the files differ, so there is
      at most one. */
  lemma {:induction false} InsertedBeforeUnique(lMin: seq<int>, lMax: seq<int>, m1: int, m2: int)
    requires InsertedBefore(lMin, lMax, m1) && InsertedBefore(lMin, lMax, m2)
    ensures m1 == m2
  {
  }

  /** A shared-prefix marker is the same in both files. */
  lemma {:induction false} SharedMarker(lMin: seq<int>, lMax: seq<int>, i: int)
    requires SharedPrefix(lMin, lMax) && 0 <= i < |lMin|
    ensures lMax[i] == lMin[i]
  {
    assert lMax[..|lMin|][i] == lMax[i];
  }

  /** Before the inserted marker the files agree; after it the longer
      file's values are the shorter file's, two indices further on. */
  lemma {:induction false} InsertedMarker(lMin: seq<int>, lMax: seq<int>, m: int, i: int)
    requires InsertedBefore(lMin, lMax, m) && 0 <= i < |lMin|
    ensures i < 2 * m ==> lMax[i] == lMin[i]
    ensures 2 * m <= i ==> lMax[i + 2] == lMin[i]
  {
    if i < 2 * m {
      assert lMax[..2 * m][i] == lMin[..2 * m][i];
    } else {
      assert lMax[2 * m + 2..|lMin| + 2][i - 2 * m] == lMin[2 * m..][i - 2 * m];
    }
  }

  /** The walk so far wrote one plain pair per marker, the same marker of
      both files, with both cursors on marker `iMin`, and took no
      colour. */
  ghost predicate Aligned(list1: seq<string>, list2: seq<string>, blength: bool, iMin: int, iMax: int,
                          rotations: nat, added1: seq<Row>, added2: seq<Row>)
  {
    iMax == iMin && 2 * |added1| == iMin && rotations == 0 && PlainPairs(list1, list2, blength, 0, 0, added1, added2)
  }

  /** The walk so far passed the longer file's inserted marker `m`: plain
      pairs of the markers before it, the inserted marker alone on its
      pane in the first colour taken (`c0[0]`), then plain pairs of each
      later marker of the shorter file with the longer file's marker one
      further on. */
  ghost predicate PastInsert(list1: seq<string>, list2: seq<string>, blength: bool, iMin: int, iMax: int,
                             m: int, c0: seq<Color>, rotations: nat, added1: seq<Row>, added2: seq<Row>)
  {
    && iMax == iMin + 2 && 2 * |added1| == iMin + 2 && rotations == 1
    && 0 <= m < |added1| && |added2| == |added1| && |c0| > 0
    && PlainPairs(list1, list2, blength, 0, 0, added1[..m], added2[..m])
    && (added1[m], added2[m]) == BlockRows(list1, list2, blength, 2 * m, Some(c0[0]))
    && PlainPairs(list1, list2, blength, 2 * m, 2 * m + 2, added1[m + 1..], added2[m + 1..])
  }

  /** The layouts the comparison of flattened files `lMin` (shorter) and
      `lMax` ends with, `common` rows into the panes: when the shorter
      file's markers start the longer file, plain pairs of equal markers
      (and no colour taken when the files are equal); when the longer file
      has one marker inserted, plain pairs around a block of the inserted
      marker in the palette's first colour `c0[0]`. */
  ghost predicate KnownLayouts(list1: seq<string>, list2: seq<string>, blength: bool, lMin: seq<int>, lMax: seq<int>,
                               c0: seq<Color>, outcome: Outcome, common: nat, rotations: nat,
                               added1: seq<Row>, added2: seq<Row>)
  {
    && (SharedPrefix(lMin, lMax) && |lMin| > 0 ==>
          && outcome == Completed && 2 * common == |lMin| && common <= |added1| && common <= |added2|
          && Aligned(list1, list2, blength, |lMin|, |lMin|, 0, added1[..common], added2[..common])
          && (|lMin| == |lMax| ==> rotations == 0 && |added1| == common && |added2| == common))
    && (forall m :: InsertedBefore(lMin, lMax, m) ==>
          && outcome == Completed && common <= |added1| && common <= |added2|
          && PastInsert(list1, list2, blength, |lMin|, |lMin| + 2, m, c0, 1, added1[..common], added2[..common]))
  }

  /** A file that is the first lines of another flattens to the first
      markers of the other's. */
  lemma {:induction false} PrefixLinesShared(minLines: seq<string>, maxLines: seq<string>, fieldValue: string -> int)
    requires |minLines| <= |maxLines| && minLines == maxLines[..|minLines|]
    ensures SharedPrefix(Flat(minLines, fieldValue), Flat(maxLines, fieldValue))
  {
    FlatPrefix(maxLines, fieldValue, |minLines|);
  }

  /** The rows of an aligned walk over `n` markers show line `k` of each
      file in plain text at row `k`. */
  lemma {:induction false} AlignedRows(list1: seq<string>, list2: seq<string>, blength: bool, n: nat, a: seq<Row>, b: seq<Row>)
    requires Aligned(list1, list2, blength, 2 * n, 2 * n, 0, a, b)
    ensures |a| == |b| == n
    ensures forall k :: 0 <= k < n ==>
      a[k] == Line(ShownLine(list1, k), false, None) && b[k] == Line(ShownLine(list2, k), false, None)
  {
    forall k | 0 <= k < n
      ensures a[k] == Line(ShownLine(list1, k), false, None) && b[k] == Line(ShownLine(list2, k), false, None)
    {
      MarkerLine(0, k);
    }
  }

  /** Files that agree line for line up to the shorter one's length, and
      whose comparison ends in the layouts above, have each shared line in
      plain text on both panes, at the same row, and no colour is taken
      when they are equal. */
  lemma {:induction false} SharedLinesPlain(lines1: seq<string>, lines2: seq<string>, fieldValue: string -> int, c0: seq<Color>,
                         outcome: Outcome, common: nat, rotations: nat, pane1: seq<Row>, pane2: seq<Row>)
    requires
      var blength := |lines1| <= |lines2|;
      KnownLayouts(lines1, lines2, blength, Flat(if blength then lines1 else lines2, fieldValue),
                   Flat(if blength then lines2 else lines1, fieldValue), c0, outcome, common, rotations, pane1, pane2)
    requires
      var n := if |lines1| <= |lines2| then |lines1| else |lines2|;
      n > 0 && lines1[..n] == lines2[..n]
    ensures
      var n := if |lines1| <= |lines2| then |lines1| else |lines2|;
      && outcome == Completed && common == n && n <= |pane1| && n <= |pane2|
      && (|lines1| == |lines2| ==> rotations == 0 && |pane1| == n && |pane2| == n)
      && forall k :: 0 <= k < n ==>
           pane1[k] == Line(ShownLine(lines1, k), false, None) && pane2[k] == Line(ShownLine(lines2, k), false, None)
  {
    var blength := |lines1| <= |lines2|;
    var minLines, maxLines := if blength then lines1 else lines2, if blength then lines2 else lines1;
    var n := |minLines|;
    assert minLines == maxLines[..n] by {
      if blength {
        assert lines1[..n] == lines1;
      } else {
        assert lines2[..n] == lines2;
      }
    }
    PrefixLinesShared(minLines, maxLines, fieldValue);
    var lMin, lMax := Flat(minLines, fieldValue), Flat(maxLines, fieldValue);
    assert SharedPrefix(lMin, lMax) && |lMin| > 0;
    AlignedRows(lines1, lines2, blength, n, pane1[..common], pane2[..common]);
    assert forall k :: 0 <= k < n ==> pane1[..common][k] == pane1[k] && pane2[..common][k] == pane2[k];
  }

  /** A plain pair of equal markers keeps an aligned walk aligned. */
  lemma {:induction false} AlignedStep(list1: seq<string>, list2: seq<string>, blength: bool, i: int,
                    added1: seq<Row>, added2: seq<Row>, a1: seq<Row>, a2: seq<Row>)
    requires Aligned(list1, list2, blength, i, i, 0, added1, added2)
    requires a1 == [PairRows(list1, list2, blength, i, i, false, None).0]
    requires a2 == [PairRows(list1, list2, blength, i, i, false, None).1]
    ensures Aligned(list1, list2, blength, i + 2, i + 2, 0, added1 + a1, added2 + a2)
  {
  }

  /** The block of the inserted marker takes an aligned walk past it. */
  lemma {:induction false} InsertStep(list1: seq<string>, list2: seq<string>, blength: bool, m: int, c0: seq<Color>,
                   added1: seq<Row>, added2: seq<Row>, a1: seq<Row>, a2: seq<Row>)
    requires m >= 0 && |c0| > 0 && Aligned(list1, list2, blength, 2 * m, 2 * m, 0, added1, added2)
    requires a1 == [BlockRows(list1, list2, blength, 2 * m, Some(c0[0])).0]
    requires a2 == [BlockRows(list1, list2, blength, 2 * m, Some(c0[0])).1]
    ensures PastInsert(list1, list2, blength, 2 * m, 2 * m + 2, m, c0, 1, added1 + a1, added2 + a2)
  {
    assert (added1 + a1)[..m] == added1 && (added1 + a1)[m + 1..] == [];
    assert (added2 + a2)[..m] == added2 && (added2 + a2)[m + 1..] == [];
  }

  /** A plain pair of a shorter-file marker with the longer file's marker
      one further on keeps a walk past the inserted marker past it. */
  lemma {:induction false} PastStep(list1: seq<string>, list2: seq<string>, blength: bool, i: int, m: int, c0: seq<Color>,
                 added1: seq<Row>, added2: seq<Row>, a1: seq<Row>, a2: seq<Row>)
    requires PastInsert(list1, list2, blength, i, i + 2, m, c0, 1, added1, added2)
    requires a1 == [PairRows(list1, list2, blength, i, i + 2, false, None).0]
    requires a2 == [PairRows(list1, list2, blength, i, i + 2, false, None).1]
    ensures PastInsert(list1, list2, blength, i + 2, i + 4, m, c0, 1, added1 + a1, added2 + a2)
  {
    assert (added1 + a1)[..m] == added1[..m] && (added2 + a2)[..m] == added2[..m];
    assert (added1 + a1)[m + 1..] == added1[m + 1..] + a1 && (added2 + a2)[m + 1..] == added2[m + 1..] + a2;
    PlainPairsSnoc(list1, list2, blength, 2 * m, 2 * m + 2, added1[m + 1..], added2[m + 1..], a1, a2);
  }

  /** One more plain pair, of the next marker of each file, extends a run
      of plain pairs. */
  lemma {:induction false} PlainPairsSnoc(list1: seq<string>, list2: seq<string>, blength: bool, fMin: int, fMax: int,
                                          a: seq<Row>, b: seq<Row>, a1: seq<Row>, a2: seq<Row>)
    requires PlainPairs(list1, list2, blength, fMin, fMax, a, b)
    requires a1 == [PairRows(list1, list2, blength, fMin + 2 * |a|, fMax + 2 * |a|, false, None).0]
    requires a2 == [PairRows(list1, list2, blength, fMin + 2 * |a|, fMax + 2 * |a|, false, None).1]
    ensures PlainPairs(list1, list2, blength, fMin, fMax, a + a1, b + a2)
  {
    forall k | 0 <= k < |a + a1|
      ensures ((a + a1)[k], (b + a2)[k]) == PairRows(list1, list2, blength, fMin + 2 * k, fMax + 2 * k, false, None)
    {
      if k < |a| {
        assert (a + a1)[k] == a[k] && (b + a2)[k] == b[k];
      }
    }
  }

  /** The end of marker `k` of `l`, counted from index `first`, lies closer
      to `end` than to `nextStart`: the test `in_diff < end_diff` of lines
      187-198 and 216-227. */
  ghost predicate EndsCloser(l: seq<int>, first: int, k: int, end: int, nextStart: int)
  {
    var e := first + 2 * k + 1;
    0 <= e < |l| && Abs(end - l[e]) < Abs(nextStart - l[e])
  }

  /** `count` markers of `l` from `first` on were absorbed: each ends closer
      to `end` than to `nextStart`, and the loop stopped at the next one,
      which does not, or which is the last marker of `l`. */
  ghost predicate AbsorbedByEnd(l: seq<int>, first: int, count: nat, end: int, nextStart: int)
  {
    && first + 2 * count + 1 < |l|
    && (forall k :: 0 <= k < count ==> EndsCloser(l, first, k, end, nextStart))
    && (!EndsCloser(l, first, count, end, nextStart) || (count > 0 && first + 2 * count + 2 == |l|))
  }

  /** After a same-start pair in which marker `i` of `l` ends after marker
      `j` of `other`, `count` markers of `other` follow `j` against empty
      blocks: none when marker `i` ends by the next start in `other`,
      otherwise those that end closer to marker `i`'s end than to the next
      start in `l`. */
  ghost predicate SameStartAbsorbed(l: seq<int>, i: int, other: seq<int>, j: int, count: nat)
  {
    && 0 <= i && i + 1 < |l| && 0 <= j && j + 2 < |other|
    && (l[i + 1] <= other[j + 2] ==> count == 0)
    && (l[i + 1] > other[j + 2] ==> i + 2 < |l| && AbsorbedByEnd(other, j + 2, count, l[i + 1], l[i + 2]))
  }

  /** Marker `k` of `l`, counted from index `first`, starts more than
      `overlap` before `end`: the test `in_diff < end_diff` of lines
      294-306. */
  ghost predicate StartsInside(l: seq<int>, first: int, k: int, end: int, overlap: int)
  {
    var st := first + 2 * k;
    0 <= st < |l| && overlap < end - l[st]
  }

  /** `count` markers of `l` from `first` on were absorbed: each starts
      more than `overlap` before `end`, and the next one does not. */
  ghost predicate AbsorbedByStart(l: seq<int>, first: int, count: nat, end: int, overlap: int)
  {
    && first + 2 * count < |l|
    && (forall k :: 0 <= k < count ==> StartsInside(l, first, k, end, overlap))
    && !StartsInside(l, first, count, end, overlap)
  }

  /** A completed step of the walk added as many rows to each pane, kept
      both cursors on a marker boundary within their list, and moved at
      least one of them forward. */
  ghost predicate Advances(outcome: Outcome, iMin: int, iMax: int, nextMin: int, nextMax: int,
                           nMin: int, nMax: int, rows1: int, rows2: int)
  {
    outcome == Completed ==>
      && rows1 == rows2 && nextMin % 2 == 0 && nextMax % 2 == 0
      && iMin <= nextMin <= nMin && iMax <= nextMax <= nMax && nextMin + nextMax > iMin + iMax
  }

  /** Row `k` of `tail` shows line `first + k` of `list`. */
  ghost predicate TailTexts(tail: seq<Row>, list: seq<string>, first: int)
  {
    forall k :: 0 <= k < |tail| ==> tail[k].Line? && tail[k].text == ShownLine(list, first + k)
  }

  /** Marker `k` after the one at a non-negative index `start` is on line
      `start / 2 + k`. */
  lemma MarkerLine(start: int, k: int)
    requires start >= 0 && k >= 0
    ensures Div(start + 2 * k, 2) == Div(start, 2) + k
  {
  }

  /** A cursor that starts on an even index and steps by two stays within
      an even-length list. */
  lemma EvenStep(start: int, k: int, n: int)
    requires start % 2 == 0 && n % 2 == 0 && start + 2 * k < n
    ensures start + 2 * k + 2 <= n
  {
  }

  /** Stepping an even cursor by whole markers keeps it even. */
  lemma EvenAfter(start: int, next: int, k: int)
    requires start % 2 == 0 && next == start + 2 * k
    ensures next % 2 == 0
  {
  }

  /** One more bold marker row extends a tail. */
  lemma TailGrows(tail: seq<Row>, list: seq<string>, first: int, n: int, bg: Option<Color>)
    requires AllBold(tail) && TailTexts(tail, list, first) && n == first + |tail|
    ensures var t := tail + [Bold(list, n, bg)];
      AllBold(t) && TailTexts(t, list, first)
  {
  }

  /** Every row is a bold line. */
  ghost predicate AllBold(rows: seq<Row>)
  {
    forall k :: 0 <= k < |rows| ==> rows[k].Line? && rows[k].bold
  }

  /** The flattened markers of a file: the start and end field of every
      line, in order, converted by `fieldValue`. */
  ghost function Flat(list: seq<string>, fieldValue: string -> int): (l: seq<int>)
    ensures |l| == 2 * |list|
    decreases |list|
  {
    if |list| == 0 then []
    else
      var last := list[|list| - 1];
      Flat(list[..|list| - 1], fieldValue) + [fieldValue(SplitList(last, 0)), fieldValue(SplitList(last, 1))]
  }

  /** The loop of lines 130-131 that flattens one file. */
  method FlattenLines(list: seq<string>, fieldValue: string -> int) returns (l: seq<int>)
    ensures l == Flat(list, fieldValue)
    ensures forall k :: 0 <= k < |list| ==>
      l[2 * k] == fieldValue(SplitList(list[k], 0)) && l[2 * k + 1] == fieldValue(SplitList(list[k], 1))
  {
    l := [];
    var i := 0;
    while i < |list|
      invariant 0 <= i <= |list| && l == Flat(list[..i], fieldValue)
      invariant forall k :: 0 <= k < i ==>
        l[2 * k] == fieldValue(SplitList(list[k], 0)) && l[2 * k + 1] == fieldValue(SplitList(list[k], 1))
    {
      assert list[..i + 1][..i] == list[..i];
      l := l + [fieldValue(SplitList(list[i], 0)), fieldValue(SplitList(list[i], 1))];
      i := i + 1;
    }
    assert list[..i] == list;
  }

  /** The background of the bold rows after the palette, `c0` at first,
      has turned `n` times: the background `bg0` in use before when it has
      not turned, otherwise the colour `setBckCol` took last, the head of
      `c0` turned `n - 1` times. */
  function TailBackground(c0: seq<Color>, bg0: Option<Color>, n: nat): Option<Color>
    requires |c0| > 0
  {
    if n == 0 then bg0 else Some(RotateN(c0, n - 1)[0])
  }

  /** The first `n` lines of a file flatten to the first `2n` values of
      the whole file. */
  lemma {:induction false} FlatPrefix(list: seq<string>, fieldValue: string -> int, n: int)
    requires 0 <= n <= |list|
    ensures Flat(list[..n], fieldValue) == Flat(list, fieldValue)[..2 * n]
    decreases |list|
  {
    if n == |list| {
      assert list[..n] == list;
    } else {
      var front := list[..|list| - 1];
      FlatPrefix(front, fieldValue, n);
      assert front[..n] == list[..n];
    }
  }

  /** The number of markers with a start index from `lo` up to (but not
      including) `hi` whose start lies after `v`. */
  ghost function CountAfter(l: seq<int>, lo: int, hi: int, v: int): nat
    requires 0 <= lo && hi <= |l|
    decreases hi - lo
  {
    if hi < lo + 2 then 0
    else CountAfter(l, lo, hi - 2, v) + (if l[hi - 2] > v then 1 else 0)
  }

  class CompareMarkersDialog {
    /** The lines of the two marker files. */
    var list1: seq<string>
    var list2: seq<string>
    /** The background palette (`ColList`). */
    var colList: seq<Color>
    /** The background of `boldFormat`. */
    var boldBackground: Option<Color>
    /** The two panes (`smText` and `extText`). */
    var pane1: seq<Row>
    var pane2: seq<Row>

    /** The palette keeps the length `fillCol` gives it, so `setBckCol`
        always finds a head colour; that it keeps the very colours of
        `fillCol` is `MarkerText.RotateNPermutes`. */
    ghost predicate Valid()
      reads this
    {
      |colList| == |Palette|
    }

    constructor ()
      ensures Valid() && colList == Palette
      ensures list1 == [] && list2 == [] && pane1 == [] && pane2 == [] && boldBackground == None
    {
      list1, list2 := [], [];
      pane1, pane2 := [], [];
      boldBackground := None;
      new;
      FillCol();
    }

    /** `fillCol()`. */
    method FillCol()
      modifies this`colList
      ensures Valid() && colList == Palette
    {
      colList := [LightGray, Red, Cyan, Magenta, Yellow];
    }

    /** `setBckCol()`: bold text takes the head colour, which moves to the
        back of the palette. */
    method SetBckCol()
      requires Valid()
      modifies this`colList, this`boldBackground
      ensures Valid()
      ensures |old(colList)| > 0 && boldBackground == Some(old(colList)[0])
      ensures colList == Rotate(old(colList))
    {
      boldBackground := Some(colList[0]);
      colList := colList + [colList[0]];
      colList := colList[1..];
      assert colList == Rotate(old(colList));
    }

    method C1BWrite(nline: int)
      modifies this`pane1
      ensures pane1 == old(pane1) + [Bold(list1, nline, boldBackground)]
    {
      pane1 := pane1 + [Bold(list1, nline, boldBackground)];
    }

    method C1TWrite(nline: int)
      modifies this`pane1
      ensures pane1 == old(pane1) + [Line(ShownLine(list1, nline), false, None)]
    {
      pane1 := pane1 + [Line(ShownLine(list1, nline), false, None)];
    }

    method C2BWrite(nline: int)
      modifies this`pane2
      ensures pane2 == old(pane2) + [Bold(list2, nline, boldBackground)]
    {
      pane2 := pane2 + [Bold(list2, nline, boldBackground)];
    }

    method C2TWrite(nline: int)
      modifies this`pane2
      ensures pane2 == old(pane2) + [Line(ShownLine(list2, nline), false, None)]
    {
      pane2 := pane2 + [Line(ShownLine(list2, nline), false, None)];
    }

    /** `addCursorBlock(cond, i)`. */
    method AddCursorBlock(cond: bool, i: int)
      modifies this`pane1, this`pane2
      ensures pane1 == old(pane1) + [BlockRows(list1, list2, cond, i, boldBackground).0]
      ensures pane2 == old(pane2) + [BlockRows(list1, list2, cond, i, boldBackground).1]
    {
      if !cond {
        C1BWrite(Div(i, 2));
        pane2 := pane2 + [Blank];
      } else {
        pane1 := pane1 + [Blank];
        C2BWrite(Div(i, 2));
      }
    }

    /** Writes markers `iMin` and `iMax` on the same line of both panes. */
    method WritePair(blength: bool, iMin: int, iMax: int, bold: bool)
      modifies this`pane1, this`pane2
      ensures var bg := if bold then boldBackground else None;
        && pane1 == old(pane1) + [PairRows(list1, list2, blength, iMin, iMax, bold, bg).0]
        && pane2 == old(pane2) + [PairRows(list1, list2, blength, iMin, iMax, bold, bg).1]
    {
      var n1 := if blength then iMin else iMax;
      var n2 := if blength then iMax else iMin;
      if bold {
        C1BWrite(Div(n1, 2));
        C2BWrite(Div(n2, 2));
      } else {
        C1TWrite(Div(n1, 2));
        C2TWrite(Div(n2, 2));
      }
    }

    /** The pane of the shorter file and the pane of the longer one. */
    function MinPane(blength: bool): seq<Row>
      reads this
    {
      if blength then pane1 else pane2
    }

    function MaxPane(blength: bool): seq<Row>
      reads this
    {
      if blength then pane2 else pane1
    }

    /** While the loop of lines 190-200 (or 218-229) runs: the panes hold
        their rows from before the loop followed by the blocks of the
        markers of `other` from `first` up to `k`, each of which ends closer
        to `end` than to `nextStart`. */
    ghost predicate Absorbing(other: seq<int>, cond: bool, first: int, k: int, end: int, nextStart: int,
                              bg: Option<Color>, p1: seq<Row>, p2: seq<Row>, extra1: seq<Row>, extra2: seq<Row>)
      reads this
    {
      && first <= k && k + 1 < |other| && k == first + 2 * |extra1|
      && pane1 == p1 + extra1 && pane2 == p2 + extra2 && boldBackground == bg
      && Blocks(list1, list2, cond, first, bg, extra1, extra2)
      && forall n :: 0 <= n < |extra1| ==> EndsCloser(other, first, n, end, nextStart)
    }

    /** One pass of that loop, for a marker `k` that ends closer to `end`:
        its block is written, the cursor moves on, and the distances are
        read for the next marker, which lies past the end of `other` when
        `outOfRange`; `atEnd` is the `break` test. */
    method AbsorbOne(other: seq<int>, cond: bool, first: int, k: int, end: int, nextStart: int,
                     ghost bg: Option<Color>, ghost p1: seq<Row>, ghost p2: seq<Row>,
                     ghost extra1: seq<Row>, ghost extra2: seq<Row>)
      returns (k': int, inDiff: int, endDiff: int, outOfRange: bool, atEnd: bool,
               ghost extra1': seq<Row>, ghost extra2': seq<Row>)
      requires Absorbing(other, cond, first, k, end, nextStart, bg, p1, p2, extra1, extra2)
      requires EndsCloser(other, first, |extra1|, end, nextStart)
      modifies this`pane1, this`pane2
      ensures k' == k + 2 && |extra1'| == |extra1| + 1
      ensures pane1 == p1 + extra1' && pane2 == p2 + extra2'
      ensures outOfRange <==> k' + 1 >= |other|
      ensures !outOfRange ==>
        && Absorbing(other, cond, first, k', end, nextStart, bg, p1, p2, extra1', extra2')
        && inDiff == Abs(end - other[k' + 1]) && endDiff == Abs(nextStart - other[k' + 1])
        && (atEnd <==> k' + 2 >= |other|)
    {
      AddCursorBlock(cond, k);
      extra1' := extra1 + [BlockRows(list1, list2, cond, k, boldBackground).0];
      extra2' := extra2 + [BlockRows(list1, list2, cond, k, boldBackground).1];
      k' := k + 2;
      inDiff, endDiff, atEnd := 0, 0, false;
      outOfRange := k' + 1 >= |other|;
      if !outOfRange {
        inDiff := Abs(end - other[k' + 1]);
        endDiff := Abs(nextStart - other[k' + 1]);
        atEnd := k' + 2 >= |other|;
      }
    }

    /** Lines 179-203, and with the files' roles exchanged 207-233: after
        a same-start pair in which marker `i` of `l` ends after marker `j`
        of `other`, and past the next start in `other`, the following
        markers of `other` are written against empty blocks (on the side
        `cond` picks) while they end closer to marker `i`'s end than to the
        next start in `l`. Returns the index of the last marker of `other`
        dealt with. */
    method AbsorbCloser(l: seq<int>, i: int, other: seq<int>, j: int, cond: bool)
      returns (outcome: Outcome, last: int, ghost extra1: seq<Row>, ghost extra2: seq<Row>)
      requires j % 2 == 0 && |other| % 2 == 0
      requires 0 <= i && i + 1 < |l| && 0 <= j < |other|
      modifies this`pane1, this`pane2
      ensures pane1 == old(pane1) + extra1 && pane2 == old(pane2) + extra2
      ensures outcome == OutOfRange ==> j + 2 == |other| || i + 2 == |l| || |extra1| > 0
      ensures outcome == Completed ==>
        && Blocks(list1, list2, cond, j + 2, boldBackground, extra1, extra2)
        && last == j + 2 * |extra1| && last + 2 <= |other|
        && SameStartAbsorbed(l, i, other, j, |extra1|)
    {
      extra1, extra2 := [], [];
      if j + 2 >= |other| {
        return OutOfRange, j, extra1, extra2;
      }
      if l[i + 1] <= other[j + 2] {
        return Completed, j, extra1, extra2;
      }
      var k := j + 2;
      if i + 2 >= |l| {
        return OutOfRange, k, extra1, extra2;
      }
      var inDiff := Abs(l[i + 1] - other[k + 1]);
      var endDiff := Abs(l[i + 2] - other[k + 1]);
      var end, nextStart := l[i + 1], l[i + 2];
      ghost var bg, p1, p2 := boldBackground, pane1, pane2;
      while inDiff < endDiff
        invariant Absorbing(other, cond, j + 2, k, end, nextStart, bg, p1, p2, extra1, extra2)
        invariant inDiff == Abs(end - other[k + 1]) && endDiff == Abs(nextStart - other[k + 1])
        decreases |other| - k
      {
        var outOfRange, atEnd: bool;
        k, inDiff, endDiff, outOfRange, atEnd, extra1, extra2 :=
          AbsorbOne(other, cond, j + 2, k, end, nextStart, bg, p1, p2, extra1, extra2);
        if outOfRange {
          return OutOfRange, k, extra1, extra2;
        }
        if atEnd {
          break;
        }
      }
      return Completed, k - 2, extra1, extra2;
    }

    /** Lines 294-310: the longer file's markers after `iMax` are written
        against empty blocks while the gap from their start to the shorter
        marker's end exceeds the overlap `inDiff`. */
    method AbsorbOverlapped(lMin: seq<int>, lMax: seq<int>, blength: bool, iMin: int, iMax: int, inDiff: int)
      returns (outcome: Outcome, last: int, ghost extra1: seq<Row>, ghost extra2: seq<Row>)
      requires iMax % 2 == 0 && |lMax| % 2 == 0
      requires 0 <= iMin && iMin + 1 < |lMin| && 0 <= iMax && iMax + 2 < |lMax|
      modifies this`pane1, this`pane2
      ensures pane1 == old(pane1) + extra1 && pane2 == old(pane2) + extra2
      ensures outcome == OutOfRange ==> |extra1| > 0
      ensures outcome == Completed ==>
        && Blocks(list1, list2, blength, iMax + 2, boldBackground, extra1, extra2)
        && last == iMax + 2 * |extra1| && last + 2 < |lMax|
        && AbsorbedByStart(lMax, iMax + 2, |extra1|, lMin[iMin + 1], inDiff)
    {
      extra1, extra2 := [], [];
      var i := iMax + 2;
      var endDiff := lMin[iMin + 1] - lMax[i];
      ghost var first, end := iMax + 2, lMin[iMin + 1];
      while inDiff < endDiff
        invariant i % 2 == 0 && iMax + 2 <= i < |lMax|
        invariant i == iMax + 2 + 2 * |extra1|
        invariant pane1 == old(pane1) + extra1 && pane2 == old(pane2) + extra2
        invariant Blocks(list1, list2, blength, iMax + 2, boldBackground, extra1, extra2)
        invariant endDiff == lMin[iMin + 1] - lMax[i]
        invariant forall k :: 0 <= k < |extra1| ==> StartsInside(lMax, first, k, end, inDiff)
        decreases |lMax| - i
      {
        assert StartsInside(lMax, first, |extra1|, end, inDiff);
        AddCursorBlock(blength, i);
        extra1 := extra1 + [BlockRows(list1, list2, blength, i, boldBackground).0];
        extra2 := extra2 + [BlockRows(list1, list2, blength, i, boldBackground).1];
        i := i + 2;
        if i >= |lMax| {
          return OutOfRange, i, extra1, extra2;
        }
        endDiff := lMin[iMin + 1] - lMax[i];
      }
      return Completed, i - 2, extra1, extra2;
    }

    /** Lines 174-233: after the same-start pair, the blocks of the markers
        the longer-lasting of the two spans, from the file whose marker
        ends first. */
    method AbsorbSameStart(lMin: seq<int>, lMax: seq<int>, blength: bool, iMin: int, iMax: int)
      returns (outcome: Outcome, nextMin: int, nextMax: int, ghost extra1: seq<Row>, ghost extra2: seq<Row>)
      requires iMin % 2 == 0 && iMax % 2 == 0 && |lMin| % 2 == 0 && |lMax| % 2 == 0
      requires 0 <= iMin < |lMin| && 0 <= iMax < |lMax|
      modifies this`pane1, this`pane2
      ensures pane1 == old(pane1) + extra1 && pane2 == old(pane2) + extra2
      ensures outcome == Completed && lMin[iMin + 1] > lMax[iMax + 1] ==>
        && Blocks(list1, list2, blength, iMax + 2, boldBackground, extra1, extra2)
        && nextMin == iMin + 2 && nextMax == iMax + 2 + 2 * |extra1|
        && SameStartAbsorbed(lMin, iMin, lMax, iMax, |extra1|)
      ensures outcome == Completed && lMin[iMin + 1] <= lMax[iMax + 1] ==>
        && Blocks(list1, list2, !blength, iMin + 2, boldBackground, extra1, extra2)
        && nextMax == iMax + 2 && nextMin == iMin + 2 + 2 * |extra1|
        && SameStartAbsorbed(lMax, iMax, lMin, iMin, |extra1|)
      ensures outcome == Completed ==>
        && |extra1| == |extra2| && nextMin % 2 == 0 && nextMax % 2 == 0
        && iMin < nextMin <= |lMin| && iMax < nextMax <= |lMax|
    {
      var last: int;
      if lMin[iMin + 1] > lMax[iMax + 1] {
        outcome, last, extra1, extra2 := AbsorbCloser(lMin, iMin, lMax, iMax, blength);
        nextMin, nextMax := iMin + 2, last + 2;
        if outcome == Completed {
          EvenAfter(iMin, nextMin, 1);
          EvenAfter(iMax, nextMax, |extra1| + 1);
        }
      } else {
        outcome, last, extra1, extra2 := AbsorbCloser(lMax, iMax, lMin, iMin, !blength);
        nextMin, nextMax := last + 2, iMax + 2;
        if outcome == Completed {
          EvenAfter(iMin, nextMin, |extra1| + 1);
          EvenAfter(iMax, nextMax, 1);
        }
      }
    }

    /** Lines 166-235, markers with the same start and different ends: both
        are written in bold on the same line, file 1's marker on the left
        whichever file is shorter, followed by the blocks of the markers
        the longer-lasting one spans. Returns the cursors for the next
        step. */
    method StepSameStart(lMin: seq<int>, lMax: seq<int>, blength: bool, iMin: int, iMax: int)
      returns (outcome: Outcome, nextMin: int, nextMax: int, ghost extra1: seq<Row>, ghost extra2: seq<Row>)
      requires Valid()
      requires iMin % 2 == 0 && iMax % 2 == 0 && |lMin| % 2 == 0 && |lMax| % 2 == 0
      requires 0 <= iMin < |lMin| && 0 <= iMax < |lMax|
      requires lMin[iMin] == lMax[iMax] && lMin[iMin + 1] != lMax[iMax + 1]
      modifies this`pane1, this`pane2, this`colList, this`boldBackground
      ensures Valid()
      ensures |old(colList)| > 0 && boldBackground == Some(old(colList)[0])
      ensures colList == Rotate(old(colList))
      ensures pane1 == old(pane1) + [Bold(list1, Div(iMin, 2), boldBackground)] + extra1
      ensures pane2 == old(pane2) + [Bold(list2, Div(iMax, 2), boldBackground)] + extra2
      ensures outcome == Completed && lMin[iMin + 1] > lMax[iMax + 1] ==>
        && Blocks(list1, list2, blength, iMax + 2, boldBackground, extra1, extra2)
        && nextMin == iMin + 2 && nextMax == iMax + 2 + 2 * |extra1|
        && SameStartAbsorbed(lMin, iMin, lMax, iMax, |extra1|)
      ensures outcome == Completed && lMin[iMin + 1] < lMax[iMax + 1] ==>
        && Blocks(list1, list2, !blength, iMin + 2, boldBackground, extra1, extra2)
        && nextMax == iMax + 2 && nextMin == iMin + 2 + 2 * |extra1|
        && SameStartAbsorbed(lMax, iMax, lMin, iMin, |extra1|)
      ensures outcome == Completed ==>
        && |extra1| == |extra2| && nextMin % 2 == 0 && nextMax % 2 == 0
        && iMin < nextMin <= |lMin| && iMax < nextMax <= |lMax|
    {
      SetBckCol();
      C1BWrite(Div(iMin, 2));
      C2BWrite(Div(iMax, 2));
      outcome, nextMin, nextMax, extra1, extra2 := AbsorbSameStart(lMin, lMax, blength, iMin, iMax);
    }

    /** The rows `StepSameStart` adds to each pane, taken together. */
    method SameStartRows(lMin: seq<int>, lMax: seq<int>, blength: bool, iMin: int, iMax: int)
      returns (outcome: Outcome, nextMin: int, nextMax: int, ghost added1: seq<Row>, ghost added2: seq<Row>)
      requires Valid()
      requires iMin % 2 == 0 && iMax % 2 == 0 && |lMin| % 2 == 0 && |lMax| % 2 == 0
      requires 0 <= iMin < |lMin| && 0 <= iMax < |lMax|
      requires lMin[iMin] == lMax[iMax] && lMin[iMin + 1] != lMax[iMax + 1]
      modifies this`pane1, this`pane2, this`colList, this`boldBackground
      ensures Valid()
      ensures colList == Rotate(old(colList))
      ensures pane1 == old(pane1) + added1 && pane2 == old(pane2) + added2
      ensures Advances(outcome, iMin, iMax, nextMin, nextMax, |lMin|, |lMax|, |added1|, |added2|)
    {
      ghost var e1: seq<Row>, e2: seq<Row>;
      outcome, nextMin, nextMax, e1, e2 := StepSameStart(lMin, lMax, blength, iMin, iMax);
      added1 := [Bold(list1, Div(iMin, 2), boldBackground)] + e1;
      added2 := [Bold(list2, Div(iMax, 2), boldBackground)] + e2;
      assert pane1 == old(pane1) + added1 && pane2 == old(pane2) + added2;
    }

    /** Lines 243-255: the shorter file's marker lies inside the longer
        file's one; both are written in bold on the same line. */
    method StepContained(blength: bool, iMin: int, iMax: int)
      returns (nextMin: int, nextMax: int, ghost added1: seq<Row>, ghost added2: seq<Row>)
      requires Valid()
      modifies this`pane1, this`pane2, this`colList, this`boldBackground
      ensures Valid()
      ensures |old(colList)| > 0 && boldBackground == Some(old(colList)[0])
      ensures colList == Rotate(old(colList))
      ensures pane1 == old(pane1) + added1 && pane2 == old(pane2) + added2
      ensures added1 == [PairRows(list1, list2, blength, iMin, iMax, true, boldBackground).0]
      ensures added2 == [PairRows(list1, list2, blength, iMin, iMax, true, boldBackground).1]
      ensures nextMin == iMin + 2 && nextMax == iMax + 2 && |added1| == |added2|
    {
      SetBckCol();
      WritePair(blength, iMin, iMax, true);
      nextMin, nextMax := iMin + 2, iMax + 2;
      added1 := [PairRows(list1, list2, blength, iMin, iMax, true, boldBackground).0];
      added2 := [PairRows(list1, list2, blength, iMin, iMax, true, boldBackground).1];
    }

    /** Lines 259-273, markers that do not meet: the one that comes first
        is written in bold against an empty block, and the cursor of the
        other is held so that the next step sees that marker again. */
    method StepDisjoint(lMin: seq<int>, lMax: seq<int>, blength: bool, iMin: int, iMax: int)
      returns (nextMin: int, nextMax: int, ghost added1: seq<Row>, ghost added2: seq<Row>)
      requires Valid()
      requires 0 <= iMin && iMin + 1 < |lMin| && 0 <= iMax && iMax + 1 < |lMax|
      requires lMin[iMin] >= lMax[iMax + 1] || lMin[iMin + 1] <= lMax[iMax]
      modifies this`pane1, this`pane2, this`colList, this`boldBackground
      ensures Valid()
      ensures |old(colList)| > 0 && boldBackground == Some(old(colList)[0])
      ensures colList == Rotate(old(colList))
      ensures pane1 == old(pane1) + added1 && pane2 == old(pane2) + added2
      ensures lMin[iMin] >= lMax[iMax + 1] ==>
        && nextMin == iMin && nextMax == iMax + 2
        && added1 == [BlockRows(list1, list2, blength, iMax, boldBackground).0]
        && added2 == [BlockRows(list1, list2, blength, iMax, boldBackground).1]
      ensures lMin[iMin] < lMax[iMax + 1] ==>
        && nextMin == iMin + 2 && nextMax == iMax
        && added1 == [BlockRows(list1, list2, !blength, iMin, boldBackground).0]
        && added2 == [BlockRows(list1, list2, !blength, iMin, boldBackground).1]
      ensures |added1| == |added2| == 1
    {
      SetBckCol();
      if lMin[iMin] >= lMax[iMax + 1] {
        AddCursorBlock(blength, iMax);
        // i_min is stepped back before the loop steps both cursors
        nextMin, nextMax := iMin, iMax + 2;
        added1 := [BlockRows(list1, list2, blength, iMax, boldBackground).0];
        added2 := [BlockRows(list1, list2, blength, iMax, boldBackground).1];
      } else {
        AddCursorBlock(!blength, iMin);
        nextMin, nextMax := iMin + 2, iMax;
        added1 := [BlockRows(list1, list2, !blength, iMin, boldBackground).0];
        added2 := [BlockRows(list1, list2, !blength, iMin, boldBackground).1];
      }
    }

    /** Lines 276-312, overlapping markers with different starts: both are
        written in bold on the same line; when the overlap is smaller than
        the gap to the longer file's next start, the longer file's markers
        the shorter one still covers follow against empty blocks. */
    method StepOverlap(lMin: seq<int>, lMax: seq<int>, blength: bool, iMin: int, iMax: int)
      returns (outcome: Outcome, nextMin: int, nextMax: int, ghost added1: seq<Row>, ghost added2: seq<Row>)
      requires Valid()
      requires iMin % 2 == 0 && iMax % 2 == 0 && |lMin| % 2 == 0 && |lMax| % 2 == 0
      requires 0 <= iMin && iMin + 1 < |lMin| && 0 <= iMax && iMax + 1 < |lMax|
      requires lMin[iMin] < lMax[iMax + 1]
      modifies this`pane1, this`pane2, this`colList, this`boldBackground
      ensures Valid()
      ensures |old(colList)| > 0 && boldBackground == Some(old(colList)[0])
      ensures colList == Rotate(old(colList))
      ensures pane1 == old(pane1) + added1 && pane2 == old(pane2) + added2
      ensures |added1| > 0 && |added2| > 0
      ensures added1[0] == PairRows(list1, list2, blength, iMin, iMax, true, boldBackground).0
      ensures added2[0] == PairRows(list1, list2, blength, iMin, iMax, true, boldBackground).1
      ensures outcome == Completed ==>
        && nextMin == iMin + 2 && nextMax == iMax + 2 * |added1| && nextMax <= |lMax|
        && Blocks(list1, list2, blength, iMax + 2, boldBackground, added1[1..], added2[1..])
        && var overlap := lMax[iMax + 1] - lMin[iMin];
           if iMax + 2 < |lMax| && overlap < lMin[iMin + 1] - lMax[iMax + 2]
           then AbsorbedByStart(lMax, iMax + 2, |added1| - 1, lMin[iMin + 1], overlap)
           else |added1| == 1
      ensures Advances(outcome, iMin, iMax, nextMin, nextMax, |lMin|, |lMax|, |added1|, |added2|)
    {
      var inDiff := lMax[iMax + 1] - lMin[iMin];
      var endDiff := 0;
      if iMax + 2 < |lMax| {
        endDiff := lMin[iMin + 1] - lMax[iMax + 2];
      }
      SetBckCol();
      WritePair(blength, iMin, iMax, true);
      ghost var e1: seq<Row>, e2: seq<Row> := [], [];
      nextMin, nextMax := iMin + 2, iMax + 2;
      outcome := Completed;
      if inDiff < endDiff {
        // the overlap is positive, so a next marker was read
        var last: int;
        outcome, last, e1, e2 := AbsorbOverlapped(lMin, lMax, blength, iMin, iMax, inDiff);
        nextMax := last + 2;
      }
      if outcome == Completed {
        EvenAfter(iMin, nextMin, 1);
        EvenAfter(iMax, nextMax, |e1| + 1);
      }
      added1 := [PairRows(list1, list2, blength, iMin, iMax, true, boldBackground).0] + e1;
      added2 := [PairRows(list1, list2, blength, iMin, iMax, true, boldBackground).1] + e2;
      assert added1[1..] == e1 && added2[1..] == e2;
    }

    /** Lines 238-315, markers with different starts: the case analysis
        between a contained, a disjoint and an overlapping marker. Every
        case takes the next background colour, grows both panes by the
        same number of rows and moves a cursor forward. */
    method StepDifferentStart(lMin: seq<int>, lMax: seq<int>, blength: bool, iMin: int, iMax: int)
      returns (outcome: Outcome, nextMin: int, nextMax: int, ghost added1: seq<Row>, ghost added2: seq<Row>)
      requires Valid()
      requires iMin % 2 == 0 && iMax % 2 == 0 && |lMin| % 2 == 0 && |lMax| % 2 == 0
      requires 0 <= iMin < |lMin| && 0 <= iMax < |lMax| && lMin[iMin] != lMax[iMax]
      modifies this`pane1, this`pane2, this`colList, this`boldBackground
      ensures Valid()
      ensures colList == Rotate(old(colList))
      ensures pane1 == old(pane1) + added1 && pane2 == old(pane2) + added2
      ensures Advances(outcome, iMin, iMax, nextMin, nextMax, |lMin|, |lMax|, |added1|, |added2|)
      ensures lMax[iMax + 1] <= lMin[iMin] < lMin[iMin + 1] ==>
        && outcome == Completed && nextMin == iMin && nextMax == iMax + 2
        && |old(colList)| > 0
        && added1 == [BlockRows(list1, list2, blength, iMax, Some(old(colList)[0])).0]
        && added2 == [BlockRows(list1, list2, blength, iMax, Some(old(colList)[0])).1]
    {
      if lMin[iMin] >= lMax[iMax] && lMin[iMin + 1] <= lMax[iMax + 1] {
        nextMin, nextMax, added1, added2 := StepContained(blength, iMin, iMax);
        EvenAfter(iMin, nextMin, 1);
        EvenAfter(iMax, nextMax, 1);
        outcome := Completed;
      } else if lMin[iMin] >= lMax[iMax + 1] || lMin[iMin + 1] <= lMax[iMax] {
        nextMin, nextMax, added1, added2 := StepDisjoint(lMin, lMax, blength, iMin, iMax);
        EvenAfter(iMin, nextMin, if nextMin == iMin then 0 else 1);
        EvenAfter(iMax, nextMax, if nextMax == iMax then 0 else 1);
        outcome := Completed;
      } else {
        outcome, nextMin, nextMax, added1, added2 := StepOverlap(lMin, lMax, blength, iMin, iMax);
      }
    }

    /** One iteration of the walk while the shorter file has markers left
        (lines 143-317). Equal markers are written plain on the same line;
        every other case first takes the next background colour. Both panes
        get the same number of rows, and the cursors move forward. */
    method CompareStep(lMin: seq<int>, lMax: seq<int>, blength: bool, iMin: int, iMax: int)
      returns (outcome: Outcome, nextMin: int, nextMax: int,
               ghost rotations: nat, ghost added1: seq<Row>, ghost added2: seq<Row>)
      requires Valid()
      requires iMin % 2 == 0 && iMax % 2 == 0 && |lMin| % 2 == 0 && |lMax| % 2 == 0
      requires 0 <= iMin < |lMin| && 0 <= iMax < |lMax|
      modifies this`pane1, this`pane2, this`colList, this`boldBackground
      ensures Valid()
      ensures colList == RotateN(old(colList), rotations)
      ensures pane1 == old(pane1) + added1 && pane2 == old(pane2) + added2
      ensures Advances(outcome, iMin, iMax, nextMin, nextMax, |lMin|, |lMax|, |added1|, |added2|)
      ensures lMin[iMin] == lMax[iMax] && lMin[iMin + 1] == lMax[iMax + 1] ==>
        && outcome == Completed && rotations == 0 && nextMin == iMin + 2 && nextMax == iMax + 2
        && added1 == [PairRows(list1, list2, blength, iMin, iMax, false, None).0]
        && added2 == [PairRows(list1, list2, blength, iMin, iMax, false, None).1]
      ensures lMin[iMin] != lMax[iMax] && lMax[iMax + 1] <= lMin[iMin] < lMin[iMin + 1] ==>
        && outcome == Completed && rotations == 1 && nextMin == iMin && nextMax == iMax + 2
        && |old(colList)| > 0
        && added1 == [BlockRows(list1, list2, blength, iMax, Some(old(colList)[0])).0]
        && added2 == [BlockRows(list1, list2, blength, iMax, Some(old(colList)[0])).1]
    {
      if lMin[iMin] == lMax[iMax] && lMin[iMin + 1] == lMax[iMax + 1] {
        WritePair(blength, iMin, iMax, false);
        added1 := [PairRows(list1, list2, blength, iMin, iMax, false, None).0];
        added2 := [PairRows(list1, list2, blength, iMin, iMax, false, None).1];
        EvenAfter(iMin, iMin + 2, 1);
        EvenAfter(iMax, iMax + 2, 1);
        return Completed, iMin + 2, iMax + 2, 0, added1, added2;
      }
      rotations := 1;
      assert RotateN(old(colList), 1) == Rotate(old(colList));
      if lMin[iMin] == lMax[iMax] {
        outcome, nextMin, nextMax, added1, added2 := SameStartRows(lMin, lMax, blength, iMin, iMax);
      } else {
        outcome, nextMin, nextMax, added1, added2 := StepDifferentStart(lMin, lMax, blength, iMin, iMax);
      }
    }

    /** The lines of the longer file. */
    function MaxList(blength: bool): seq<string>
      reads this
    {
      if blength then list2 else list1
    }

    /** Writes the longer file's marker `i` in bold on that file's pane. */
    method WriteMaxMarker(blength: bool, i: int)
      modifies this`pane1, this`pane2
      ensures MinPane(blength) == old(MinPane(blength))
      ensures MaxPane(blength) == old(MaxPane(blength)) + [Bold(MaxList(blength), Div(i, 2), boldBackground)]
    {
      if blength {
        C2BWrite(Div(i, 2));
      } else {
        C1BWrite(Div(i, 2));
      }
    }

    /** The state once the longer file's markers with start indices from
        `iMax` up to `i` are written: the palette has turned once for each
        of them that starts after `lastEnd`, the shorter file's pane still
        holds `minPane`, and the longer file's pane holds `maxPane`
        followed by one bold row per marker, showing consecutive lines. Each
        row has the background taken last once its marker is counted, or
        `bg0`, the one in use before, while none is. */
    ghost predicate TailWritten(lMax: seq<int>, blength: bool, iMax: int, i: int, lastEnd: int,
                                c0: seq<Color>, bg0: Option<Color>, maxList: seq<string>,
                                minPane: seq<Row>, maxPane: seq<Row>, rotations: nat, tail: seq<Row>)
      reads this
    {
      && 0 <= iMax <= i <= |lMax| && i == iMax + 2 * |tail|
      && Valid() && |c0| > 0 && colList == RotateN(c0, rotations)
      && rotations == CountAfter(lMax, iMax, i, lastEnd)
      && boldBackground == TailBackground(c0, bg0, rotations)
      && MinPane(blength) == minPane && MaxPane(blength) == maxPane + tail
      && AllBold(tail) && TailTexts(tail, maxList, Div(iMax, 2))
      && (forall k :: 0 <= k < |tail| ==>
            tail[k].background == TailBackground(c0, bg0, CountAfter(lMax, iMax, iMax + 2 * k + 2, lastEnd)))
    }

    /** One iteration of lines 326-335: a marker starting after the shorter
        file's last end first takes the next background colour; the marker
        is then written in bold on the longer file's pane. */
    method WriteTailMarker(lMax: seq<int>, blength: bool, iMax: int, i: int, lastEnd: int,
                           ghost c0: seq<Color>, ghost bg0: Option<Color>, ghost maxList: seq<string>,
                           ghost minPane: seq<Row>, ghost maxPane: seq<Row>,
                           ghost rotations: nat, ghost tail: seq<Row>)
      returns (ghost rotations': nat, ghost tail': seq<Row>)
      requires TailWritten(lMax, blength, iMax, i, lastEnd, c0, bg0, maxList, minPane, maxPane, rotations, tail)
      requires i + 2 <= |lMax| && maxList == MaxList(blength)
      modifies this`pane1, this`pane2, this`colList, this`boldBackground
      ensures TailWritten(lMax, blength, iMax, i + 2, lastEnd, c0, bg0, maxList, minPane, maxPane, rotations', tail')
      ensures lMax[i] > lastEnd ==> boldBackground == Some(old(colList)[0])
      ensures lMax[i] <= lastEnd ==> boldBackground == old(boldBackground)
      ensures tail' == tail + [Bold(maxList, Div(i, 2), boldBackground)]
    {
      rotations' := rotations;
      if lMax[i] > lastEnd {
        SetBckCol();
        RotateNShift(c0, rotations);
        rotations' := rotations + 1;
      }
      WriteMaxMarker(blength, i);
      MarkerLine(iMax, |tail|);
      TailGrows(tail, maxList, Div(iMax, 2), Div(i, 2), boldBackground);
      tail' := tail + [Bold(maxList, Div(i, 2), boldBackground)];
    }

    /** Lines 326-335, after the shorter file runs out: every remaining
        marker of the longer file is written in bold on its own pane,
        taking the next background colour only when it starts after the
        shorter file's last end. That end is read at index `iMin - 1`,
        which does not exist when the shorter file is empty. */
    method WriteRemainingMax(lMin: seq<int>, lMax: seq<int>, blength: bool, iMin: int, iMax: int)
      returns (outcome: Outcome, ghost rotations: nat, ghost tail: seq<Row>)
      requires Valid()
      requires iMax % 2 == 0 && |lMax| % 2 == 0 && iMin == |lMin|
      requires 0 <= iMax < |lMax|
      modifies this`pane1, this`pane2, this`colList, this`boldBackground
      ensures Valid()
      ensures colList == RotateN(old(colList), rotations)
      ensures outcome == OutOfRange <==> |lMin| == 0
      ensures MinPane(blength) == old(MinPane(blength))
      ensures MaxPane(blength) == old(MaxPane(blength)) + tail && AllBold(tail)
      ensures outcome == Completed ==>
        && rotations == CountAfter(lMax, iMax, |lMax|, lMin[iMin - 1])
        && iMax + 2 * |tail| == |lMax| && TailTexts(tail, MaxList(blength), Div(iMax, 2))
        && forall k :: 0 <= k < |tail| ==>
             tail[k].background
             == TailBackground(old(colList), old(boldBackground), CountAfter(lMax, iMax, iMax + 2 * k + 2, lMin[iMin - 1]))
    {
      rotations, tail := 0, [];
      if iMin - 1 < 0 {
        return OutOfRange, rotations, tail;
      }
      var lastEnd := lMin[iMin - 1];
      var i := iMax;
      ghost var c0, bg0, maxList := colList, boldBackground, MaxList(blength);
      ghost var minPane, maxPane := MinPane(blength), MaxPane(blength);
      // the number of markers left, so that the bound needs no parity
      ghost var left := (|lMax| - iMax) / 2;
      assert |lMax| == iMax + 2 * left;
      assert maxPane + tail == maxPane;
      while i < |lMax|
        invariant TailWritten(lMax, blength, iMax, i, lastEnd, c0, bg0, maxList, minPane, maxPane, rotations, tail)
        decreases |lMax| - i
      {
        rotations, tail := WriteTailMarker(lMax, blength, iMax, i, lastEnd, c0, bg0, maxList, minPane, maxPane, rotations, tail);
        i := i + 2;
      }
      return Completed, rotations, tail;
    }

    /** The walk with its cursors at `iMin` and `iMax`, having added
        `added1`/`added2` to the panes `p1`/`p2` and turned the palette `c0`
        `rotations` times. For files with a shared prefix it is aligned;
        for a longer file with marker `m` inserted it is aligned up to that
        marker, or past it. */
    ghost predicate Walked(lMin: seq<int>, lMax: seq<int>, blength: bool, iMin: int, iMax: int, m: int,
                           c0: seq<Color>, p1: seq<Row>, p2: seq<Row>,
                           rotations: nat, added1: seq<Row>, added2: seq<Row>)
      reads this
    {
      && iMin % 2 == 0 && iMax % 2 == 0 && 0 <= iMin <= |lMin| && 0 <= iMax <= |lMax|
      && Valid() && |c0| > 0 && colList == RotateN(c0, rotations)
      && pane1 == p1 + added1 && pane2 == p2 + added2 && |added1| == |added2|
      && (|lMin| == 0 || |lMax| == 0 ==> iMin == 0 && iMax == 0 && added1 == [] && rotations == 0)
      && (SharedPrefix(lMin, lMax) ==> Aligned(list1, list2, blength, iMin, iMax, rotations, added1, added2))
      && (InsertedBefore(lMin, lMax, m) ==>
            || (iMin <= 2 * m && Aligned(list1, list2, blength, iMin, iMax, rotations, added1, added2))
            || (2 * m <= iMin && PastInsert(list1, list2, blength, iMin, iMax, m, c0, rotations, added1, added2)))
    }

    /** One pass of the loop of lines 140-318. */
    method WalkStep(lMin: seq<int>, lMax: seq<int>, blength: bool, iMin: int, iMax: int, ghost m: int,
                    ghost c0: seq<Color>, ghost p1: seq<Row>, ghost p2: seq<Row>,
                    ghost rotations: nat, ghost added1: seq<Row>, ghost added2: seq<Row>)
      returns (outcome: Outcome, nextMin: int, nextMax: int,
               ghost rotations': nat, ghost added1': seq<Row>, ghost added2': seq<Row>)
      requires |lMin| % 2 == 0 && |lMax| % 2 == 0 && iMin < |lMin| && iMax < |lMax|
      requires Walked(lMin, lMax, blength, iMin, iMax, m, c0, p1, p2, rotations, added1, added2)
      modifies this`pane1, this`pane2, this`colList, this`boldBackground
      ensures Valid() && colList == RotateN(c0, rotations')
      ensures pane1 == p1 + added1' && pane2 == p2 + added2'
      ensures SharedPrefix(lMin, lMax) || InsertedBefore(lMin, lMax, m) ==> outcome == Completed
      ensures outcome == Completed ==>
        && Walked(lMin, lMax, blength, nextMin, nextMax, m, c0, p1, p2, rotations', added1', added2')
        && nextMin + nextMax > iMin + iMax
    {
      ghost var r: nat, a1: seq<Row>, a2: seq<Row>;
      EvenStep(iMin, 0, |lMin|);
      EvenStep(iMax, 0, |lMax|);
      outcome, nextMin, nextMax, r, a1, a2 := CompareStep(lMin, lMax, blength, iMin, iMax);
      RotateNAdd(c0, rotations, r);
      rotations', added1', added2' := rotations + r, added1 + a1, added2 + a2;
      if SharedPrefix(lMin, lMax) {
        SharedMarker(lMin, lMax, iMin);
        SharedMarker(lMin, lMax, iMin + 1);
        AlignedStep(list1, list2, blength, iMin, added1, added2, a1, a2);
      }
      if InsertedBefore(lMin, lMax, m) {
        InsertedMarker(lMin, lMax, m, iMin);
        InsertedMarker(lMin, lMax, m, iMin + 1);
        if iMin < 2 * m && iMax == iMin {
          AlignedStep(list1, list2, blength, iMin, added1, added2, a1, a2);
        } else if iMin == 2 * m && iMax == iMin {
          InsertStep(list1, list2, blength, m, c0, added1, added2, a1, a2);
        } else {
          PastStep(list1, list2, blength, iMin, m, c0, added1, added2, a1, a2);
        }
      }
    }

    /** Lines 140-318: the walk over both flattened files while each has
        markers left. The panes grow in step; the walk ends when either
        cursor reaches its end, or at a read past the end of a list. */
    method WalkCommon(lMin: seq<int>, lMax: seq<int>, blength: bool)
      returns (outcome: Outcome, iMin: int, iMax: int,
               ghost rotations: nat, ghost added1: seq<Row>, ghost added2: seq<Row>)
      requires Valid()
      requires |lMin| % 2 == 0 && |lMax| % 2 == 0
      modifies this`pane1, this`pane2, this`colList, this`boldBackground
      ensures Valid()
      ensures colList == RotateN(old(colList), rotations)
      ensures pane1 == old(pane1) + added1 && pane2 == old(pane2) + added2
      ensures outcome == Completed ==>
        && |added1| == |added2|
        && iMin % 2 == 0 && iMax % 2 == 0 && 0 <= iMin <= |lMin| && 0 <= iMax <= |lMax|
        && (iMin == |lMin| || iMax == |lMax|)
      ensures |lMin| == 0 || |lMax| == 0 ==>
        outcome == Completed && iMin == 0 && iMax == 0 && added1 == [] && added2 == [] && rotations == 0
      ensures SharedPrefix(lMin, lMax) ==>
        outcome == Completed && iMin == |lMin| && Aligned(list1, list2, blength, iMin, iMax, rotations, added1, added2)
      ensures forall m :: InsertedBefore(lMin, lMax, m) ==>
        && outcome == Completed && iMin == |lMin|
        && PastInsert(list1, list2, blength, iMin, iMax, m, old(colList), rotations, added1, added2)
    {
      // the inserted marker, when the longer file is the shorter one with one marker inserted
      ghost var m := if exists m :: InsertedBefore(lMin, lMax, m) then (var m :| InsertedBefore(lMin, lMax, m); m) else 0;
      ghost var c0, p1, p2 := colList, pane1, pane2;
      iMin, iMax := 0, 0;
      rotations, added1, added2 := 0, [], [];
      assert p1 + [] == p1 && p2 + [] == p2;
      while iMax < |lMax| && iMin < |lMin|
        invariant Walked(lMin, lMax, blength, iMin, iMax, m, c0, p1, p2, rotations, added1, added2)
        decreases (|lMax| - iMax) + (|lMin| - iMin)
      {
        var step: Outcome;
        step, iMin, iMax, rotations, added1, added2 := WalkStep(lMin, lMax, blength, iMin, iMax, m, c0, p1, p2, rotations, added1, added2);
        if step == OutOfRange {
          return OutOfRange, iMin, iMax, rotations, added1, added2;
        }
      }
      outcome := Completed;
      forall m' | InsertedBefore(lMin, lMax, m')
        ensures m' == m
      {
        InsertedBeforeUnique(lMin, lMax, m', m);
      }
    }

    /** Lines 127-137: the lines of the shorter file and of the longer one
        (file 1 counts as the shorter on a tie), flattened. */
    method FlattenBoth(blength: bool, fieldValue: string -> int) returns (lMin: seq<int>, lMax: seq<int>)
      ensures lMin == Flat(if blength then list1 else list2, fieldValue)
      ensures lMax == Flat(if blength then list2 else list1, fieldValue)
    {
      if blength {
        lMin := FlattenLines(list1, fieldValue);
        lMax := FlattenLines(list2, fieldValue);
      } else {
        lMin := FlattenLines(list2, fieldValue);
        lMax := FlattenLines(list1, fieldValue);
      }
    }

    /** Lines 326-336 once the walk has completed: the rest of the longer
        file, if any, on its pane alone. */
    method WriteRest(lMin: seq<int>, lMax: seq<int>, blength: bool, iMin: int, iMax: int)
      returns (outcome: Outcome, ghost rotations: nat, ghost tail1: seq<Row>, ghost tail2: seq<Row>)
      requires Valid()
      requires iMax % 2 == 0 && |lMax| % 2 == 0 && 0 <= iMax <= |lMax|
      requires iMin == |lMin| || iMax == |lMax|
      modifies this`pane1, this`pane2, this`colList, this`boldBackground
      ensures Valid()
      ensures colList == RotateN(old(colList), rotations)
      ensures pane1 == old(pane1) + tail1 && pane2 == old(pane2) + tail2
      ensures outcome == OutOfRange <==> |lMin| == 0 && iMax < |lMax|
      ensures iMax == |lMax| ==> tail1 == [] && tail2 == [] && rotations == 0
      ensures (if blength then tail1 else tail2) == []
      ensures AllBold(if blength then tail2 else tail1)
    {
      if iMax == |lMax| {
        return Completed, 0, [], [];
      }
      ghost var tail: seq<Row>;
      outcome, rotations, tail := WriteRemainingMax(lMin, lMax, blength, iMin, iMax);
      if blength {
        tail1, tail2 := [], tail;
        assert pane1 == old(pane1) + [];
      } else {
        tail1, tail2 := tail, [];
        assert pane2 == old(pane2) + [];
      }
    }

    /** Lines 140-336 on the flattened files: the walk while both have
        markers left, then the rest of the longer file alone. */
    method CompareFlattened(lMin: seq<int>, lMax: seq<int>, blength: bool)
      returns (outcome: Outcome, ghost common: nat, ghost rotations: nat,
               ghost added1: seq<Row>, ghost added2: seq<Row>)
      requires Valid()
      requires |lMin| % 2 == 0 && |lMax| % 2 == 0
      modifies this`pane1, this`pane2, this`colList, this`boldBackground
      ensures Valid()
      ensures colList == RotateN(old(colList), rotations)
      ensures pane1 == old(pane1) + added1 && pane2 == old(pane2) + added2
      ensures |lMin| == 0 && |lMax| == 0 ==> outcome == Completed && added1 == [] && added2 == []
      ensures |lMin| == 0 && |lMax| > 0 ==> outcome == OutOfRange
      ensures outcome == Completed ==>
        var minAdded := if blength then added1 else added2;
        var maxAdded := if blength then added2 else added1;
        |minAdded| == common && common <= |maxAdded| && AllBold(maxAdded[common..])
      ensures KnownLayouts(list1, list2, blength, lMin, lMax, old(colList), outcome, common, rotations, added1, added2)
    {
      var iMin: int, iMax: int;
      outcome, iMin, iMax, rotations, added1, added2 := WalkCommon(lMin, lMax, blength);
      common := |added1|;
      if outcome == OutOfRange {
        return;
      }
      ghost var r: nat, t1: seq<Row>, t2: seq<Row>;
      outcome, r, t1, t2 := WriteRest(lMin, lMax, blength, iMin, iMax);
      RotateNAdd(old(colList), rotations, r);
      rotations := rotations + r;
      if blength {
        assert t1 == [] && (added2 + t2)[common..] == t2;
      } else {
        assert t2 == [] && (added1 + t1)[common..] == t1;
      }
      assert (added1 + t1)[..common] == added1 && (added2 + t2)[..common] == added2;
      if SharedPrefix(lMin, lMax) && |lMin| == |lMax| {
        assert iMax == |lMax| && t1 == [] && t2 == [] && r == 0;
      }
      ghost var w1, w2 := added1, added2;
      added1, added2 := added1 + t1, added2 + t2;
      assert added1[..common] == w1 && added2[..common] == w2;
    }

    /** `compare_differentF()`: the shorter file (file 1 on a tie) is the
        "min" side; both files are flattened into start/end values and
        walked with a cursor each, stepping by whole markers. While the
        shorter file has markers left, the panes grow in step; the rest of
        the longer file is then written to its pane alone, which fails at
        once when the shorter file is empty. */
    method CompareDifferent(fieldValue: string -> int)
      returns (outcome: Outcome, ghost common: nat, ghost rotations: nat,
               ghost added1: seq<Row>, ghost added2: seq<Row>)
      requires Valid()
      modifies this`pane1, this`pane2, this`colList, this`boldBackground
      ensures Valid()
      ensures colList == RotateN(old(colList), rotations)
      ensures pane1 == old(pane1) + added1 && pane2 == old(pane2) + added2
      ensures list1 == [] && list2 == [] ==> outcome == Completed && added1 == [] && added2 == []
      ensures |list1| <= |list2| && |list1| == 0 && |list2| > 0 ==> outcome == OutOfRange
      ensures |list2| < |list1| && |list2| == 0 ==> outcome == OutOfRange
      ensures outcome == Completed ==>
        var minAdded := if |list1| <= |list2| then added1 else added2;
        var maxAdded := if |list1| <= |list2| then added2 else added1;
        |minAdded| == common && common <= |maxAdded| && AllBold(maxAdded[common..])
      ensures
        var blength := |list1| <= |list2|;
        KnownLayouts(list1, list2, blength, Flat(if blength then list1 else list2, fieldValue),
                     Flat(if blength then list2 else list1, fieldValue), old(colList), outcome, common, rotations, added1, added2)
    {
      var blength := false;
      if |list1| <= |list2| {
        blength := true;
      }
      var lMin, lMax := FlattenBoth(blength, fieldValue);
      assert blength == (|list1| <= |list2|);
      assert lMin == Flat(if |list1| <= |list2| then list1 else list2, fieldValue);
      assert lMax == Flat(if |list1| <= |list2| then list2 else list1, fieldValue);
      outcome, common, rotations, added1, added2 := CompareFlattened(lMin, lMax, blength);
    }

    /** `on_compareBtn_clicked()` once both files are read: the panes and
        the bold format are reset, then the files are compared. */
    method Compare(lines1: seq<string>, lines2: seq<string>, fieldValue: string -> int)
      returns (outcome: Outcome, ghost common: nat, ghost rotations: nat)
      requires Valid()
      modifies this`list1, this`list2, this`pane1, this`pane2, this`colList, this`boldBackground
      ensures Valid() && list1 == lines1 && list2 == lines2
      ensures colList == RotateN(old(colList), rotations)
      ensures lines1 == [] && lines2 == [] ==> outcome == Completed && pane1 == [] && pane2 == []
      ensures |lines1| <= |lines2| && |lines1| == 0 && |lines2| > 0 ==> outcome == OutOfRange
      ensures |lines2| < |lines1| && |lines2| == 0 ==> outcome == OutOfRange
      ensures outcome == Completed ==>
        var minPane := if |lines1| <= |lines2| then pane1 else pane2;
        var maxPane := if |lines1| <= |lines2| then pane2 else pane1;
        |minPane| == common && common <= |maxPane| && AllBold(maxPane[common..])
      ensures
        var n := if |lines1| <= |lines2| then |lines1| else |lines2|;
        n > 0 && lines1[..n] == lines2[..n] ==>
          && outcome == Completed && common == n && n <= |pane1| && n <= |pane2|
          && (|lines1| == |lines2| ==> rotations == 0 && |pane1| == n && |pane2| == n)
          && forall k :: 0 <= k < n ==>
               pane1[k] == Line(ShownLine(lines1, k), false, None) && pane2[k] == Line(ShownLine(lines2, k), false, None)
      ensures
        var blength := |lines1| <= |lines2|;
        KnownLayouts(lines1, lines2, blength, Flat(if blength then lines1 else lines2, fieldValue),
                     Flat(if blength then lines2 else lines1, fieldValue), old(colList), outcome, common, rotations, pane1, pane2)
    {
      list1, list2 := lines1, lines2;
      pane1, pane2 := [], [];
      boldBackground := None;
      ghost var a1: seq<Row>, a2: seq<Row>;
      outcome, common, rotations, a1, a2 := CompareDifferent(fieldValue);
      assert pane1 == a1 && pane2 == a2;
      ghost var n := if |lines1| <= |lines2| then |lines1| else |lines2|;
      if n > 0 && lines1[..n] == lines2[..n] {
        SharedLinesPlain(lines1, lines2, fieldValue, old(colList), outcome, common, rotations, pane1, pane2);
      }
    }
  }
}
