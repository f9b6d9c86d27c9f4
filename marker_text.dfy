/** The text side of the marker comparison: splitting a `"start, end"`
    line, `QList::value` on the lines of a file with its index narrowed to
    `char`, and the background palette that `setBckCol` rotates. */
module MarkerText {
  import opened CArith

  // ---------------------------------------------------------------------
  // Splitting a marker line

  /** Whether `s` has the separator ", " starting at `i`. */
  predicate SepAt(s: string, i: int)
  {
    0 <= i && i + 1 < |s| && s[i] == ',' && s[i + 1] == ' '
  }

  predicate HasSep(s: string)
  {
    exists i :: 0 <= i < |s| && SepAt(s, i)
  }

  /** `QString::split(", ")` keeping empty parts: the pieces between
      occurrences of the separator, found from the left. */
  function Split(s: string): (parts: seq<string>)
    ensures |parts| >= 1
    decreases |s|
  {
    if |s| < 2 then [s]
    else if s[0] == ',' && s[1] == ' ' then [""] + Split(s[2..])
    else
      var rest := Split(s[1..]);
      [[s[0]] + rest[0]] + rest[1..]
  }

  /** The parts joined back with the separator. */
  function Join(parts: seq<string>): string
    requires |parts| >= 1
    decreases |parts|
  {
    if |parts| == 1 then parts[0] else parts[0] + ", " + Join(parts[1..])
  }

  /** Splitting loses nothing: joining the parts gives the line back. */
  lemma {:induction false} JoinSplit(s: string)
    ensures Join(Split(s)) == s
    decreases |s|
  {
    if |s| < 2 {
    } else if s[0] == ',' && s[1] == ' ' {
      JoinSplit(s[2..]);
      var rest := Split(s[2..]);
      assert Split(s) == [""] + rest;
      assert ([""] + rest)[1..] == rest;
      assert s == "" + ", " + s[2..];
    } else {
      JoinSplit(s[1..]);
      var rest := Split(s[1..]);
      var parts := [[s[0]] + rest[0]] + rest[1..];
      if |rest| == 1 {
        assert s == [s[0]] + s[1..];
      } else {
        assert parts[1..] == rest[1..];
        assert Join(rest) == rest[0] + ", " + Join(rest[1..]);
        assert s == [s[0]] + s[1..];
      }
    }
  }

  /** No part holds the separator. */
  lemma {:induction false} SplitPartsHaveNoSep(s: string)
    ensures forall k :: 0 <= k < |Split(s)| ==> !HasSep(Split(s)[k])
    decreases |s|
  {
    if |s| < 2 {
      assert !HasSep(s);
    } else if s[0] == ',' && s[1] == ' ' {
      SplitPartsHaveNoSep(s[2..]);
      assert !HasSep("");
    } else {
      SplitPartsHaveNoSep(s[1..]);
      var rest := Split(s[1..]);
      var first := [s[0]] + rest[0];
      assert !HasSep(rest[0]);
      forall i | 0 <= i < |first|
        ensures !SepAt(first, i)
      {
        if i == 0 {
          RestStartsSplit(s[1..]);
          if |rest[0]| > 0 {
            assert first[1] == rest[0][0] == s[1];
          }
        } else if i + 1 < |first| {
          assert first[i] == rest[0][i - 1] && first[i + 1] == rest[0][i];
          assert !SepAt(rest[0], i - 1);
        }
      }
    }
  }

  /** The first part of a line starts the line. */
  lemma {:induction false} RestStartsSplit(s: string)
    ensures |Split(s)[0]| <= |s| && Split(s)[0] == s[..|Split(s)[0]|]
    decreases |s|
  {
    if |s| < 2 {
    } else if s[0] == ',' && s[1] == ' ' {
    } else {
      RestStartsSplit(s[1..]);
    }
  }

  /** A line of two comma-free fields splits into exactly those fields. */
  lemma {:induction false} SplitTwoFields(a: string, b: string)
    requires forall i :: 0 <= i < |a| ==> a[i] != ','
    requires forall i :: 0 <= i < |b| ==> b[i] != ','
    ensures Split(a + ", " + b) == [a, b]
    decreases |a|
  {
    if |a| == 0 {
      assert a + ", " + b == ", " + b;
      SplitCommaFree(b);
      assert (", " + b)[2..] == b;
    } else {
      SplitTwoFields(a[1..], b);
      var s := a + ", " + b;
      assert s[1..] == a[1..] + ", " + b;
      assert [a[0]] + a[1..] == a;
    }
  }

  /** A comma-free text is a single part. */
  lemma {:induction false} SplitCommaFree(b: string)
    requires forall i :: 0 <= i < |b| ==> b[i] != ','
    ensures Split(b) == [b]
    decreases |b|
  {
    if |b| >= 2 {
      SplitCommaFree(b[1..]);
      assert [b[0]] + b[1..] == b;
    }
  }

  // ---------------------------------------------------------------------
  // Looking lines up

  /** `QList::value(i)`: the element at `i`, or the empty string for an
      index outside the list. */
  function Value(list: seq<string>, i: int): (v: string)
    ensures 0 <= i < |list| ==> v == list[i]
    ensures !(0 <= i < |list|) ==> v == ""
  {
    if 0 <= i < |list| then list[i] else ""
  }

  /** `splitList(s, i)`: field `i` of a marker line, "" when the line has
      no such field. */
  function SplitList(s: string, i: int): string
  {
    Value(Split(s), i)
  }

  /** The fields of a well-formed marker line, and the empty string for a
      missing one. */
  lemma SplitListFields(a: string, b: string)
    requires forall i :: 0 <= i < |a| ==> a[i] != ','
    requires forall i :: 0 <= i < |b| ==> b[i] != ','
    ensures SplitList(a + ", " + b, 0) == a
    ensures SplitList(a + ", " + b, 1) == b
    ensures SplitList(a + ", " + b, 2) == ""
    ensures SplitList(a, 1) == ""
  {
    SplitTwoFields(a, b);
    SplitCommaFree(a);
  }

  /** The text `c1_Bwrite` and its siblings show for line `nline` of a
      file: the index is first narrowed to a signed `char`. */
  function ShownLine(list: seq<string>, nline: int): string
  {
    Value(list, ToChar(nline))
  }

  /** Line indices below 128 show their line; indices from 128 to 255
      narrow to negative values and show nothing; from 256 on they wrap
      round to the first lines again. */
  lemma ShownLineNarrowing(list: seq<string>, nline: int)
    ensures 0 <= nline < 128 ==> ShownLine(list, nline) == Value(list, nline)
    ensures 128 <= nline < 256 ==> ShownLine(list, nline) == ""
    ensures 256 <= nline < 384 ==> ShownLine(list, nline) == Value(list, nline - 256)
  {
  }

  // ---------------------------------------------------------------------
  // The background palette

  datatype Color = LightGray | Red | Cyan | Magenta | Yellow

  /** The colours `fillCol` puts in the palette, in order. */
  const Palette: seq<Color> := [LightGray, Red, Cyan, Magenta, Yellow]

  /** One `setBckCol`: the head goes to the back. */
  function Rotate(s: seq<Color>): (r: seq<Color>)
    requires |s| > 0
    ensures |r| == |s|
  {
    s[1..] + [s[0]]
  }

  /** Rotating keeps every colour and its count. */
  lemma RotatePermutes(s: seq<Color>)
    requires |s| > 0
    ensures multiset(Rotate(s)) == multiset(s)
  {
    assert s == [s[0]] + s[1..];
  }

  /** `n` rotations in a row. */
  function RotateN(s: seq<Color>, n: nat): (r: seq<Color>)
    requires |s| > 0
    ensures |r| == |s|
    decreases n
  {
    if n == 0 then s else RotateN(Rotate(s), n - 1)
  }

  /** Any number of rotations keeps every colour and its count. */
  lemma {:induction false} RotateNPermutes(s: seq<Color>, n: nat)
    requires |s| > 0
    ensures multiset(RotateN(s, n)) == multiset(s)
    decreases n
  {
    if n > 0 {
      RotatePermutes(s);
      RotateNPermutes(Rotate(s), n - 1);
    }
  }

  /** Up to a full turn, `k` rotations move the first `k` colours to the
      back in order. */
  lemma {:induction false} RotateNSplice(s: seq<Color>, k: nat)
    requires 0 < |s| && k <= |s|
    ensures RotateN(s, k) == s[k..] + s[..k]
    decreases k
  {
    if k == 0 {
      assert s[0..] + s[..0] == s;
    } else {
      RotateNShift(s, k - 1);
      RotateNSplice(s, k - 1);
      var r := s[k - 1..] + s[..k - 1];
      assert r[0] == s[k - 1];
      assert r[1..] == s[k..] + s[..k - 1];
      assert s[..k] == s[..k - 1] + [s[k - 1]];
      assert Rotate(r) == r[1..] + [r[0]];
    }
  }

  /** One more rotation after `n`. */
  lemma {:induction false} RotateNShift(s: seq<Color>, n: nat)
    requires |s| > 0
    ensures RotateN(s, n + 1) == Rotate(RotateN(s, n))
    decreases n
  {
    if n > 0 {
      RotateNShift(Rotate(s), n - 1);
    }
  }

  /** Rotations compose by adding their counts. */
  lemma {:induction false} RotateNAdd(s: seq<Color>, a: nat, b: nat)
    requires |s| > 0
    ensures RotateN(RotateN(s, a), b) == RotateN(s, a + b)
    decreases a
  {
    if a > 0 {
      RotateNAdd(Rotate(s), a - 1, b);
    }
  }

  /** A full turn restores any palette. */
  lemma FullTurn(s: seq<Color>)
    requires |s| > 0
    ensures RotateN(s, |s|) == s
  {
    RotateNSplice(s, |s|);
    assert s[|s|..] + s[..|s|] == s;
  }

  /** Five calls of `setBckCol` restore the palette order. */
  lemma FullTurnRestoresPalette()
    ensures RotateN(Palette, 5) == Palette
  {
    FullTurn(Palette);
  }

  /** Whole turns on top of `r` rotations change nothing. */
  lemma {:induction false} RotateNTurns(s: seq<Color>, q: nat, r: nat)
    requires |s| > 0
    ensures RotateN(s, q * |s| + r) == RotateN(s, r)
    decreases q
  {
    if q > 0 {
      var rest := (q - 1) * |s| + r;
      assert |s| + rest == q * |s| + r;
      RotateNAdd(s, |s|, rest);
      FullTurn(s);
      RotateNTurns(s, q - 1, r);
    }
  }

  /** After `n` calls the palette depends only on `n` modulo 5. */
  lemma RotationPeriod(n: nat)
    ensures RotateN(Palette, n) == RotateN(Palette, n % 5)
  {
    RotateNTurns(Palette, n / 5, n % 5);
  }

  /** The colour the `n`-th call of `setBckCol` after `fillCol` hands out. */
  lemma NthBackground(n: nat)
    ensures RotateN(Palette, n)[0] == Palette[n % 5]
  {
    RotationPeriod(n);
    var k := n % 5;
    RotateNSplice(Palette, k);
    assert (Palette[k..] + Palette[..k])[0] == Palette[k];
  }

  /** Any five consecutive calls hand out five different colours. */
  lemma ConsecutiveBackgroundsDiffer(n: nat, i: nat, j: nat)
    requires i < 5 && j < 5 && i != j
    ensures RotateN(Palette, n + i)[0] != RotateN(Palette, n + j)[0]
  {
    NthBackground(n + i);
    NthBackground(n + j);
    assert (n + i) % 5 != (n + j) % 5;
  }
}
