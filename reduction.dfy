/**
 * The reduction applied before compression (the branch of the input
 * handler that picks `matrixToCompress`) and the expansion applied after
 * decompression (`applySymmetry`).
 */
module Reduction {
  import opened Wrappers
  import opened Text
  import opened Symmetry

  /** `row.slice(0, Math.ceil(row.length / 2))`. */
  function LeftHalf(row: string): string {
    row[..(|row| + 1) / 2]
  }

  function LeftHalves(rows: seq<string>): seq<string> {
    seq(|rows|, i requires 0 <= i < |rows| => LeftHalf(rows[i]))
  }

  /** `rows.slice(0, Math.floor(rows.length / 2))`. */
  function TopHalf(rows: seq<string>): seq<string> {
    rows[..|rows| / 2]
  }

  /**
   * The text handed to the compressor. Vertical keeps the left half of each
   * row (rounding up) and horizontal the top half of the rows, both joined
   * with separators; diagonal and none hand over the rows concatenated
   * without separators.
   */
  function Reduce(value: string, symmetries: Symmetries): (reduced: string)
    ensures !symmetries.vertical && !symmetries.horizontal ==> reduced == DropNewlines(value)
  {
    FlattenSplit(value);
    var rows := Split(value);
    var matrixArray := Flatten(rows);
    if symmetries.vertical then Join(LeftHalves(rows))
    else if symmetries.horizontal then Join(TopHalf(rows))
    else if symmetries.diagonal then matrixArray
    else matrixArray
  }

  /** Each row followed by its own reversal. */
  function MirrorEachRow(rows: seq<string>): seq<string> {
    seq(|rows|, i requires 0 <= i < |rows| => rows[i] + Reverse(rows[i]))
  }

  function ReverseEachRow(rows: seq<string>): seq<string> {
    seq(|rows|, i requires 0 <= i < |rows| => Reverse(rows[i]))
  }

  /**
   * Flag '1' mirrors every row, '2' appends the rows in reverse order below
   * the rows, '3' reverses every row; any other flag, or none, leaves the
   * text as it is.
   */
  function ApplySymmetry(matrix: string, flag: Option<char>): string {
    var rows := Split(matrix);
    if flag == Some('1') then Join(MirrorEachRow(rows))
    else if flag == Some('2') then Join(rows) + ['\n'] + Join(Reverse(rows))
    else if flag == Some('3') then Join(ReverseEachRow(rows))
    else matrix
  }

  lemma MirroredRowsKeepSeparators(rows: seq<string>)
    requires NoSeparator(rows)
    ensures NoSeparator(MirrorEachRow(rows)) && NoSeparator(ReverseEachRow(rows))
  {
    forall i | 0 <= i < |rows|
      ensures '\n' !in MirrorEachRow(rows)[i] && '\n' !in ReverseEachRow(rows)[i]
    {
      ReverseAbsent(rows[i], '\n');
    }
  }

  /**
   * Expanding with flag '1' keeps the row count and turns each row r into
   * r + reverse(r): a palindrome twice as long.
   */
  lemma MirrorExpansionRows(matrix: string)
    ensures var rows := Split(matrix);
      var out := Split(ApplySymmetry(matrix, Some('1')));
      && |out| == |rows|
      && (forall i :: 0 <= i < |rows| ==> out[i] == rows[i] + Reverse(rows[i]))
      && (forall i :: 0 <= i < |rows| ==> |out[i]| == 2 * |rows[i]| && out[i] == Reverse(out[i]))
  {
    var rows := Split(matrix);
    MirroredRowsKeepSeparators(rows);
    SplitJoin(MirrorEachRow(rows));
    forall i | 0 <= i < |rows|
      ensures rows[i] + Reverse(rows[i]) == Reverse(rows[i] + Reverse(rows[i]))
    {
      MirrorIsPalindrome(rows[i]);
    }
  }

  /** r + reverse(r) reads the same backwards. */
  lemma MirrorIsPalindrome(r: string)
    ensures Reverse(r + Reverse(r)) == r + Reverse(r)
  {
    var m := r + Reverse(r);
    forall k | 0 <= k < |m| ensures Reverse(m)[k] == m[k] {
      ReverseAt(m, k);
      if k < |r| {
        ReverseAt(r, |r| - 1 - k);
        assert m[|m| - 1 - k] == Reverse(r)[|r| - 1 - k];
      } else {
        ReverseAt(r, k - |r|);
      }
    }
  }

  /**
   * The row a vertical round trip rebuilds from row r: the left half
   * r[..ceil(|r|/2)] followed by its reversal, which on a palindrome is
   * r[..ceil(|r|/2)] + r[floor(|r|/2)..].
   */
  lemma {:induction false} LeftHalfMirror(r: string)
    requires r == Reverse(r)
    ensures LeftHalf(r) + Reverse(LeftHalf(r)) == r[..(|r| + 1) / 2] + r[|r| / 2..]
  {
    var h := LeftHalf(r);
    var c := (|r| + 1) / 2;
    forall k | 0 <= k < c ensures Reverse(h)[k] == r[|r| / 2 + k] {
      ReverseAt(h, k);
      ReverseAt(r, c - 1 - k);
      assert Reverse(h)[k] == h[c - 1 - k] == r[c - 1 - k];
    }
    assert Reverse(h) == r[|r| / 2..];
  }

  /**
   * A vertically symmetric matrix goes through reduce and expand with flag
   * '1' row by row: each row r comes back as r[..ceil(|r|/2)] + r[floor(|r|/2)..],
   * so a row of odd length gets its middle character twice.
   */
  lemma VerticalExpandReduce(value: string)
    requires DetectSymmetry(value).vertical
    ensures var rows := Split(value);
      var out := Split(ApplySymmetry(Reduce(value, DetectSymmetry(value)), Some('1')));
      && |out| == |rows|
      && forall i :: 0 <= i < |rows| ==> out[i] == rows[i][..(|rows[i]| + 1) / 2] + rows[i][|rows[i]| / 2..]
  {
    var rows := Split(value);
    var halves := LeftHalves(rows);
    assert Reduce(value, DetectSymmetry(value)) == Join(halves);
    HalvesKeepSeparators(rows);
    MirrorExpandRows(halves);
    MirroredHalves(rows);
  }

  lemma HalvesKeepSeparators(rows: seq<string>)
    requires NoSeparator(rows)
    ensures NoSeparator(LeftHalves(rows))
  {
    forall i | 0 <= i < |rows| ensures '\n' !in LeftHalves(rows)[i] {
      assert '\n' !in rows[i];
    }
  }

  /** Expanding joined rows with flag '1' gives back the rows, each mirrored. */
  lemma MirrorExpandRows(rows: seq<string>)
    requires |rows| >= 1 && NoSeparator(rows)
    ensures Split(ApplySymmetry(Join(rows), Some('1'))) == MirrorEachRow(rows)
  {
    SplitJoin(rows);
    MirroredRowsKeepSeparators(rows);
    SplitJoin(MirrorEachRow(rows));
  }

  /** Mirroring the left half of each palindromic row. */
  lemma MirroredHalves(rows: seq<string>)
    requires forall i :: 0 <= i < |rows| ==> rows[i] == Reverse(rows[i])
    ensures var mirrored := MirrorEachRow(LeftHalves(rows));
      forall i :: 0 <= i < |rows| ==> mirrored[i] == rows[i][..(|rows[i]| + 1) / 2] + rows[i][|rows[i]| / 2..]
  {
    forall i | 0 <= i < |rows|
      ensures MirrorEachRow(LeftHalves(rows))[i] == rows[i][..(|rows[i]| + 1) / 2] + rows[i][|rows[i]| / 2..]
    {
      LeftHalfMirror(rows[i]);
    }
  }

  lemma EvenRowHalves(r: string)
    requires |r| % 2 == 0
    ensures r[..(|r| + 1) / 2] + r[|r| / 2..] == r
  {
    assert (|r| + 1) / 2 == |r| / 2;
  }

  /** With every row of even length, the vertical round trip is exact. */
  lemma VerticalRoundTrip(value: string)
    requires DetectSymmetry(value).vertical
    requires forall row :: row in Split(value) ==> |row| % 2 == 0
    ensures ApplySymmetry(Reduce(value, DetectSymmetry(value)), Some('1')) == value
  {
    VerticalExpandReduce(value);
    EvenRowsRebuiltText(value, ApplySymmetry(Reduce(value, DetectSymmetry(value)), Some('1')));
  }

  /** A text whose rows are rebuilt from even-length rows is the original text. */
  lemma EvenRowsRebuiltText(value: string, out: string)
    requires forall row :: row in Split(value) ==> |row| % 2 == 0
    requires |Split(out)| == |Split(value)|
    requires forall i :: 0 <= i < |Split(value)| ==>
      Split(out)[i] == Split(value)[i][..(|Split(value)[i]| + 1) / 2] + Split(value)[i][|Split(value)[i]| / 2..]
    ensures out == value
  {
    EvenRowsRebuilt(Split(value), Split(out));
  }

  lemma EvenRowsRebuilt(rows: seq<string>, out: seq<string>)
    requires forall row :: row in rows ==> |row| % 2 == 0
    requires |out| == |rows|
    requires forall i :: 0 <= i < |rows| ==> out[i] == rows[i][..(|rows[i]| + 1) / 2] + rows[i][|rows[i]| / 2..]
    ensures out == rows
  {
    forall i | 0 <= i < |rows| ensures out[i] == rows[i] {
      assert rows[i] in rows;
      EvenRowHalves(rows[i]);
    }
  }

  /**
   * A horizontally (and not vertically) symmetric matrix of at least two
   * rows comes back as its top half of rows followed by that half reversed:
   * with an odd row count the middle row is lost.
   */
  lemma HorizontalExpandReduce(value: string)
    requires !DetectSymmetry(value).vertical && DetectSymmetry(value).horizontal
    requires |Split(value)| >= 2
    ensures var top := TopHalf(Split(value));
      Split(ApplySymmetry(Reduce(value, DetectSymmetry(value)), Some('2'))) == top + Reverse(top)
  {
    var top := TopHalf(Split(value));
    assert Reduce(value, DetectSymmetry(value)) == Join(top);
    StackExpandRows(top);
  }

  /** Expanding joined rows with flag '2' gives the rows followed by the rows reversed. */
  lemma StackExpandRows(top: seq<string>)
    requires |top| >= 1 && NoSeparator(top)
    ensures Split(ApplySymmetry(Join(top), Some('2'))) == top + Reverse(top)
  {
    SplitJoin(top);
    assert NoSeparator(Reverse(top)) by {
      forall i | 0 <= i < |top| ensures '\n' !in Reverse(top)[i] {
        ReverseAt(top, i);
      }
    }
    JoinAppend(top, Reverse(top));
    SplitJoin(top + Reverse(top));
  }

  /** With an even number of rows, the horizontal round trip is exact. */
  lemma HorizontalRoundTrip(value: string)
    requires !DetectSymmetry(value).vertical && DetectSymmetry(value).horizontal
    requires |Split(value)| % 2 == 0
    ensures ApplySymmetry(Reduce(value, DetectSymmetry(value)), Some('2')) == value
  {
    var rows := Split(value);
    var out := ApplySymmetry(Reduce(value, DetectSymmetry(value)), Some('2'));
    HorizontalExpandReduce(value);
    EvenHalvesMirror(rows);
    assert Split(out) == rows;
    assert out == Join(Split(out));
  }

  /** An even-length sequence mirrored about its middle is its top half and that half reversed. */
  lemma EvenHalvesMirror(rows: seq<string>)
    requires |rows| % 2 == 0
    requires forall i :: 0 <= i < |rows| / 2 ==> rows[i] == rows[|rows| - 1 - i]
    ensures TopHalf(rows) + Reverse(TopHalf(rows)) == rows
  {
    var n := |rows|;
    var top := TopHalf(rows);
    forall i | 0 <= i < n ensures (top + Reverse(top))[i] == rows[i] {
      if i >= n / 2 {
        ReverseAt(top, i - n / 2);
        assert rows[n - 1 - i] == rows[i];
      }
    }
  }

  /**
   * A single row that is not a palindrome is "horizontally symmetric" by
   * the vacuous test, reduces to the empty text, and expands to a lone
   * separator.
   */
  lemma SingleRowHorizontalLoss(value: string)
    requires '\n' !in value && !DetectSymmetry(value).vertical
    ensures DetectSymmetry(value).horizontal
    ensures Reduce(value, DetectSymmetry(value)) == []
    ensures ApplySymmetry(Reduce(value, DetectSymmetry(value)), Some('2')) == ['\n']
  {
    SingleRowIsHorizontal(value);
  }

  /**
   * Without vertical or horizontal symmetry some row is no palindrome, and
   * both of its characters reach the compressor.
   */
  lemma NoSymmetryReducedBoth(value: string)
    requires Sanitized(value)
    requires !DetectSymmetry(value).vertical && !DetectSymmetry(value).horizontal
    ensures '0' in Reduce(value, DetectSymmetry(value)) && '1' in Reduce(value, DetectSymmetry(value))
  {
    var rows := Split(value);
    var k :| 0 <= k < |rows| && rows[k] != Reverse(rows[k]);
    SplitSanitized(value);
    NonPalindromeHoldsBoth(rows[k]);
    FlattenSplit(value);
    InFlatten(rows, k, '0');
    InFlatten(rows, k, '1');
  }

  /**
   * In a horizontally (and not vertically) symmetric matrix with an even
   * number of rows, a row that is no palindrome, or its mirror, lies in the
   * top half, so both characters reach the compressor.
   */
  lemma HorizontalReducedBoth(value: string)
    requires Sanitized(value)
    requires !DetectSymmetry(value).vertical && DetectSymmetry(value).horizontal
    requires |Split(value)| % 2 == 0
    ensures '0' in Reduce(value, DetectSymmetry(value)) && '1' in Reduce(value, DetectSymmetry(value))
  {
    var rows := Split(value);
    var n := |rows|;
    var k :| 0 <= k < n && rows[k] != Reverse(rows[k]);
    var m := if k < n / 2 then k else n - 1 - k;
    assert rows[m] == rows[k];
    var top := TopHalf(rows);
    assert top[m] == rows[k];
    assert Reduce(value, DetectSymmetry(value)) == Join(top);
    SplitSanitized(value);
    NonPalindromeHoldsBoth(rows[k]);
    InJoin(top, m, '0');
    InJoin(top, m, '1');
  }

  /** Without any symmetry the round trip yields the matrix without separators. */
  lemma NoSymmetryFlattens(value: string)
    requires var d := DetectSymmetry(value); !d.vertical && !d.horizontal && !d.diagonal
    ensures ApplySymmetry(Reduce(value, DetectSymmetry(value)), Some('0')) == DropNewlines(value)
  {
    FlattenSplit(value);
  }

  /** Flags other than '1', '2' and '3' leave the text unchanged. */
  lemma OtherFlagsKeepText(matrix: string, flag: Option<char>)
    requires flag != Some('1') && flag != Some('2') && flag != Some('3')
    ensures ApplySymmetry(matrix, flag) == matrix
  {
  }

  /**
   * Flag '3' fixes a matrix exactly when the detector calls it vertically
   * (equivalently diagonally) symmetric, and applying it twice restores any
   * matrix.
   */
  lemma ReverseRowsFixesExactlyVertical(matrix: string)
    ensures ApplySymmetry(matrix, Some('3')) == matrix <==> DetectSymmetry(matrix).vertical
    ensures ApplySymmetry(ApplySymmetry(matrix, Some('3')), Some('3')) == matrix
  {
    var rows := Split(matrix);
    var rev := ReverseEachRow(rows);
    MirroredRowsKeepSeparators(rows);
    SplitJoin(rev);
    if DetectSymmetry(matrix).vertical {
      assert rev == rows;
    }
    if Join(rev) == matrix {
      assert rev == rows;
      forall i | 0 <= i < |rows| ensures rows[i] == Reverse(rows[i]) {
        assert rev[i] == Reverse(rows[i]);
      }
    }
    forall i | 0 <= i < |rows| ensures ReverseEachRow(rev)[i] == rows[i] {
      ReverseReverse(rows[i]);
    }
    assert ReverseEachRow(rev) == rows;
  }

  /** Reduction of a sanitised text is sanitised. */
  lemma ReduceSanitized(value: string, symmetries: Symmetries)
    requires Sanitized(value)
    ensures Sanitized(Reduce(value, symmetries))
  {
    var rows := Split(value);
    SplitSanitized(value);
    FlattenSanitized(rows);
    var halves := LeftHalves(rows);
    forall i | 0 <= i < |halves| ensures Sanitized(halves[i]) {
      assert rows[i] in rows;
    }
    JoinSanitized(halves);
    JoinSanitized(TopHalf(rows));
  }

}
