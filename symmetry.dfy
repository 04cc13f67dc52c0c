/**
 * Symmetry detection over the rows of a matrix text, and the one-character
 * flag that records which symmetry the compressor exploits.
 */
module Symmetry {
  import opened Text

  /** The three independent answers of the detector. */
  datatype Symmetries = Symmetries(vertical: bool, horizontal: bool, diagonal: bool)

  /**
   * Vertical: every row reads the same reversed. Horizontal: row i equals
   * row n-1-i over the first half of the rows. Diagonal: written as a second
   * copy of the vertical test.
   */
  function DetectSymmetry(matrix: string): (s: Symmetries)
    ensures s.diagonal == s.vertical
    ensures |Split(matrix)| == 1 ==> s.horizontal
  {
    var rows := Split(matrix);
    var n := |rows|;
    Symmetries(
      vertical := forall i :: 0 <= i < n ==> rows[i] == Reverse(rows[i]),
      horizontal := forall i :: 0 <= i < n / 2 ==> rows[i] == rows[n - 1 - i],
      diagonal := forall i :: 0 <= i < n ==> rows[i] == Reverse(rows[i]))
  }

  /** First match wins: vertical '1', horizontal '2', diagonal '3', none '0'. */
  function SymmetryFlag(s: Symmetries): (flag: char)
    ensures flag in {'0', '1', '2', '3'}
    ensures flag == '1' <==> s.vertical
    ensures flag == '2' <==> !s.vertical && s.horizontal
    ensures flag == '3' <==> !s.vertical && !s.horizontal && s.diagonal
  {
    if s.vertical then '1'
    else if s.horizontal then '2'
    else if s.diagonal then '3'
    else '0'
  }

  /** A row that reads the same from either end, stated index by index. */
  predicate Mirrored(row: string) {
    forall j :: 0 <= j < |row| ==> row[j] == row[|row| - 1 - j]
  }

  lemma RowReverseIff(row: string)
    ensures row == Reverse(row) <==> Mirrored(row)
  {
    var rev := Reverse(row);
    if Mirrored(row) {
      forall j | 0 <= j < |row| ensures rev[j] == row[j] {
        ReverseAt(row, j);
      }
      assert rev == row;
    }
    if rev == row {
      forall j | 0 <= j < |row| ensures row[j] == row[|row| - 1 - j] {
        ReverseAt(row, j);
      }
    }
  }

  /** Vertical symmetry is character-level mirror symmetry of every row. */
  lemma VerticalMeansMirroredRows(matrix: string)
    ensures DetectSymmetry(matrix).vertical <==> forall row :: row in Split(matrix) ==> Mirrored(row)
  {
    var rows := Split(matrix);
    var v := DetectSymmetry(matrix).vertical;
    assert v == forall i :: 0 <= i < |rows| ==> rows[i] == Reverse(rows[i]);
    if v {
      forall i | 0 <= i < |rows| ensures Mirrored(rows[i]) {
        RowReverseIff(rows[i]);
      }
    } else {
      var i :| 0 <= i < |rows| && rows[i] != Reverse(rows[i]);
      RowReverseIff(rows[i]);
      assert rows[i] in Split(matrix) && !Mirrored(rows[i]);
    }
  }

  /**
   * Comparing the first half of the rows with the second is the same as
   * asking that the sequence of rows read the same backwards.
   */
  lemma HorizontalMeansMirroredRowSequence(matrix: string)
    ensures var rows := Split(matrix);
      DetectSymmetry(matrix).horizontal <==> Reverse(rows) == rows
  {
    var rows := Split(matrix);
    var n := |rows|;
    if DetectSymmetry(matrix).horizontal {
      forall i | 0 <= i < n ensures Reverse(rows)[i] == rows[i] {
        ReverseAt(rows, i);
        if i < n / 2 {
          assert rows[i] == rows[n - 1 - i];
        } else if n - 1 - i < n / 2 {
          assert rows[n - 1 - i] == rows[n - 1 - (n - 1 - i)];
        } else {
          assert i == n - 1 - i;
        }
      }
    }
    if Reverse(rows) == rows {
      forall i | 0 <= i < n / 2 ensures rows[i] == rows[n - 1 - i] {
        ReverseAt(rows, i);
      }
    }
  }

  /**
   * The diagonal test is a copy of the vertical one, so the two always
   * agree and the flag '3' is never chosen for a detected matrix.
   */
  lemma DiagonalFlagUnreachable(matrix: string)
    ensures DetectSymmetry(matrix).diagonal == DetectSymmetry(matrix).vertical
    ensures SymmetryFlag(DetectSymmetry(matrix)) != '3'
  {
  }

  /**
   * A text without separators is a single row: the horizontal test looks at
   * no pair of rows and holds vacuously. The empty text is one empty row,
   * so every test holds.
   */
  lemma SingleRowIsHorizontal(matrix: string)
    requires '\n' !in matrix
    ensures |Split(matrix)| == 1
    ensures DetectSymmetry(matrix).horizontal
    ensures matrix == [] ==> DetectSymmetry(matrix) == Symmetries(true, true, true)
  {
    SplitJoin([matrix]);
  }

}
