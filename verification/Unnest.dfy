/** The transposition of UnnestInsert and the SQL `unnest` that undoes it. */
module Unnest {
  import opened Common

  /** A Go slice of one struct type: every row has the same fields. */
  ghost predicate Uniform<T>(rows: seq<seq<T>>, width: nat) {
    forall r | r in rows :: |r| == width
  }

  ghost function Columns<T>(rows: seq<seq<T>>, width: nat): seq<seq<T>>
    requires Uniform(rows, width)
  {
    if rows == [] then []
    else seq(width, i requires 0 <= i < width => seq(|rows|, j requires 0 <= j < |rows| => rows[j][i]))
  }

  /** The nested loops of UnnestInsert, which grow every column by one element for each row. */
  method Transpose<T>(rows: seq<seq<T>>, width: nat) returns (column: seq<seq<T>>)
    requires Uniform(rows, width)
    ensures column == Columns(rows, width)
  {
    column := [];
    var j := 0;
    while j < |rows|
      invariant 0 <= j <= |rows|
      invariant |column| == if j == 0 then 0 else width
      invariant forall i | 0 <= i < |column| :: |column[i]| == j
      invariant forall i, k | 0 <= i < |column| && 0 <= k < j :: column[i][k] == rows[k][i]
    {
      assert rows[j] in rows;
      var i := 0;
      while i < |rows[j]|
        invariant 0 <= i <= |rows[j]|
        invariant |column| == if j == 0 then i else width
        invariant forall h | 0 <= h < |column| :: |column[h]| == if h < i then j + 1 else j
        invariant forall h, k | 0 <= h < |column| && 0 <= k < |column[h]| :: column[h][k] == rows[k][h]
      {
        if |column| <= i {
          column := column + [[]];
        }
        column := column[i := column[i] + [rows[j][i]]];
        i := i + 1;
      }
      j := j + 1;
    }
    ghost var expected := Columns(rows, width);
    assert forall i | 0 <= i < |column| :: column[i] == expected[i];
    assert column == expected;
  }

  /** The length of the longest column. */
  function Height<T>(columns: seq<seq<T>>): nat {
    if columns == [] then 0
    else
      var rest := Height(columns[1..]);
      if |columns[0]| > rest then |columns[0]| else rest
  }

  /** `unnest` of several arrays: one row for each position, with NULL where an array is shorter. */
  function UnnestRows<T>(columns: seq<seq<T>>): seq<seq<Option<T>>> {
    seq(Height(columns), j requires 0 <= j =>
      seq(|columns|, i requires 0 <= i < |columns| => if j < |columns[i]| then Some(columns[i][j]) else None))
  }

  function NotNull<T>(rows: seq<seq<T>>): seq<seq<Option<T>>> {
    seq(|rows|, j requires 0 <= j < |rows| => seq(|rows[j]|, i requires 0 <= i < |rows[j]| => Some(rows[j][i])))
  }

  lemma {:induction false} HeightOfEqualColumns<T>(columns: seq<seq<T>>, n: nat)
    requires forall c | c in columns :: |c| == n
    ensures Height(columns) == if columns == [] then 0 else n
    decreases |columns|
  {
    if columns != [] {
      assert columns[0] in columns;
      HeightOfEqualColumns(columns[1..], n);
    }
  }

  /** The transposed columns unnest to the original rows, in order, unless rows without fields are lost. */
  lemma TransposeRoundTripIff<T>(rows: seq<seq<T>>, width: nat)
    requires Uniform(rows, width)
    ensures UnnestRows(Columns(rows, width)) == NotNull(rows) <==> rows == [] || width > 0
  {
    var columns := Columns(rows, width);
    HeightOfEqualColumns(columns, |rows|);
    var back := UnnestRows(columns);
    if rows == [] {
      assert back == NotNull(rows);
    } else if width == 0 {
      assert |back| != |NotNull(rows)|;
    } else {
      forall j | 0 <= j < |rows| ensures back[j] == NotNull(rows)[j] {
        assert rows[j] in rows;
      }
      assert back == NotNull(rows);
    }
  }
}
