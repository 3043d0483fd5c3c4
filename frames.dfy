/** Tables as the annotation helper sees them: an ordered list of column
    names and an ordered list of rows, each row a map from column name to a
    cell. This stands in for the dataframe library, which is not modelled;
    only the few operations the annotator uses are defined, by their meaning. */
module Frames {

  datatype Option<T> = None | Some(value: T)

  /** A cell: null, a string, or the integer of the transient row index. */
  datatype Cell = Null | Str(s: string) | Int(i: int)

  type Row = map<string, Cell>

  datatype Frame = Frame(columns: seq<string>, rows: seq<Row>)

  /** The placeholder that marks a cell still awaiting an answer. */
  const Tbd: string := "tbd"

  /** Name of the session-local positional index column. */
  const IndexColumn: string := "index"

  predicate Distinct(xs: seq<string>)
  {
    forall i, j :: 0 <= i < j < |xs| ==> xs[i] != xs[j]
  }

  /** A real dataframe: column names are unique and every row has exactly
      one cell per column. */
  predicate WellFormed(f: Frame)
  {
    Distinct(f.columns) &&
    forall p :: 0 <= p < |f.rows| ==> f.rows[p].Keys == set c | c in f.columns
  }

  /** The value of column `c` in row `r`; a missing cell reads as null. */
  function Get(r: Row, c: string): Cell
  {
    if c in r then r[c] else Null
  }

  /** `xs` with every occurrence of `x` removed, order kept. */
  function Without(xs: seq<string>, x: string): (ys: seq<string>)
    ensures forall y :: y in ys <==> y in xs && y != x
    ensures |ys| <= |xs|
  {
    if xs == [] then []
    else (if xs[0] == x then [] else [xs[0]]) + Without(xs[1..], x)
  }

  /** Removing `x` distributes over appending one name. */
  lemma {:induction false} WithoutAppend(xs: seq<string>, y: string, x: string)
    ensures Without(xs + [y], x) == Without(xs, x) + (if y == x then [] else [y])
  {
    var tail := if y == x then [] else [y];
    if xs == [] {
      assert xs + [y] == [y];
      assert Without([y], x) == tail + Without([], x);
    } else {
      var head := if xs[0] == x then [] else [xs[0]];
      WithoutAppend(xs[1..], y, x);
      assert (xs + [y])[1..] == xs[1..] + [y];
      calc {
        Without(xs + [y], x);
        head + Without(xs[1..] + [y], x);
        head + (Without(xs[1..], x) + tail);
        (head + Without(xs[1..], x)) + tail;
        Without(xs, x) + tail;
      }
    }
  }

  lemma {:induction false} WithoutDistinct(xs: seq<string>, x: string)
    requires Distinct(xs)
    ensures Distinct(Without(xs, x))
  {
    if xs != [] {
      WithoutDistinct(xs[1..], x);
      var rest := Without(xs[1..], x);
      assert xs[0] !in xs[1..];
      assert xs[0] !in rest;
    }
  }

  /** `frame.drop(name)`: the column and every row's cell for it are removed. */
  function DropColumn(f: Frame, name: string): (g: Frame)
    ensures g.columns == Without(f.columns, name)
    ensures |g.rows| == |f.rows|
    ensures forall p :: 0 <= p < |g.rows| ==> g.rows[p] == f.rows[p] - {name}
  {
    Frame(Without(f.columns, name), seq(|f.rows|, p requires 0 <= p < |f.rows| => f.rows[p] - {name}))
  }

  /** Dropping a column keeps a frame well formed. */
  lemma DropColumnWellFormed(f: Frame, name: string)
    requires WellFormed(f)
    ensures WellFormed(DropColumn(f, name))
  {
    WithoutDistinct(f.columns, name);
  }

  /** The cells of column `c`, top to bottom: `frame[c].to_list()`. */
  function Column(f: Frame, c: string): (col: seq<Cell>)
    ensures |col| == |f.rows|
    ensures forall j :: 0 <= j < |col| ==> col[j] == Get(f.rows[j], c)
  {
    seq(|f.rows|, j requires 0 <= j < |f.rows| => Get(f.rows[j], c))
  }
}
