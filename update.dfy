/** The keyed merge (`update_annotations`): placeholders in the annotated
    columns of the full table become null, then every row whose index
    matches a row of the annotated subset takes that row's non-null values.

    Assumption: the frame library's `DataFrame.update` is used with its
    defaults, i.e. a left join on the key (row order and count of the full
    table kept, a null key matches nothing) in which a null in the subset
    never overwrites. */
module Update {
  import opened Frames

  /** `when(col == "tbd").then(None).otherwise(col)` applied to each of
      `names`. */
  function NullTbd(r: Row, names: seq<string>): Row
  {
    map c | c in r :: if c in names && r[c] == Str(Tbd) then Null else r[c]
  }

  /** Position of the first row of `rows` at or after `from` whose index
      cell is `key`. */
  function FindKey(rows: seq<Row>, key: Cell, from: nat): (found: Option<nat>)
    decreases |rows| - from
    ensures found.Some? ==>
              from <= found.value < |rows| && Get(rows[found.value], IndexColumn) == key
    ensures found.None? ==>
              forall j :: from <= j < |rows| ==> Get(rows[j], IndexColumn) != key
  {
    if from >= |rows| then None
    else if Get(rows[from], IndexColumn) == key then Some(from)
    else FindKey(rows, key, from + 1)
  }

  /** No two subset rows share an index value. */
  predicate DistinctKeys(rows: seq<Row>)
  {
    forall j, k :: 0 <= j < k < |rows| ==> Get(rows[j], IndexColumn) != Get(rows[k], IndexColumn)
  }

  /** The subset row that the left join pairs with a row whose key is `key`. */
  function Match(sub: seq<Row>, key: Cell): Option<nat>
  {
    if key == Null then None else FindKey(sub, key, 0)
  }

  /** One row of `update`: with a matching subset row, each of `names`
      takes the subset's value unless that value is null. */
  function UpdateRow(r: Row, sub: seq<Row>, names: seq<string>): Row
  {
    match Match(sub, Get(r, IndexColumn))
    case None => r
    case Some(j) =>
      if j < |sub| then
        map c | c in r :: if c in names && Get(sub[j], c) != Null then Get(sub[j], c) else r[c]
      else r
  }

  /** `update_annotations(original, subset)`. The library raises an error
      when the key column or one of the subset's columns is missing from
      the full table, so those are required. The left join would repeat a
      row of the full table whose key occurs twice in the subset; the
      model covers subsets with distinct keys, which is how the annotator
      builds them. */
  function UpdateAnnotations(original: Frame, subset: Frame): (result: Frame)
    requires IndexColumn in original.columns && IndexColumn in subset.columns
    requires forall c :: c in subset.columns ==> c in original.columns
    requires DistinctKeys(subset.rows)
    ensures result.columns == original.columns
    ensures |result.rows| == |original.rows|
    ensures forall p :: 0 <= p < |result.rows| ==> result.rows[p].Keys == original.rows[p].Keys
  {
    var names := Without(subset.columns, IndexColumn);
    Frame(original.columns,
          seq(|original.rows|, p requires 0 <= p < |original.rows| =>
                UpdateRow(NullTbd(original.rows[p], names), subset.rows, names)))
  }

  /** With distinct keys, the join pairs a row with the one subset row that
      carries its key. */
  lemma MatchUnique(sub: seq<Row>, j: nat)
    requires DistinctKeys(sub)
    requires j < |sub| && Get(sub[j], IndexColumn) != Null
    ensures Match(sub, Get(sub[j], IndexColumn)) == Some(j)
  {
  }

  /** A row whose index is absent from the subset keeps every cell, except
      that a "tbd" in one of the subset's columns becomes null. */
  lemma UpdateUnmatched(original: Frame, subset: Frame, p: nat)
    requires IndexColumn in original.columns && IndexColumn in subset.columns
    requires forall c :: c in subset.columns ==> c in original.columns
    requires DistinctKeys(subset.rows)
    requires p < |original.rows|
    requires forall j :: 0 <= j < |subset.rows| ==>
               Get(subset.rows[j], IndexColumn) != Get(original.rows[p], IndexColumn)
    ensures var r, r' := original.rows[p], UpdateAnnotations(original, subset).rows[p];
            r'.Keys == r.Keys &&
            forall c :: c in r ==>
              r'[c] == if c != IndexColumn && c in subset.columns && r[c] == Str(Tbd) then Null else r[c]
  {
    var names := Without(subset.columns, IndexColumn);
    var nulled := NullTbd(original.rows[p], names);
    assert Get(nulled, IndexColumn) == Get(original.rows[p], IndexColumn);
    assert Match(subset.rows, Get(nulled, IndexColumn)).None?;
  }

  /** A row whose index matches subset row `j` takes each non-null value of
      the subset's columns; its other "tbd" cells in those columns become
      null and everything else is kept. */
  lemma UpdateMatched(original: Frame, subset: Frame, p: nat, j: nat)
    requires IndexColumn in original.columns && IndexColumn in subset.columns
    requires forall c :: c in subset.columns ==> c in original.columns
    requires DistinctKeys(subset.rows)
    requires p < |original.rows| && j < |subset.rows|
    requires Get(original.rows[p], IndexColumn) != Null
    requires Get(subset.rows[j], IndexColumn) == Get(original.rows[p], IndexColumn)
    ensures var r, r', s := original.rows[p], UpdateAnnotations(original, subset).rows[p], subset.rows[j];
            r'.Keys == r.Keys &&
            forall c :: c in r ==>
              r'[c] == if c != IndexColumn && c in subset.columns && Get(s, c) != Null then Get(s, c)
                       else if c != IndexColumn && c in subset.columns && r[c] == Str(Tbd) then Null
                       else r[c]
  {
    var names := Without(subset.columns, IndexColumn);
    var nulled := NullTbd(original.rows[p], names);
    assert Get(nulled, IndexColumn) == Get(original.rows[p], IndexColumn);
    MatchUnique(subset.rows, j);
  }
}
