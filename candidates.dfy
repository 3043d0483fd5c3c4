/** Candidate selection: the rows that still hold the placeholder in at
    least one annotation column (`get_candidate_annotations`). */
module Candidates {
  import opened Frames

  /** Some listed annotation column of `r` holds exactly "tbd". A null cell
      compares as null, which the filter treats as false. */
  predicate IsCandidate(r: Row, cols: seq<string>)
  {
    exists c :: c in cols && Get(r, c) == Str(Tbd)
  }

  /** The candidate rows, in their original order. */
  function Filter(rows: seq<Row>, cols: seq<string>): seq<Row>
  {
    if rows == [] then []
    else
      var init := Filter(rows[..|rows| - 1], cols);
      if IsCandidate(rows[|rows| - 1], cols) then init + [rows[|rows| - 1]] else init
  }

  /** The row positions of the candidates, in increasing order. */
  function Positions(rows: seq<Row>, cols: seq<string>): (ps: seq<nat>)
    ensures forall j :: 0 <= j < |ps| ==> ps[j] < |rows|
  {
    if rows == [] then []
    else
      var init := Positions(rows[..|rows| - 1], cols);
      if IsCandidate(rows[|rows| - 1], cols) then init + [|rows| - 1] else init
  }

  predicate Increasing(ps: seq<nat>)
  {
    forall j, k :: 0 <= j < k < |ps| ==> ps[j] < ps[k]
  }

  /** The j-th row the filter keeps is the row at the j-th candidate
      position. */
  lemma {:induction false} FilterAt(rows: seq<Row>, cols: seq<string>)
    ensures |Filter(rows, cols)| == |Positions(rows, cols)|
    ensures forall j :: 0 <= j < |Positions(rows, cols)| ==>
              Filter(rows, cols)[j] == rows[Positions(rows, cols)[j]]
  {
    if rows != [] {
      var init := rows[..|rows| - 1];
      FilterAt(init, cols);
      assert forall j :: 0 <= j < |Positions(init, cols)| ==> init[Positions(init, cols)[j]] == rows[Positions(init, cols)[j]];
    }
  }

  /** The candidate positions are listed in increasing order. */
  lemma {:induction false} PositionsIncreasing(rows: seq<Row>, cols: seq<string>)
    ensures Increasing(Positions(rows, cols))
  {
    if rows != [] {
      PositionsIncreasing(rows[..|rows| - 1], cols);
    }
  }

  /** A position is listed iff its row is a candidate. */
  lemma {:induction false} PositionsExact(rows: seq<Row>, cols: seq<string>)
    ensures forall p :: 0 <= p < |rows| ==>
              (IsCandidate(rows[p], cols) <==> p in Positions(rows, cols))
  {
    if rows != [] {
      var init := rows[..|rows| - 1];
      PositionsExact(init, cols);
      assert forall p :: 0 <= p < |init| ==> init[p] == rows[p];
    }
  }

  /** The filter keeps exactly the candidate rows and keeps them in order:
      its j-th row is the row at the j-th candidate position, the positions
      increase, and a position is listed iff its row is a candidate. */
  lemma FilterExact(rows: seq<Row>, cols: seq<string>)
    ensures |Filter(rows, cols)| == |Positions(rows, cols)|
    ensures Increasing(Positions(rows, cols))
    ensures forall j :: 0 <= j < |Positions(rows, cols)| ==>
              Positions(rows, cols)[j] < |rows| &&
              Filter(rows, cols)[j] == rows[Positions(rows, cols)[j]]
    ensures forall p :: 0 <= p < |rows| ==>
              (IsCandidate(rows[p], cols) <==> p in Positions(rows, cols))
  {
    FilterAt(rows, cols);
    PositionsIncreasing(rows, cols);
    PositionsExact(rows, cols);
  }

  /** Candidacy depends on nothing but the cells of the listed columns. */
  lemma {:induction false} PositionsAgree(rows: seq<Row>, rows': seq<Row>, cols: seq<string>)
    requires |rows| == |rows'|
    requires forall p, c :: 0 <= p < |rows| && c in cols ==> Get(rows[p], c) == Get(rows'[p], c)
    ensures Positions(rows, cols) == Positions(rows', cols)
    ensures |Filter(rows, cols)| == |Filter(rows', cols)|
  {
    if rows != [] {
      var n := |rows| - 1;
      PositionsAgree(rows[..n], rows'[..n], cols);
      assert IsCandidate(rows[n], cols) <==> IsCandidate(rows'[n], cols) by {
        if IsCandidate(rows[n], cols) {
          var c :| c in cols && Get(rows[n], c) == Str(Tbd);
          assert Get(rows'[n], c) == Str(Tbd);
        }
        if IsCandidate(rows'[n], cols) {
          var c :| c in cols && Get(rows'[n], c) == Str(Tbd);
          assert Get(rows[n], c) == Str(Tbd);
        }
      }
    }
  }

  /** `get_candidate_annotations`: the frame restricted to its candidate
      rows. The library raises an error for a column it does not have, so
      every listed column must exist. */
  function GetCandidateAnnotations(f: Frame, cols: seq<string>): (s: Frame)
    requires forall c :: c in cols ==> c in f.columns
    ensures s.columns == f.columns
    ensures forall r :: r in s.rows ==> r in f.rows && IsCandidate(r, cols)
    ensures forall p :: 0 <= p < |f.rows| && IsCandidate(f.rows[p], cols) ==> f.rows[p] in s.rows
  {
    FilterExact(f.rows, cols);
    var s := Frame(f.columns, Filter(f.rows, cols));
    assert forall r :: r in s.rows ==> r in f.rows && IsCandidate(r, cols) by {
      forall r | r in s.rows ensures r in f.rows && IsCandidate(r, cols) {
        var j :| 0 <= j < |s.rows| && s.rows[j] == r;
        assert r == f.rows[Positions(f.rows, cols)[j]];
      }
    }
    assert forall p :: 0 <= p < |f.rows| && IsCandidate(f.rows[p], cols) ==> f.rows[p] in s.rows by {
      forall p | 0 <= p < |f.rows| && IsCandidate(f.rows[p], cols) ensures f.rows[p] in s.rows {
        var ps := Positions(f.rows, cols);
        var j :| 0 <= j < |ps| && ps[j] == p;
        assert s.rows[j] == f.rows[p];
      }
    }
    s
  }
}
