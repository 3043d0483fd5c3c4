/** The annotation session (`annotate_frame`): add the missing annotation
    columns, number the rows, pick the candidates, ask every column's
    question for each candidate row in turn (re-asking until the answer
    validates), stop at the sample limit, and on every way out merge the
    collected answers back into the full table.

    The person at the keyboard is replaced by two finite answer streams:
    `inputAnswers[j]` holds what the caller's input function returns for
    the questions of the j-th visited row, and `consoleAnswers` what the
    console returns to the re-prompts after an invalid answer. A stream
    that runs dry stands for an interruption or any other exception raised
    while prompting; the merge runs then too. */
module Annotate {
  import opened Frames
  import opened Candidates
  import opened Update

  function Min(a: int, b: int): int { if a <= b then a else b }

  function Max(a: int, b: int): int { if a <= b then b else a }

  // ---------------------------------------------------------------------
  // Seeding the frame
  // ---------------------------------------------------------------------

  /** The names of `cols` not in `present`, each once, in order of first
      appearance: the columns the seeding loop adds. */
  function Missing(cols: seq<string>, present: seq<string>): (m: seq<string>)
    ensures forall c :: c in m <==> c in cols && c !in present
    ensures Distinct(m)
  {
    if cols == [] then []
    else
      var init := Missing(cols[..|cols| - 1], present);
      var c := cols[|cols| - 1];
      assert cols == cols[..|cols| - 1] + [c];
      if c in present || c in init then init else init + [c]
  }

  /** Cells holding the placeholder for each of `names`. */
  function TbdCells(names: seq<string>): map<string, Cell>
  {
    map c | c in names :: Str(Tbd)
  }

  /** The frame after the seeding loop: every missing annotation column
      appended, filled with "tbd" in every row. */
  function Seeded(frame: Frame, cols: seq<string>): Frame
  {
    var added := Missing(cols, frame.columns);
    Frame(frame.columns + added,
          seq(|frame.rows|, p requires 0 <= p < |frame.rows| => frame.rows[p] + TbdCells(added)))
  }

  /** `frame.with_columns([pl.Series([v] * len(frame)).alias(name)])`: a
      column of `v` replaces `name` or is appended. */
  function WithColumn(f: Frame, name: string, v: Cell): Frame
  {
    Frame(if name in f.columns then f.columns else f.columns + [name],
          seq(|f.rows|, p requires 0 <= p < |f.rows| => f.rows[p][name := v]))
  }

  /** The missing columns of one more annotation column: the old list,
      extended by that column when it is new. */
  lemma MissingStep(cols: seq<string>, present: seq<string>, k: nat)
    requires k < |cols|
    ensures var before := Missing(cols[..k], present);
            Missing(cols[..k + 1], present) ==
              if cols[k] in present || cols[k] in before then before else before + [cols[k]]
  {
    assert cols[..k + 1][..k] == cols[..k];
  }

  /** Adding one placeholder cell to a row seeded with `before`. */
  lemma SeedRow(r: Row, before: seq<string>, c: string)
    ensures (r + TbdCells(before))[c := Str(Tbd)] == r + TbdCells(before + [c])
  {
    assert TbdCells(before + [c]) == TbdCells(before)[c := Str(Tbd)];
  }

  /** One turn of the seeding loop: adding the k-th annotation column when
      it is absent extends the seeded frame by exactly that column. */
  lemma SeedStep(frame: Frame, cols: seq<string>, k: nat)
    requires k < |cols|
    ensures var g := Seeded(frame, cols[..k]);
            Seeded(frame, cols[..k + 1]) ==
              if cols[k] in g.columns then g else WithColumn(g, cols[k], Str(Tbd))
  {
    var c := cols[k];
    var g := Seeded(frame, cols[..k]);
    var before := Missing(cols[..k], frame.columns);
    var next := Seeded(frame, cols[..k + 1]);
    MissingStep(cols, frame.columns, k);
    if c !in g.columns {
      var w := WithColumn(g, c, Str(Tbd));
      forall p | 0 <= p < |frame.rows| ensures w.rows[p] == next.rows[p] {
        SeedRow(frame.rows[p], before, c);
      }
      assert w.rows == next.rows;
    }
  }

  /** The seeding loop of `annotate_frame`, which rebinds the frame once for
      every annotation column it does not have yet. */
  method AddMissingColumns(frame: Frame, cols: seq<string>) returns (g: Frame)
    ensures g == Seeded(frame, cols)
  {
    g := frame;
    assert Missing(cols[..0], frame.columns) == [];
    assert TbdCells([]) == map[];
    assert forall p :: 0 <= p < |frame.rows| ==> frame.rows[p] + map[] == frame.rows[p];
    assert g.rows == Seeded(frame, cols[..0]).rows;
    for k := 0 to |cols|
      invariant g == Seeded(frame, cols[..k])
    {
      SeedStep(frame, cols, k);
      if cols[k] !in g.columns {
        g := WithColumn(g, cols[k], Str(Tbd));
      }
    }
    assert cols[..|cols|] == cols;
  }

  /** After seeding, the frame is still a frame; every annotation column is
      one of its columns, and the original columns come first. */
  lemma SeededShape(frame: Frame, cols: seq<string>)
    requires WellFormed(frame)
    ensures var s := Seeded(frame, cols);
            WellFormed(s) &&
            |s.rows| == |frame.rows| &&
            s.columns[..|frame.columns|] == frame.columns &&
            (forall c :: c in cols ==> c in s.columns) &&
            (forall c :: c in s.columns ==> c in frame.columns || c in cols)
  {
    var s := Seeded(frame, cols);
    var added := Missing(cols, frame.columns);
    assert s.columns == frame.columns + added;
    assert s.columns[..|frame.columns|] == frame.columns;
    forall i, j | 0 <= i < j < |s.columns| ensures s.columns[i] != s.columns[j] {
      if j < |frame.columns| {
        assert s.columns[i] == frame.columns[i] && s.columns[j] == frame.columns[j];
      } else if i >= |frame.columns| {
        assert s.columns[i] == added[i - |frame.columns|];
        assert s.columns[j] == added[j - |frame.columns|];
      } else {
        assert s.columns[i] in frame.columns;
        assert s.columns[j] in added;
      }
    }
    forall p | 0 <= p < |s.rows| ensures s.rows[p].Keys == set c | c in s.columns {
      assert s.rows[p].Keys == frame.rows[p].Keys + TbdCells(added).Keys;
    }
  }

  /** Seeding keeps every existing cell and fills each new annotation
      column with "tbd". */
  lemma SeededCells(frame: Frame, cols: seq<string>, p: nat)
    requires WellFormed(frame) && p < |frame.rows|
    ensures var r := Seeded(frame, cols).rows[p];
            (forall c :: c in frame.columns ==> c in r && r[c] == frame.rows[p][c]) &&
            (forall c :: c in cols && c !in frame.columns ==> c in r && r[c] == Str(Tbd))
  {
    var added := Missing(cols, frame.columns);
    var r := Seeded(frame, cols).rows;
    assert r[p] == frame.rows[p] + TbdCells(added);
    forall c | c in frame.columns ensures c in r[p] && r[p][c] == frame.rows[p][c] {
      assert c in frame.rows[p].Keys;
      assert c !in added;
    }
    forall c | c in cols && c !in frame.columns ensures c in r[p] && r[p][c] == Str(Tbd) {
      assert c in added;
    }
  }

  /** `frame.with_columns([pl.Series(range(len(frame))).alias("index")])`. */
  function AddIndex(f: Frame): Frame
  {
    Frame(if IndexColumn in f.columns then f.columns else f.columns + [IndexColumn],
          seq(|f.rows|, p requires 0 <= p < |f.rows| => f.rows[p][IndexColumn := Int(p)]))
  }

  /** The row handed to the question functions for the row at position p:
      `frame[p].to_dicts()[0]` of the indexed frame. */
  function IndexedRow(s: Frame, p: nat): Row
    requires p < |s.rows|
  {
    s.rows[p][IndexColumn := Int(p)]
  }

  // ---------------------------------------------------------------------
  // Candidates of the indexed frame
  // ---------------------------------------------------------------------

  /** Numbering the rows changes no candidate: the candidates of the
      indexed frame are the indexed rows at the candidate positions of the
      seeded frame, in order. */
  lemma CandidateRows(s: Frame, cols: seq<string>)
    requires IndexColumn !in cols
    ensures var ps, sub := Positions(s.rows, cols), Filter(AddIndex(s).rows, cols);
            |sub| == |ps| && Increasing(ps) &&
            (forall j :: 0 <= j < |ps| ==> ps[j] < |s.rows| && sub[j] == IndexedRow(s, ps[j])) &&
            (forall p :: 0 <= p < |s.rows| ==> (IsCandidate(s.rows[p], cols) <==> p in ps))
  {
    var rows := AddIndex(s).rows;
    assert forall p, c :: 0 <= p < |rows| && c in cols ==> Get(rows[p], c) == Get(s.rows[p], c);
    PositionsAgree(rows, s.rows, cols);
    FilterExact(rows, cols);
    FilterExact(s.rows, cols);
  }

  // ---------------------------------------------------------------------
  // The answer map
  // ---------------------------------------------------------------------

  /** The prompts for one row: each column's question about that row. */
  function Ask(questions: seq<Row -> string>, r: Row): (qs: seq<string>)
    ensures |qs| == |questions|
  {
    seq(|questions|, q requires 0 <= q < |questions| => questions[q](r))
  }

  /** asked[j] holds the prompts for the row the j-th key names. */
  predicate AskedAbout(asked: seq<seq<string>>, questions: seq<Row -> string>, table: seq<Row>, keys: seq<Cell>)
  {
    |asked| <= |keys| &&
    forall j :: 0 <= j < |asked| ==>
      keys[j].Int? && 0 <= keys[j].i < |table| && asked[j] == Ask(questions, table[keys[j].i])
  }

  /** Asking about the row the next key names extends the record. */
  lemma AskedMore(asked: seq<seq<string>>, questions: seq<Row -> string>, table: seq<Row>, keys: seq<Cell>)
    requires AskedAbout(asked, questions, table, keys) && |asked| < |keys|
    requires keys[|asked|].Int? && 0 <= keys[|asked|].i < |table|
    ensures AskedAbout(asked + [Ask(questions, table[keys[|asked|].i])], questions, table, keys)
  {
  }

  /** What the input function returns for the questions of the j-th row
      reached; nothing once its stream has run dry. */
  function Given(inputAnswers: seq<seq<string>>, j: nat): seq<string>
  {
    if j < |inputAnswers| then inputAnswers[j] else []
  }

  /** The input function gave no full set of answers for row j: it raised
      before every question of that row was answered. */
  predicate InputShort(inputAnswers: seq<seq<string>>, j: nat, width: nat)
  {
    |Given(inputAnswers, j)| < width
  }

  /** The console re-prompt from position `pos` on: the first console
      answer that `valid` accepts and the position after it, or None when
      the console runs dry first. Every answer read before it was
      rejected, so N rejections cost N + 1 reads. */
  function Retry(valid: string -> bool, console: seq<string>, pos: nat): (r: Option<(string, nat)>)
    decreases |console| - pos
    ensures r.Some? ==>
              pos < r.value.1 <= |console| && r.value.0 == console[r.value.1 - 1] && valid(r.value.0) &&
              forall t :: pos <= t < r.value.1 - 1 ==> !valid(console[t])
    ensures r.None? ==> forall t :: pos <= t < |console| ==> !valid(console[t])
  {
    if pos >= |console| then None
    else if valid(console[pos]) then Some((console[pos], pos + 1))
    else Retry(valid, console, pos + 1)
  }

  /** The answer kept for one question whose input answer is `given`,
      with the console at `pos`: `given` itself when it validates, else
      the console's first valid answer; paired with the console position
      afterwards. */
  function Settle(valid: string -> bool, given: string, console: seq<string>, pos: nat): Option<(string, nat)>
  {
    if valid(given) then Some((given, pos)) else Retry(valid, console, pos)
  }

  /** The console position when question k of the i-th row reached comes
      up, the questions being settled row by row and in column order from
      the start of the console; None when an earlier question could not be
      settled. */
  function ConsoleAt(validators: seq<string -> bool>, inputAnswers: seq<seq<string>>, console: seq<string>,
                     i: nat, k: nat): (pos: Option<nat>)
    requires k <= |validators|
    decreases i, k, 0
    ensures pos.Some? ==> pos.value <= |console|
  {
    if k == 0 then
      (if i == 0 then Some(0) else ConsoleAt(validators, inputAnswers, console, i - 1, |validators|))
    else
      match SettleAt(validators, inputAnswers, console, i, k - 1)
      case None => None
      case Some(r) => Some(r.1)
  }

  /** The answer the session keeps for question q of the i-th row reached,
      with the console position after it; None when that question is never
      settled because the input function or the console ran dry first. A
      kept answer is one the column's validator accepts, and it is the
      input function's own answer whenever that one validates. */
  function SettleAt(validators: seq<string -> bool>, inputAnswers: seq<seq<string>>, console: seq<string>,
                    i: nat, q: nat): (r: Option<(string, nat)>)
    requires q < |validators|
    decreases i, q, 1
    ensures r.Some? ==>
              !InputShort(inputAnswers, i, |validators|) && validators[q](r.value.0) && r.value.1 <= |console| &&
              (validators[q](Given(inputAnswers, i)[q]) ==> r.value.0 == Given(inputAnswers, i)[q])
  {
    match ConsoleAt(validators, inputAnswers, console, i, q)
    case None => None
    case Some(pos) =>
      if InputShort(inputAnswers, i, |validators|) then None
      else Settle(validators[q], Given(inputAnswers, i)[q], console, pos)
  }

  /** A stored answer: the answer the session keeps for that question. */
  predicate Answered(cell: Cell, validators: seq<string -> bool>, inputAnswers: seq<seq<string>>,
                     console: seq<string>, j: nat, q: nat)
    requires q < |validators|
  {
    var r := SettleAt(validators, inputAnswers, console, j, q);
    r.Some? && cell == Str(r.value.0)
  }

  /** Every annotation column has one slot per candidate. */
  predicate Shaped(m: map<string, seq<Cell>>, cols: seq<string>, n: nat)
  {
    forall q :: 0 <= q < |cols| ==> cols[q] in m && |m[cols[q]]| == n
  }

  /** The answer map after the rows before i are done and, in row i, the
      columns before k: those slots are answered, every other slot still
      holds its value in `m0`, the map as seeded. */
  predicate Progress(m: map<string, seq<Cell>>, m0: map<string, seq<Cell>>, n: nat, cols: seq<string>,
                     validators: seq<string -> bool>, inputAnswers: seq<seq<string>>, console: seq<string>,
                     i: nat, k: nat)
    requires Shaped(m, cols, n) && Shaped(m0, cols, n) && |validators| == |cols|
  {
    forall j, q :: 0 <= j < n && 0 <= q < |cols| ==>
      if j < i || (j == i && q < k) then Answered(m[cols[q]][j], validators, inputAnswers, console, j, q)
      else m[cols[q]][j] == m0[cols[q]][j]
  }

  /** Storing the kept answer of question k of the i-th row moves the
      progress on by one column and touches no other slot. */
  lemma ProgressStep(m: map<string, seq<Cell>>, m0: map<string, seq<Cell>>, n: nat, cols: seq<string>,
                     validators: seq<string -> bool>, inputAnswers: seq<seq<string>>, console: seq<string>,
                     i: nat, k: nat, answer: string)
    requires Distinct(cols) && Shaped(m, cols, n) && Shaped(m0, cols, n) && |validators| == |cols|
    requires i < n && k < |cols|
    requires Progress(m, m0, n, cols, validators, inputAnswers, console, i, k)
    requires SettleAt(validators, inputAnswers, console, i, k).Some?
    requires answer == SettleAt(validators, inputAnswers, console, i, k).value.0
    ensures var m' := m[cols[k] := m[cols[k]][i := Str(answer)]];
            (forall c :: c !in cols ==> c in m' <==> c in m) &&
            (forall c :: c in m && c != cols[k] ==> m'[c] == m[c]) &&
            Shaped(m', cols, n) && Progress(m', m0, n, cols, validators, inputAnswers, console, i, k + 1)
  {
    var m' := m[cols[k] := m[cols[k]][i := Str(answer)]];
    assert forall q :: 0 <= q < |cols| && q != k ==> cols[q] != cols[k];
    forall j, q | 0 <= j < n && 0 <= q < |cols|
      ensures if j < i || (j == i && q < k + 1) then Answered(m'[cols[q]][j], validators, inputAnswers, console, j, q)
              else m'[cols[q]][j] == m0[cols[q]][j]
    {
      if q != k {
        assert m'[cols[q]] == m[cols[q]];
      }
    }
  }

  /** The answer map as seeded for the candidates of `s`: each annotation
      column's value in each candidate row, in candidate order. */
  function SeedSlots(s: Frame, cols: seq<string>): (m0: map<string, seq<Cell>>)
    ensures Shaped(m0, cols, |Positions(s.rows, cols)|)
    ensures forall j, q :: 0 <= j < |Positions(s.rows, cols)| && 0 <= q < |cols| ==>
              m0[cols[q]][j] == Get(s.rows[Positions(s.rows, cols)[j]], cols[q])
  {
    var ps := Positions(s.rows, cols);
    map c | c in cols :: seq(|ps|, j requires 0 <= j < |ps| => Get(s.rows[ps[j]], c))
  }

  /** `pl.DataFrame(subset_annotation_map)`: the index column, then one
      column per annotation column. */
  function AnswerFrame(cols: seq<string>, m: map<string, seq<Cell>>, n: nat): Frame
    requires IndexColumn in m && |m[IndexColumn]| == n && Shaped(m, cols, n)
  {
    var names := [IndexColumn] + cols;
    Frame(names, seq(n, j requires 0 <= j < n => map c | c in names :: m[c][j]))
  }

  /** The answer frame fits the merge: its columns are columns of the
      indexed frame and its keys are the distinct candidate positions. */
  lemma AnswerFrameFits(s: Frame, cols: seq<string>, m: map<string, seq<Cell>>, n: nat)
    requires forall c :: c in cols ==> c in s.columns
    requires n == |Positions(s.rows, cols)| && Increasing(Positions(s.rows, cols))
    requires IndexColumn in m && |m[IndexColumn]| == n && Shaped(m, cols, n)
    requires forall j :: 0 <= j < n ==> m[IndexColumn][j] == Int(Positions(s.rows, cols)[j])
    ensures var a, t := AnswerFrame(cols, m, n), AddIndex(s);
            IndexColumn in t.columns && IndexColumn in a.columns &&
            (forall c :: c in a.columns ==> c in t.columns) &&
            DistinctKeys(a.rows) &&
            forall j :: 0 <= j < n ==> Get(a.rows[j], IndexColumn) == Int(Positions(s.rows, cols)[j])
  {
  }

  /** Row j of the answer frame carries slot j of every column of the
      answer map. */
  lemma AnswerRows(cols: seq<string>, m: map<string, seq<Cell>>, n: nat)
    requires IndexColumn in m && |m[IndexColumn]| == n && Shaped(m, cols, n)
    ensures forall c :: c in cols ==> c in m
    ensures var a := AnswerFrame(cols, m, n);
            |a.rows| == n &&
            (forall c :: c in a.columns <==> c == IndexColumn || c in cols) &&
            (forall j :: 0 <= j < n ==> Get(a.rows[j], IndexColumn) == m[IndexColumn][j]) &&
            forall j, c :: 0 <= j < n && c in cols ==> Get(a.rows[j], c) == m[c][j]
  {
    forall c | c in cols ensures c in m {
      var q :| 0 <= q < |cols| && cols[q] == c;
    }
  }

  /** The merge keeps the row count and drops only the index column. */
  lemma SessionShape(s: Frame, a: Frame)
    requires IndexColumn in AddIndex(s).columns && IndexColumn in a.columns
    requires forall c :: c in a.columns ==> c in AddIndex(s).columns
    requires DistinctKeys(a.rows)
    ensures var result := DropColumn(UpdateAnnotations(AddIndex(s), a), IndexColumn);
            |result.rows| == |s.rows| && result.columns == Without(s.columns, IndexColumn)
  {
    if IndexColumn !in s.columns {
      WithoutAppend(s.columns, IndexColumn, IndexColumn);
    }
  }

  /** What the merge makes of a session, part one: a row that is not a
      candidate comes back as it was. */
  lemma SessionNonCandidates(s: Frame, cols: seq<string>, m: map<string, seq<Cell>>, n: nat, a: Frame)
    requires IndexColumn !in cols
    requires n == |Positions(s.rows, cols)|
    requires forall p :: 0 <= p < |s.rows| ==> (IsCandidate(s.rows[p], cols) <==> p in Positions(s.rows, cols))
    requires IndexColumn in m && |m[IndexColumn]| == n && Shaped(m, cols, n)
    requires forall j :: 0 <= j < n ==> m[IndexColumn][j] == Int(Positions(s.rows, cols)[j])
    requires |a.rows| == n && forall c :: c in a.columns <==> c == IndexColumn || c in cols
    requires forall j :: 0 <= j < n ==> Get(a.rows[j], IndexColumn) == m[IndexColumn][j]
    requires IndexColumn in AddIndex(s).columns && IndexColumn in a.columns
    requires forall c :: c in a.columns ==> c in AddIndex(s).columns
    requires DistinctKeys(a.rows)
    ensures forall p :: 0 <= p < |s.rows| && !IsCandidate(s.rows[p], cols) ==>
              UpdateAnnotations(AddIndex(s), a).rows[p] - {IndexColumn} == s.rows[p] - {IndexColumn}
  {
    forall p | 0 <= p < |s.rows| && !IsCandidate(s.rows[p], cols)
      ensures UpdateAnnotations(AddIndex(s), a).rows[p] - {IndexColumn} == s.rows[p] - {IndexColumn}
    {
      MergeNonCandidate(s, cols, m, n, a, p);
    }
  }

  /** What the merge makes of a session, part two: the row of the j-th
      candidate comes back with each annotation column set to the j-th
      answer slot. Placeholders that the merge turns into null are written
      back by the update wherever the slot still holds them, so no "tbd" of
      an unvisited candidate is lost. */
  lemma SessionCandidates(s: Frame, cols: seq<string>, m: map<string, seq<Cell>>, n: nat, a: Frame)
    requires WellFormed(s) && IndexColumn !in cols
    requires forall c :: c in cols ==> c in s.columns
    requires n == |Positions(s.rows, cols)|
    requires IndexColumn in m && |m[IndexColumn]| == n && Shaped(m, cols, n)
    requires forall j :: 0 <= j < n ==> m[IndexColumn][j] == Int(Positions(s.rows, cols)[j])
    requires forall j, q :: 0 <= j < n && 0 <= q < |cols| ==>
               m[cols[q]][j].Str? || m[cols[q]][j] == Get(s.rows[Positions(s.rows, cols)[j]], cols[q])
    requires forall c :: c in cols ==> c in m
    requires |a.rows| == n && forall c :: c in a.columns <==> c == IndexColumn || c in cols
    requires forall j :: 0 <= j < n ==> Get(a.rows[j], IndexColumn) == m[IndexColumn][j]
    requires forall j, c :: 0 <= j < n && c in cols ==> Get(a.rows[j], c) == m[c][j]
    requires IndexColumn in AddIndex(s).columns && IndexColumn in a.columns
    requires forall c :: c in a.columns ==> c in AddIndex(s).columns
    requires DistinctKeys(a.rows)
    ensures forall j :: 0 <= j < n ==>
              UpdateAnnotations(AddIndex(s), a).rows[Positions(s.rows, cols)[j]] - {IndexColumn} ==
                (s.rows[Positions(s.rows, cols)[j]] + map c | c in cols :: m[c][j]) - {IndexColumn}
  {
    var ps := Positions(s.rows, cols);
    forall j | 0 <= j < n
      ensures UpdateAnnotations(AddIndex(s), a).rows[ps[j]] - {IndexColumn} == (s.rows[ps[j]] + map c | c in cols :: m[c][j]) - {IndexColumn}
    {
      assert s.rows[ps[j]].Keys == set c | c in s.columns;
      MergeCandidate(s, cols, m, a, j, ps[j]);
    }
  }

  lemma MergeNonCandidate(s: Frame, cols: seq<string>, m: map<string, seq<Cell>>, n: nat, a: Frame, p: nat)
    requires IndexColumn !in cols
    requires n == |Positions(s.rows, cols)|
    requires p < |s.rows| && !IsCandidate(s.rows[p], cols) && p !in Positions(s.rows, cols)
    requires IndexColumn in m && |m[IndexColumn]| == n && Shaped(m, cols, n)
    requires forall j :: 0 <= j < n ==> m[IndexColumn][j] == Int(Positions(s.rows, cols)[j])
    requires |a.rows| == n && forall c :: c in a.columns <==> c == IndexColumn || c in cols
    requires forall j :: 0 <= j < n ==> Get(a.rows[j], IndexColumn) == m[IndexColumn][j]
    requires IndexColumn in AddIndex(s).columns && IndexColumn in a.columns
    requires forall c :: c in a.columns ==> c in AddIndex(s).columns
    requires DistinctKeys(a.rows)
    ensures UpdateAnnotations(AddIndex(s), a).rows[p] - {IndexColumn} == s.rows[p] - {IndexColumn}
  {
    var ps := Positions(s.rows, cols);
    forall j | 0 <= j < |a.rows| ensures Get(a.rows[j], IndexColumn) != Int(p) {
      assert ps[j] != p;
    }
    assert forall c :: c in a.columns && c != IndexColumn ==> c in cols;
    assert forall c :: c in cols ==> Get(s.rows[p], c) != Str(Tbd);
    UnmatchedRow(AddIndex(s), a, cols, p, s.rows[p]);
  }

  lemma MergeCandidate(s: Frame, cols: seq<string>, m: map<string, seq<Cell>>, a: Frame, j: nat, p: nat)
    requires IndexColumn !in cols
    requires p < |s.rows| && forall c :: c in cols ==> c in s.rows[p]
    requires j < |a.rows| && forall c :: c in a.columns <==> c == IndexColumn || c in cols
    requires Get(a.rows[j], IndexColumn) == Int(p)
    requires forall c :: c in cols ==> c in m && j < |m[c]| && Get(a.rows[j], c) == m[c][j]
    requires forall q :: 0 <= q < |cols| ==> m[cols[q]][j].Str? || m[cols[q]][j] == Get(s.rows[p], cols[q])
    requires IndexColumn in AddIndex(s).columns && IndexColumn in a.columns
    requires forall c :: c in a.columns ==> c in AddIndex(s).columns
    requires DistinctKeys(a.rows)
    ensures UpdateAnnotations(AddIndex(s), a).rows[p] - {IndexColumn} ==
              (s.rows[p] + map c | c in cols :: m[c][j]) - {IndexColumn}
  {
    assert AddIndex(s).rows[p] == s.rows[p][IndexColumn := Int(p)];
    MatchedRow(AddIndex(s), a, cols, p, j, s.rows[p], m);
  }

  /** The update on a row that is not a candidate changes nothing but the
      index column: none of its annotation cells holds "tbd". */
  lemma UnmatchedRow(t: Frame, a: Frame, cols: seq<string>, p: nat, row: Row)
    requires IndexColumn in t.columns && IndexColumn in a.columns
    requires forall c :: c in a.columns ==> c in t.columns
    requires DistinctKeys(a.rows)
    requires p < |t.rows| && t.rows[p] == row[IndexColumn := Int(p)]
    requires forall j :: 0 <= j < |a.rows| ==> Get(a.rows[j], IndexColumn) != Int(p)
    requires forall c :: c in a.columns && c != IndexColumn ==> c in cols
    requires forall c :: c in cols ==> Get(row, c) != Str(Tbd)
    ensures UpdateAnnotations(t, a).rows[p] - {IndexColumn} == row - {IndexColumn}
  {
    UpdateUnmatched(t, a, p);
    var merged := UpdateAnnotations(t, a).rows[p];
    forall c | c in merged && c != IndexColumn ensures c in row && merged[c] == row[c] {
    }
  }

  /** The cell-by-cell outcome of the update on a matched row, gathered
      into one map: the row overlaid with slot j of the answer map. */
  lemma OverlayRow(row: Row, merged: Row, cols: seq<string>, m: map<string, seq<Cell>>, j: nat)
    requires IndexColumn !in cols
    requires forall c :: c in cols ==> c in row && c in m && j < |m[c]|
    requires merged.Keys == row.Keys + {IndexColumn}
    requires forall q :: 0 <= q < |cols| ==> m[cols[q]][j].Str? || m[cols[q]][j] == row[cols[q]]
    requires forall c :: c in merged && c != IndexColumn ==>
               merged[c] == if c in cols && m[c][j] != Null then m[c][j]
                            else if c in cols && row[c] == Str(Tbd) then Null
                            else row[c]
    ensures merged - {IndexColumn} == (row + map c | c in cols :: m[c][j]) - {IndexColumn}
  {
    var want := (row + map c | c in cols :: m[c][j]) - {IndexColumn};
    forall c | c in merged && c != IndexColumn ensures c in want && merged[c] == want[c] {
      if c in cols {
        var q :| 0 <= q < |cols| && cols[q] == c;
      }
    }
  }

  /** The update on the row of a candidate: the row overlaid with slot j of
      the answer map. */
  lemma MatchedRow(t: Frame, a: Frame, cols: seq<string>, p: nat, j: nat, row: Row, m: map<string, seq<Cell>>)
    requires IndexColumn in t.columns && IndexColumn in a.columns
    requires forall c :: c in a.columns ==> c in t.columns
    requires DistinctKeys(a.rows)
    requires p < |t.rows| && j < |a.rows|
    requires t.rows[p] == row[IndexColumn := Int(p)]
    requires Get(a.rows[j], IndexColumn) == Int(p)
    requires IndexColumn !in cols
    requires forall c :: c in a.columns && c != IndexColumn <==> c in cols
    requires forall c :: c in cols ==> c in row && c in m && j < |m[c]| && Get(a.rows[j], c) == m[c][j]
    requires forall q :: 0 <= q < |cols| ==> m[cols[q]][j].Str? || m[cols[q]][j] == row[cols[q]]
    ensures UpdateAnnotations(t, a).rows[p] - {IndexColumn} ==
              (row + map c | c in cols :: m[c][j]) - {IndexColumn}
  {
    UpdateMatched(t, a, p, j);
    OverlayRow(row, UpdateAnnotations(t, a).rows[p], cols, m, j);
  }

  // ---------------------------------------------------------------------
  // The session
  // ---------------------------------------------------------------------

  /** The seeded and indexed table has every annotation column, and its
      candidate subset has one row per candidate position. */
  lemma SeededCandidates(frame: Frame, cols: seq<string>)
    requires IndexColumn !in cols
    ensures var s := Seeded(frame, cols);
            (forall c :: c in cols ==> c in AddIndex(s).columns) &&
            |GetCandidateAnnotations(AddIndex(s), cols).rows| == |Positions(s.rows, cols)|
  {
    var s := Seeded(frame, cols);
    assert s.columns == frame.columns + Missing(cols, frame.columns);
    CandidateRows(s, cols);
  }

  /** The answer map seeded from the candidate subset of the indexed table
      holds, in slot j, the position of the j-th candidate and that row's
      annotation cells. */
  lemma SeedsAgree(s: Frame, cols: seq<string>, subset: Frame, m0: map<string, seq<Cell>>)
    requires IndexColumn !in cols
    requires forall c :: c in cols ==> c in AddIndex(s).columns
    requires subset == GetCandidateAnnotations(AddIndex(s), cols)
    requires IndexColumn in m0 && m0[IndexColumn] == Column(subset, IndexColumn)
    requires forall q :: 0 <= q < |cols| ==> cols[q] in m0 && m0[cols[q]] == Column(subset, cols[q])
    ensures var ps := Positions(s.rows, cols);
            |subset.rows| == |ps| && |m0[IndexColumn]| == |ps| && Shaped(m0, cols, |ps|) &&
            (forall j :: 0 <= j < |ps| ==> ps[j] < |s.rows| && m0[IndexColumn][j] == Int(ps[j])) &&
            forall j, q :: 0 <= j < |ps| && 0 <= q < |cols| ==> m0[cols[q]][j] == SeedSlots(s, cols)[cols[q]][j]
  {
    CandidateRows(s, cols);
    var ps := Positions(s.rows, cols);
    assert subset.rows == Filter(AddIndex(s).rows, cols);
    forall j, q | 0 <= j < |ps| && 0 <= q < |cols|
      ensures m0[cols[q]][j] == SeedSlots(s, cols)[cols[q]][j]
    {
      assert subset.rows[j] == IndexedRow(s, ps[j]);
      assert cols[q] != IndexColumn;
    }
  }

  /** What prompting leaves in the answer map `m`, seeded as `m0` with `n`
      slots per column, given the streams. Without an interruption the
      rows fully answered are the first min(max(num_samples, 1), n), and
      the console has been read up to `consumed`, the position its answers
      lead to. An interruption happens in row `visited`, before that bound,
      at the question `stopCol` that the streams cannot settle: either the
      input function ran short on that row (then nothing of the row is
      stored) or the console ran dry. The answered slots hold the kept
      answers; every other slot still holds its seed. */
  ghost predicate PromptedAs(m: map<string, seq<Cell>>, m0: map<string, seq<Cell>>, n: nat, numSamples: int,
                             cols: seq<string>, validators: seq<string -> bool>, inputAnswers: seq<seq<string>>,
                             console: seq<string>, interrupted: bool, visited: nat, stopCol: nat, consumed: nat)
  {
    Shaped(m, cols, n) && Shaped(m0, cols, n) && |validators| == |cols| &&
    (!interrupted ==>
       visited == Min(Max(numSamples, 1), n) && stopCol == 0 &&
       ConsoleAt(validators, inputAnswers, console, visited, 0) == Some(consumed)) &&
    (interrupted ==>
       visited < Min(Max(numSamples, 1), n) && stopCol < |cols| &&
       SettleAt(validators, inputAnswers, console, visited, stopCol).None? &&
       (InputShort(inputAnswers, visited, |cols|) ==>
          stopCol == 0 && ConsoleAt(validators, inputAnswers, console, visited, 0) == Some(consumed)) &&
       (!InputShort(inputAnswers, visited, |cols|) ==> consumed == |console|)) &&
    Progress(m, m0, n, cols, validators, inputAnswers, console, visited, stopCol)
  }

  /** Some question of the first `rows` rows reached cannot be settled
      from the streams. */
  predicate Unsettled(validators: seq<string -> bool>, inputAnswers: seq<seq<string>>, console: seq<string>,
                      rows: nat)
  {
    exists j, q :: 0 <= j < rows && 0 <= q < |validators| && SettleAt(validators, inputAnswers, console, j, q).None?
  }

  /** Prompting is interrupted exactly when the streams cannot settle some
      question of the first min(max(num_samples, 1), n) rows. */
  lemma InterruptedExactly(m: map<string, seq<Cell>>, m0: map<string, seq<Cell>>, n: nat, numSamples: int,
                           cols: seq<string>, validators: seq<string -> bool>, inputAnswers: seq<seq<string>>,
                           console: seq<string>, interrupted: bool, visited: nat, stopCol: nat, consumed: nat)
    requires PromptedAs(m, m0, n, numSamples, cols, validators, inputAnswers, console, interrupted, visited,
                        stopCol, consumed)
    ensures interrupted <==> Unsettled(validators, inputAnswers, console, Min(Max(numSamples, 1), n))
  {
    if interrupted {
      assert 0 <= visited < Min(Max(numSamples, 1), n) && 0 <= stopCol < |validators| &&
             SettleAt(validators, inputAnswers, console, visited, stopCol).None?;
    } else {
      forall j, q | 0 <= j < visited && 0 <= q < |validators|
        ensures SettleAt(validators, inputAnswers, console, j, q).Some?
      {
        assert Answered(m[cols[q]][j], validators, inputAnswers, console, j, q);
      }
    }
  }

  /** The input function gives a full set of answers, each one valid, for
      every row before `rows`. */
  predicate ValidInputs(validators: seq<string -> bool>, inputAnswers: seq<seq<string>>, rows: nat)
  {
    forall j :: 0 <= j < rows ==>
      !InputShort(inputAnswers, j, |validators|) &&
      forall q :: 0 <= q < |validators| ==> validators[q](Given(inputAnswers, j)[q])
  }

  /** While the input answers are all valid the console is never read. */
  lemma {:induction false} ConsoleUnread(validators: seq<string -> bool>, inputAnswers: seq<seq<string>>,
                                         console: seq<string>, i: nat, k: nat)
    requires k <= |validators| && ValidInputs(validators, inputAnswers, if k == 0 then i else i + 1)
    ensures ConsoleAt(validators, inputAnswers, console, i, k) == Some(0)
    decreases i, k
  {
    if k == 0 {
      if i > 0 {
        ConsoleUnread(validators, inputAnswers, console, i - 1, |validators|);
      }
    } else {
      ConsoleUnread(validators, inputAnswers, console, i, k - 1);
    }
  }

  /** With full, valid input answers for the rows to be answered, prompting
      is not interrupted and reads no console answer. */
  lemma ValidInputsComplete(m: map<string, seq<Cell>>, m0: map<string, seq<Cell>>, n: nat, numSamples: int,
                            cols: seq<string>, validators: seq<string -> bool>, inputAnswers: seq<seq<string>>,
                            console: seq<string>, interrupted: bool, visited: nat, stopCol: nat, consumed: nat)
    requires PromptedAs(m, m0, n, numSamples, cols, validators, inputAnswers, console, interrupted, visited,
                        stopCol, consumed)
    requires ValidInputs(validators, inputAnswers, Min(Max(numSamples, 1), n))
    ensures !interrupted && consumed == 0
  {
    var rows := Min(Max(numSamples, 1), n);
    forall j, q | 0 <= j < rows && 0 <= q < |validators|
      ensures SettleAt(validators, inputAnswers, console, j, q).Some?
    {
      ConsoleUnread(validators, inputAnswers, console, j, q);
    }
    InterruptedExactly(m, m0, n, numSamples, cols, validators, inputAnswers, console, interrupted, visited,
                       stopCol, consumed);
    ConsoleUnread(validators, inputAnswers, console, visited, 0);
  }

  /** What the merge makes of the table `s` given the final answer map: the
      table keeps its rows and loses only the index column; a row that is
      not a candidate comes back as it was, and the j-th candidate row takes
      the j-th slot of every annotation column. */
  ghost predicate MergedAs(s: Frame, cols: seq<string>, answers: map<string, seq<Cell>>, result: Frame)
  {
    var ps := Positions(s.rows, cols);
    (forall c :: c in cols ==> c in answers && |answers[c]| == |ps|) &&
    |result.rows| == |s.rows| && result.columns == Without(s.columns, IndexColumn) &&
    (forall p :: 0 <= p < |s.rows| && !IsCandidate(s.rows[p], cols) ==>
       result.rows[p] == s.rows[p] - {IndexColumn}) &&
    forall j :: 0 <= j < |ps| ==>
      result.rows[ps[j]] == (s.rows[ps[j]] + map c | c in cols :: answers[c][j]) - {IndexColumn}
  }

  /** Numbering the rows and dropping the numbers again gives back the
      table, less any column that was already called "index". */
  lemma IndexDropped(s: Frame)
    ensures var result := DropColumn(AddIndex(s), IndexColumn);
            |result.rows| == |s.rows| && result.columns == Without(s.columns, IndexColumn) &&
            forall p :: 0 <= p < |s.rows| ==> result.rows[p] == s.rows[p] - {IndexColumn}
  {
    if IndexColumn !in s.columns {
      WithoutAppend(s.columns, IndexColumn, IndexColumn);
    }
  }

  /** Without candidates no row is visited, no slot is answered, no
      console answer is read, and the table comes back as seeded. */
  lemma NoCandidates(s: Frame, cols: seq<string>, numSamples: int, validators: seq<string -> bool>,
                     inputAnswers: seq<seq<string>>, console: seq<string>)
    requires |Positions(s.rows, cols)| == 0 && |validators| == |cols|
    ensures var none := map c | c in cols :: [];
            MergedAs(s, cols, none, DropColumn(AddIndex(s), IndexColumn)) &&
            PromptedAs(none, SeedSlots(s, cols), 0, numSamples, cols, validators, inputAnswers, console,
                       false, 0, 0, 0)
  {
    IndexDropped(s);
  }

  /** Prompting reads the seeds only through their values: a seed map
      with the same slots describes the same outcome. Every slot ends up
      answered with a string or still holds its seed. */
  lemma PromptedTransfer(m: map<string, seq<Cell>>, m0: map<string, seq<Cell>>, m1: map<string, seq<Cell>>,
                         n: nat, numSamples: int, cols: seq<string>, validators: seq<string -> bool>,
                         inputAnswers: seq<seq<string>>, console: seq<string>,
                         interrupted: bool, visited: nat, stopCol: nat, consumed: nat)
    requires PromptedAs(m, m0, n, numSamples, cols, validators, inputAnswers, console,
                        interrupted, visited, stopCol, consumed)
    requires Shaped(m1, cols, n)
    requires forall j, q :: 0 <= j < n && 0 <= q < |cols| ==> m0[cols[q]][j] == m1[cols[q]][j]
    ensures PromptedAs(m, m1, n, numSamples, cols, validators, inputAnswers, console,
                       interrupted, visited, stopCol, consumed)
    ensures forall j, q :: 0 <= j < n && 0 <= q < |cols| ==> m[cols[q]][j].Str? || m[cols[q]][j] == m1[cols[q]][j]
  {
  }

  /** The cell the merged table holds for annotation column q of the j-th
      candidate is slot j of that column. */
  lemma CandidateCell(s: Frame, cols: seq<string>, answers: map<string, seq<Cell>>, result: Frame, j: nat, q: nat)
    requires IndexColumn !in cols && MergedAs(s, cols, answers, result)
    requires j < |Positions(s.rows, cols)| && q < |cols|
    ensures var p := Positions(s.rows, cols)[j];
            cols[q] in result.rows[p] && result.rows[p][cols[q]] == answers[cols[q]][j]
  {
    assert cols[q] in cols;
  }

  /** Only the annotation columns of candidate rows can change: a row
      that is not a candidate comes back as it was, and every other column
      of every row keeps its cell. */
  lemma OutcomeUntouched(s: Frame, cols: seq<string>, answers: map<string, seq<Cell>>, result: Frame)
    requires IndexColumn !in cols && MergedAs(s, cols, answers, result)
    ensures Untouched(s, cols, result)
  {
    var ps := Positions(s.rows, cols);
    PositionsExact(s.rows, cols);
    forall p, c | 0 <= p < |s.rows| && c in s.rows[p] && c !in cols && c != IndexColumn
      ensures c in result.rows[p] && result.rows[p][c] == s.rows[p][c]
    {
      if p in ps {
        var j :| 0 <= j < |ps| && ps[j] == p;
      }
    }
  }

  /** Each annotation cell of the j-th candidate comes back as it was or
      holds the kept answer to that question of the j-th row reached. */
  lemma OutcomeCells(s: Frame, cols: seq<string>, answers: map<string, seq<Cell>>, result: Frame,
                     numSamples: int, validators: seq<string -> bool>, inputAnswers: seq<seq<string>>,
                     console: seq<string>, interrupted: bool, visited: nat, stopCol: nat, consumed: nat)
    requires WellFormed(s) && IndexColumn !in cols && forall c :: c in cols ==> c in s.columns
    requires MergedAs(s, cols, answers, result)
    requires PromptedAs(answers, SeedSlots(s, cols), |Positions(s.rows, cols)|, numSamples, cols, validators,
                        inputAnswers, console, interrupted, visited, stopCol, consumed)
    ensures CellsValid(s, cols, validators, inputAnswers, console, result)
  {
    var ps := Positions(s.rows, cols);
    forall j, q | 0 <= j < |ps| && 0 <= q < |cols|
      ensures cols[q] in result.rows[ps[j]] &&
              (result.rows[ps[j]][cols[q]] == Get(s.rows[ps[j]], cols[q]) ||
               Answered(result.rows[ps[j]][cols[q]], validators, inputAnswers, console, j, q))
    {
      CandidateCell(s, cols, answers, result, j, q);
    }
  }

  /** Without an interruption the first min(max(num_samples, 1),
      #candidates) candidates hold the kept answers in every annotation
      column and the later ones come back as they were. */
  lemma OutcomeComplete(s: Frame, cols: seq<string>, answers: map<string, seq<Cell>>, result: Frame,
                        numSamples: int, validators: seq<string -> bool>, inputAnswers: seq<seq<string>>,
                        console: seq<string>, visited: nat, stopCol: nat, consumed: nat)
    requires WellFormed(s) && IndexColumn !in cols && forall c :: c in cols ==> c in s.columns
    requires MergedAs(s, cols, answers, result)
    requires PromptedAs(answers, SeedSlots(s, cols), |Positions(s.rows, cols)|, numSamples, cols, validators,
                        inputAnswers, console, false, visited, stopCol, consumed)
    ensures Completed(s, cols, validators, numSamples, inputAnswers, console, result)
  {
    var ps := Positions(s.rows, cols);
    var done := Min(Max(numSamples, 1), |ps|);
    forall j, q | 0 <= j < done && 0 <= q < |cols|
      ensures cols[q] in result.rows[ps[j]] &&
              Answered(result.rows[ps[j]][cols[q]], validators, inputAnswers, console, j, q)
    {
      CandidateCell(s, cols, answers, result, j, q);
    }
    forall j | done <= j < |ps| ensures result.rows[ps[j]] == s.rows[ps[j]] - {IndexColumn} {
      assert s.rows[ps[j]].Keys == set c | c in s.columns;
      UnvisitedRow(s.rows[ps[j]], cols, answers, j);
    }
  }

  /** A candidate row whose slots all still hold their seeds is the row
      itself. */
  lemma UnvisitedRow(row: Row, cols: seq<string>, answers: map<string, seq<Cell>>, j: nat)
    requires forall c :: c in cols ==> c in row && c in answers && j < |answers[c]|
    requires forall q :: 0 <= q < |cols| ==> answers[cols[q]][j] == Get(row, cols[q])
    ensures row + (map c | c in cols :: answers[c][j]) == row
  {
    forall c | c in cols ensures answers[c][j] == row[c] {
      var q :| 0 <= q < |cols| && cols[q] == c;
    }
  }

  /** Only the annotation columns of candidate rows can change: a row of
      `s` that is not a candidate comes back as it was, less `index`, and
      every other column of every row keeps its cell. */
  predicate Untouched(s: Frame, cols: seq<string>, result: Frame)
  {
    |result.rows| == |s.rows| &&
    (forall p :: 0 <= p < |s.rows| && !IsCandidate(s.rows[p], cols) ==>
       result.rows[p] == s.rows[p] - {IndexColumn}) &&
    forall p, c :: 0 <= p < |s.rows| && c in s.rows[p] && c !in cols && c != IndexColumn ==>
      c in result.rows[p] && result.rows[p][c] == s.rows[p][c]
  }

  /** Each annotation cell of the j-th candidate is as it was or holds the
      kept answer to that question of the j-th row reached: a string the
      column's validator accepts (see `SettleAt`). */
  predicate CellsValid(s: Frame, cols: seq<string>, validators: seq<string -> bool>,
                       inputAnswers: seq<seq<string>>, console: seq<string>, result: Frame)
    requires |validators| == |cols|
  {
    var ps := Positions(s.rows, cols);
    |result.rows| == |s.rows| &&
    forall j, q :: 0 <= j < |ps| && 0 <= q < |cols| ==>
      cols[q] in result.rows[ps[j]] &&
      (result.rows[ps[j]][cols[q]] == Get(s.rows[ps[j]], cols[q]) ||
       Answered(result.rows[ps[j]][cols[q]], validators, inputAnswers, console, j, q))
  }

  /** The first min(max(num_samples, 1), #candidates) candidates hold the
      kept answers in every annotation column and the later ones come back
      as they were. */
  predicate Completed(s: Frame, cols: seq<string>, validators: seq<string -> bool>, numSamples: int,
                      inputAnswers: seq<seq<string>>, console: seq<string>, result: Frame)
    requires |validators| == |cols|
  {
    var ps := Positions(s.rows, cols);
    var done := Min(Max(numSamples, 1), |ps|);
    |result.rows| == |s.rows| &&
    (forall j, q :: 0 <= j < done && 0 <= q < |cols| ==>
       cols[q] in result.rows[ps[j]] &&
       Answered(result.rows[ps[j]][cols[q]], validators, inputAnswers, console, j, q)) &&
    forall j :: done <= j < |ps| ==> result.rows[ps[j]] == s.rows[ps[j]] - {IndexColumn}
  }

  /** What a caller sees of a session on `s` in the returned table alone:
      every row keeps its place and only `index` is gone; only annotation
      cells of candidates change, each to the answer kept for it; the
      session is interrupted exactly when the streams cannot settle some
      question of the first min(max(num_samples, 1), #candidates) rows,
      and otherwise exactly those candidates are answered. */
  predicate Delivered(s: Frame, cols: seq<string>, validators: seq<string -> bool>, numSamples: int,
                      inputAnswers: seq<seq<string>>, console: seq<string>, interrupted: bool, result: Frame)
    requires |validators| == |cols|
  {
    |result.rows| == |s.rows| && result.columns == Without(s.columns, IndexColumn) &&
    Untouched(s, cols, result) && CellsValid(s, cols, validators, inputAnswers, console, result) &&
    (interrupted <==> Unsettled(validators, inputAnswers, console, Min(Max(numSamples, 1), |Positions(s.rows, cols)|))) &&
    (!interrupted ==> Completed(s, cols, validators, numSamples, inputAnswers, console, result))
  }

  /** The merged table of a session delivers what `Delivered` promises. */
  lemma Outcome(s: Frame, cols: seq<string>, answers: map<string, seq<Cell>>, result: Frame,
                numSamples: int, validators: seq<string -> bool>, inputAnswers: seq<seq<string>>,
                console: seq<string>, interrupted: bool, visited: nat, stopCol: nat, consumed: nat)
    requires WellFormed(s) && IndexColumn !in cols && forall c :: c in cols ==> c in s.columns
    requires MergedAs(s, cols, answers, result)
    requires PromptedAs(answers, SeedSlots(s, cols), |Positions(s.rows, cols)|, numSamples, cols, validators,
                        inputAnswers, console, interrupted, visited, stopCol, consumed)
    ensures Delivered(s, cols, validators, numSamples, inputAnswers, console, interrupted, result)
    // full, valid input answers: no interruption and no console answer read
    ensures ValidInputs(validators, inputAnswers, Min(Max(numSamples, 1), |Positions(s.rows, cols)|)) ==>
              !interrupted && consumed == 0
  {
    OutcomeUntouched(s, cols, answers, result);
    OutcomeCells(s, cols, answers, result, numSamples, validators, inputAnswers, console,
                 interrupted, visited, stopCol, consumed);
    InterruptedExactly(answers, SeedSlots(s, cols), |Positions(s.rows, cols)|, numSamples, cols, validators,
                       inputAnswers, console, interrupted, visited, stopCol, consumed);
    if !interrupted {
      OutcomeComplete(s, cols, answers, result, numSamples, validators, inputAnswers, console,
                      visited, stopCol, consumed);
    }
    if ValidInputs(validators, inputAnswers, Min(Max(numSamples, 1), |Positions(s.rows, cols)|)) {
      ValidInputsComplete(answers, SeedSlots(s, cols), |Positions(s.rows, cols)|, numSamples, cols, validators,
                          inputAnswers, console, interrupted, visited, stopCol, consumed);
    }
  }

  /** The merge at the end of a session, whatever state prompting left the
      answer map in, as long as every slot holds a string answer or its
      seed. `s` is the table with its missing annotation columns seeded:
      the answer frame fits the update and the merged table is as
      `MergedAs` describes. */
  lemma SessionResult(frame: Frame, cols: seq<string>, m: map<string, seq<Cell>>)
    requires WellFormed(frame) && IndexColumn !in cols
    requires var s := Seeded(frame, cols); var ps := Positions(s.rows, cols);
             IndexColumn in m && |m[IndexColumn]| == |ps| && Shaped(m, cols, |ps|) &&
             (forall j :: 0 <= j < |ps| ==> m[IndexColumn][j] == Int(ps[j])) &&
             forall j, q :: 0 <= j < |ps| && 0 <= q < |cols| ==>
               m[cols[q]][j].Str? || m[cols[q]][j] == SeedSlots(s, cols)[cols[q]][j]
    ensures var s := Seeded(frame, cols);
            var a, t := AnswerFrame(cols, m, |Positions(s.rows, cols)|), AddIndex(s);
            IndexColumn in t.columns && IndexColumn in a.columns &&
            (forall c :: c in a.columns ==> c in t.columns) &&
            DistinctKeys(a.rows) &&
            MergedAs(s, cols, m, DropColumn(UpdateAnnotations(t, a), IndexColumn))
  {
    SeededShape(frame, cols);
    var s := Seeded(frame, cols);
    var ps := Positions(s.rows, cols);
    var n := |ps|;
    FilterExact(s.rows, cols);
    AnswerFrameFits(s, cols, m, n);
    AnswerRows(cols, m, n);
    var a := AnswerFrame(cols, m, n);
    SessionShape(s, a);
    SessionNonCandidates(s, cols, m, n, a);
    SessionCandidates(s, cols, m, n, a);
  }

  /** The answer map as `annotate_frame` first builds it: the candidates'
      index column, then each annotation column's cells, in candidate
      order. */
  method SeedAnswers(subset: Frame, cols: seq<string>) returns (m0: map<string, seq<Cell>>)
    ensures IndexColumn in m0 && m0[IndexColumn] == Column(subset, IndexColumn)
    ensures forall q :: 0 <= q < |cols| ==> cols[q] in m0 && m0[cols[q]] == Column(subset, cols[q])
  {
    m0 := map[IndexColumn := Column(subset, IndexColumn)];
    for k := 0 to |cols|
      invariant IndexColumn in m0 && m0[IndexColumn] == Column(subset, IndexColumn)
      invariant forall q :: 0 <= q < k ==> cols[q] in m0 && m0[cols[q]] == Column(subset, cols[q])
    {
      m0 := m0[cols[k] := Column(subset, cols[k])];
    }
  }

  /** One answer's validation: the input function's answer `given` is
      kept when it validates; otherwise the console is asked again, from
      position `pos` on, until an answer validates. `dry` reports that the
      console ran out first. Returns the kept answer and the position
      after the console answers read. */
  method Reprompt(valid: string -> bool, given: string, console: seq<string>, pos: nat)
    returns (answer: string, next: nat, dry: bool)
    requires pos <= |console|
    ensures dry ==> Settle(valid, given, console, pos).None? && next == |console|
    ensures !dry ==> Settle(valid, given, console, pos) == Some((answer, next))
  {
    answer := given;
    next := pos;
    dry := false;
    if !valid(answer) {
      while !valid(answer)
        invariant pos <= next <= |console|
        invariant Retry(valid, console, pos) ==
                  if valid(answer) then Some((answer, next)) else Retry(valid, console, next)
        decreases |console| - next
      {
        if next == |console| {
          dry := true;
          return;
        }
        answer := console[next];
        next := next + 1;
      }
    }
  }

  /** The validation loop for the i-th row reached, whose input answers
      are all there: each question in column order is settled and its
      answer stored in slot i of its column. `dry` reports that the
      console ran out at question `stopCol`, whose slot and the later ones
      keep their seeds. Returns the new answer map and console position. */
  method AnswerRow(m: map<string, seq<Cell>>, m0: map<string, seq<Cell>>, n: nat, cols: seq<string>,
                   validators: seq<string -> bool>, inputAnswers: seq<seq<string>>, console: seq<string>,
                   i: nat, pos: nat)
    returns (m': map<string, seq<Cell>>, next: nat, dry: bool, ghost stopCol: nat)
    requires Distinct(cols) && IndexColumn !in cols && |validators| == |cols|
    requires IndexColumn in m && Shaped(m, cols, n) && Shaped(m0, cols, n) && i < n
    requires !InputShort(inputAnswers, i, |cols|)
    requires Progress(m, m0, n, cols, validators, inputAnswers, console, i, 0)
    requires ConsoleAt(validators, inputAnswers, console, i, 0) == Some(pos)
    ensures IndexColumn in m' && m'[IndexColumn] == m[IndexColumn] && Shaped(m', cols, n)
    ensures !dry ==>
              stopCol == 0 && Progress(m', m0, n, cols, validators, inputAnswers, console, i, |cols|) &&
              ConsoleAt(validators, inputAnswers, console, i, |cols|) == Some(next)
    ensures dry ==>
              stopCol < |cols| && Progress(m', m0, n, cols, validators, inputAnswers, console, i, stopCol) &&
              SettleAt(validators, inputAnswers, console, i, stopCol).None? && next == |console|
  {
    m' := m;
    next := pos;
    dry := false;
    stopCol := 0;
    var given := Given(inputAnswers, i);
    for k := 0 to |cols|
      invariant IndexColumn in m' && m'[IndexColumn] == m[IndexColumn] && Shaped(m', cols, n)
      invariant Progress(m', m0, n, cols, validators, inputAnswers, console, i, k)
      invariant ConsoleAt(validators, inputAnswers, console, i, k) == Some(next)
    {
      var answer, after, ran;
      answer, after, ran := Reprompt(validators[k], given[k], console, next);
      if ran {
        dry := true;
        stopCol := k;
        next := after;
        return;
      }
      ProgressStep(m', m0, n, cols, validators, inputAnswers, console, i, k, answer);
      m' := m'[cols[k] := m'[cols[k]][i := Str(answer)]];
      next := after;
    }
  }

  /** A fully answered row i leaves the progress and the console where
      row i + 1 starts. */
  lemma NextRow(m: map<string, seq<Cell>>, m0: map<string, seq<Cell>>, n: nat, cols: seq<string>,
                validators: seq<string -> bool>, inputAnswers: seq<seq<string>>, console: seq<string>, i: nat)
    requires Shaped(m, cols, n) && Shaped(m0, cols, n) && |validators| == |cols|
    requires Progress(m, m0, n, cols, validators, inputAnswers, console, i, |cols|)
    ensures Progress(m, m0, n, cols, validators, inputAnswers, console, i + 1, 0)
    ensures ConsoleAt(validators, inputAnswers, console, i + 1, 0) ==
              ConsoleAt(validators, inputAnswers, console, i, |cols|)
  {
  }

  /** Prompting stopped because the input function ran short on row i. */
  lemma StoppedShort(m: map<string, seq<Cell>>, m0: map<string, seq<Cell>>, n: nat, numSamples: int,
                     cols: seq<string>, validators: seq<string -> bool>, inputAnswers: seq<seq<string>>,
                     console: seq<string>, i: nat, pos: nat)
    requires Shaped(m, cols, n) && Shaped(m0, cols, n) && |validators| == |cols|
    requires i < Min(Max(numSamples, 1), n) && InputShort(inputAnswers, i, |cols|)
    requires Progress(m, m0, n, cols, validators, inputAnswers, console, i, 0)
    requires ConsoleAt(validators, inputAnswers, console, i, 0) == Some(pos)
    ensures PromptedAs(m, m0, n, numSamples, cols, validators, inputAnswers, console, true, i, 0, pos)
  {
  }

  /** Prompting stopped because the console ran dry on question k of
      row i. */
  lemma StoppedDry(m: map<string, seq<Cell>>, m0: map<string, seq<Cell>>, n: nat, numSamples: int,
                   cols: seq<string>, validators: seq<string -> bool>, inputAnswers: seq<seq<string>>,
                   console: seq<string>, i: nat, k: nat)
    requires Shaped(m, cols, n) && Shaped(m0, cols, n) && |validators| == |cols|
    requires i < Min(Max(numSamples, 1), n) && !InputShort(inputAnswers, i, |cols|) && k < |cols|
    requires Progress(m, m0, n, cols, validators, inputAnswers, console, i, k)
    requires SettleAt(validators, inputAnswers, console, i, k).None?
    ensures PromptedAs(m, m0, n, numSamples, cols, validators, inputAnswers, console, true, i, k, |console|)
  {
  }

  /** Prompting ran its course after i rows. */
  lemma StoppedDone(m: map<string, seq<Cell>>, m0: map<string, seq<Cell>>, n: nat, numSamples: int,
                    cols: seq<string>, validators: seq<string -> bool>, inputAnswers: seq<seq<string>>,
                    console: seq<string>, i: nat, pos: nat)
    requires Shaped(m, cols, n) && Shaped(m0, cols, n) && |validators| == |cols|
    requires i == Min(Max(numSamples, 1), n)
    requires Progress(m, m0, n, cols, validators, inputAnswers, console, i, 0)
    requires ConsoleAt(validators, inputAnswers, console, i, 0) == Some(pos)
    ensures PromptedAs(m, m0, n, numSamples, cols, validators, inputAnswers, console, false, i, 0, pos)
  {
  }

  /** The prompting loop of `annotate_frame`, the body of its `try`. Slot j
      of the answer map belongs to the candidate whose position in `table`
      is its index slot. For each candidate in turn the questions are put
      to the input function, whose answers come from `inputAnswers[j]`; an
      answer the column's validator rejects is asked again on the console,
      whose answers come from `consoleAnswers`, until one validates.
      Running out of either stream stands for an interruption or an error
      raised by the input: prompting stops with the slots filled so far.
      Returns the answer map, whether prompting was interrupted and the
      number of rows fully answered; the ghost results give the column at
      which an interrupted row stopped, the number of console answers
      read and the questions built for every row reached. */
  method AnswerLoop(table: seq<Row>, m0: map<string, seq<Cell>>, n: nat, numSamples: int,
                    cols: seq<string>, questions: seq<Row -> string>, validators: seq<string -> bool>,
                    inputAnswers: seq<seq<string>>, consoleAnswers: seq<string>)
    returns (m: map<string, seq<Cell>>, interrupted: bool, numAnnotated: nat,
             ghost stopCol: nat, ghost consumed: nat, ghost asked: seq<seq<string>>)
    requires Distinct(cols) && IndexColumn !in cols
    requires |questions| == |cols| && |validators| == |cols|
    requires IndexColumn in m0 && |m0[IndexColumn]| == n && Shaped(m0, cols, n)
    requires forall j :: 0 <= j < n ==> m0[IndexColumn][j].Int? && 0 <= m0[IndexColumn][j].i < |table|
    ensures IndexColumn in m && m[IndexColumn] == m0[IndexColumn]
    ensures PromptedAs(m, m0, n, numSamples, cols, validators, inputAnswers, consoleAnswers,
                       interrupted, numAnnotated, stopCol, consumed)
    // the questions are built from the candidate's row of the table
    ensures |asked| == if interrupted then numAnnotated + 1 else numAnnotated
    ensures AskedAbout(asked, questions, table, m0[IndexColumn])
  {
    m := m0;
    numAnnotated := 0;
    var i := 0;
    var conPos := 0;
    stopCol := 0;
    consumed := 0;
    interrupted := false;
    asked := [];
    var keys := m[IndexColumn];  // the loop walks the answer map's index column
    while i < n
      invariant 0 <= i <= n && numAnnotated == i
      invariant i == 0 || i < numSamples
      invariant IndexColumn in m && m[IndexColumn] == m0[IndexColumn] && Shaped(m, cols, n)
      invariant Progress(m, m0, n, cols, validators, inputAnswers, consoleAnswers, i, 0)
      invariant ConsoleAt(validators, inputAnswers, consoleAnswers, i, 0) == Some(conPos)
      invariant |asked| == i && AskedAbout(asked, questions, table, keys)
      invariant !interrupted && stopCol == 0
    {
      var row := table[keys[i].i];
      var qs := Ask(questions, row);
      AskedMore(asked, questions, table, keys);
      asked := asked + [qs];
      if InputShort(inputAnswers, i, |cols|) {
        // the input function raised before every question was answered
        interrupted := true;
        consumed := conPos;
        StoppedShort(m, m0, n, numSamples, cols, validators, inputAnswers, consoleAnswers, i, conPos);
        return;
      }
      var dry;
      m, conPos, dry, stopCol := AnswerRow(m, m0, n, cols, validators, inputAnswers, consoleAnswers, i, conPos);
      if dry {
        // the console ran out while an answer was being re-asked
        interrupted := true;
        consumed := conPos;
        StoppedDry(m, m0, n, numSamples, cols, validators, inputAnswers, consoleAnswers, i, stopCol);
        return;
      }
      NextRow(m, m0, n, cols, validators, inputAnswers, consoleAnswers, i);
      numAnnotated := numAnnotated + 1;
      i := i + 1;
      if numAnnotated >= numSamples {
        break;
      }
    }
    consumed := conPos;
    StoppedDone(m, m0, n, numSamples, cols, validators, inputAnswers, consoleAnswers, i, conPos);
  }

  /** `annotate_frame`. Returns the merged table and whether prompting
      stopped on an interruption; the ghost results expose the final answer
      map, the number of rows fully answered, the column at which an
      interrupted row stopped and the questions built for each row reached.
      `s` below is the table with the missing annotation columns seeded and
      `ps` the positions of its candidate rows. */
  method AnnotateFrame(frame: Frame, numSamples: int, cols: seq<string>,
                       questions: seq<Row -> string>, validators: seq<string -> bool>,
                       inputAnswers: seq<seq<string>>, consoleAnswers: seq<string>)
    returns (result: Frame, interrupted: bool,
             ghost answers: map<string, seq<Cell>>, ghost visited: nat, ghost stopCol: nat,
             ghost consumed: nat, ghost asked: seq<seq<string>>)
    requires WellFormed(frame)
    requires Distinct(cols) && IndexColumn !in cols
    requires |questions| == |cols| && |validators| == |cols|
    // the returned table as the caller sees it
    ensures Delivered(Seeded(frame, cols), cols, validators, numSamples, inputAnswers, consoleAnswers,
                      interrupted, result)
    // full, valid input answers: no interruption and no console answer read
    ensures var s := Seeded(frame, cols);
            ValidInputs(validators, inputAnswers, Min(Max(numSamples, 1), |Positions(s.rows, cols)|)) ==>
              !interrupted && consumed == 0
    // the merged table: non-candidates as seeded, candidates overlaid
    ensures MergedAs(Seeded(frame, cols), cols, answers, result)
    // the answer map: which slots hold answers, the rest hold seeds
    ensures var s := Seeded(frame, cols);
            PromptedAs(answers, SeedSlots(s, cols), |Positions(s.rows, cols)|, numSamples, cols, validators,
                       inputAnswers, consoleAnswers, interrupted, visited, stopCol, consumed)
    // the questions for the j-th candidate are about its indexed row
    ensures var s := Seeded(frame, cols); var ps := Positions(s.rows, cols);
            |asked| == (if interrupted then visited + 1 else visited) && |asked| <= |ps| &&
            forall j :: 0 <= j < |asked| ==> asked[j] == Ask(questions, IndexedRow(s, ps[j]))
  {
    var seeded := AddMissingColumns(frame, cols);
    SeededCandidates(frame, cols);
    var indexed := AddIndex(seeded);
    var subset := GetCandidateAnnotations(indexed, cols);
    var n := |subset.rows|;
    if n == 0 {
      result := DropColumn(indexed, IndexColumn);
      interrupted := false;
      answers := map c | c in cols :: [];
      visited := 0;
      stopCol := 0;
      consumed := 0;
      asked := [];
      NoCandidates(seeded, cols, numSamples, validators, inputAnswers, consoleAnswers);
      SeededShape(frame, cols);
      Outcome(seeded, cols, answers, result, numSamples, validators, inputAnswers, consoleAnswers,
              interrupted, visited, stopCol, consumed);
      return;
    }

    // seed the answer map from the candidates' current values
    var m0 := SeedAnswers(subset, cols);
    SeedsAgree(seeded, cols, subset, m0);

    var m, numAnnotated;
    m, interrupted, numAnnotated, stopCol, consumed, asked :=
      AnswerLoop(indexed.rows, m0, n, numSamples, cols, questions, validators, inputAnswers, consoleAnswers);
    PromptedTransfer(m, m0, SeedSlots(seeded, cols), n, numSamples, cols, validators, inputAnswers,
                     consoleAnswers, interrupted, numAnnotated, stopCol, consumed);
    SessionResult(frame, cols, m);
    visited := numAnnotated;
    answers := m;

    // the merge runs however prompting ended
    var subsetFrame := AnswerFrame(cols, m, n);
    var merged := UpdateAnnotations(indexed, subsetFrame);
    result := DropColumn(merged, IndexColumn);
    SeededShape(frame, cols);
    Outcome(seeded, cols, answers, result, numSamples, validators, inputAnswers, consoleAnswers,
            interrupted, visited, stopCol, consumed);
  }
}
