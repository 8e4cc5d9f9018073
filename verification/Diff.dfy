/** The two diff builders of tools/format_llvm_debug_html.py: one edit script, shown
    as a flat annotated list and as side-by-side rows. The script comes from
    difflib.SequenceMatcher; everything holds for any valid script. */
module Diff {
  import Words

  type Line = string

  datatype Tag = Equal | Replace | Delete | Insert
  datatype Opcode = Opcode(tag: Tag, i1: nat, i2: nat, j1: nat, j2: nat)

  datatype Mark = Added | Removed | Unchanged
  datatype Marked = Marked(mark: Mark, text: Line)

  datatype Cell = Cell(kind: Mark, text: Line) | Empty
  datatype Row = Row(left: Cell, right: Cell)

  /** What get_opcodes documents of one opcode: slices in range, equal slices under
      equal, nothing inserted by delete, nothing deleted by insert. */
  predicate OpcodeFits(op: Opcode, prev: seq<Line>, curr: seq<Line>) {
    && op.i1 <= op.i2 <= |prev| && op.j1 <= op.j2 <= |curr|
    && (op.tag.Equal? ==> prev[op.i1..op.i2] == curr[op.j1..op.j2])
    && (op.tag.Delete? ==> op.j1 == op.j2)
    && (op.tag.Insert? ==> op.i1 == op.i2)
  }

  function EndI(ops: seq<Opcode>): nat {
    if ops == [] then 0 else ops[|ops| - 1].i2
  }

  function EndJ(ops: seq<Opcode>): nat {
    if ops == [] then 0 else ops[|ops| - 1].j2
  }

  /** A script covers both sequences from the front without gap or overlap. */
  predicate Covers(ops: seq<Opcode>, prev: seq<Line>, curr: seq<Line>) {
    if ops == [] then true
    else
      var init, last := ops[..|ops| - 1], ops[|ops| - 1];
      Covers(init, prev, curr) && OpcodeFits(last, prev, curr) && last.i1 == EndI(init) && last.j1 == EndJ(init)
  }

  predicate ValidScript(ops: seq<Opcode>, prev: seq<Line>, curr: seq<Line>) {
    Covers(ops, prev, curr) && EndI(ops) == |prev| && EndJ(ops) == |curr|
  }

  /** What is asked of the differ: a valid script, and equal inputs are found equal. */
  predicate DifferContract(ops: seq<Opcode>, prev: seq<Line>, curr: seq<Line>) {
    && ValidScript(ops, prev, curr)
    && (prev == curr ==> forall k | 0 <= k < |ops| :: ops[k].tag.Equal?)
  }

  /** The contract can always be met. */
  lemma ContractSatisfiable(prev: seq<Line>, curr: seq<Line>)
    ensures exists ops :: DifferContract(ops, prev, curr)
  {
    var tag := if prev == curr then Equal else Replace;
    var op := Opcode(tag, 0, |prev|, 0, |curr|);
    assert [op][..0] == [];
    assert Covers([], prev, curr) && OpcodeFits(op, prev, curr);
    assert DifferContract([op], prev, curr);
  }

  // ---------------------------------------------------------------------------
  // What the two views should be
  // ---------------------------------------------------------------------------

  function MarkAll(mark: Mark, lines: seq<Line>): (out: seq<Marked>)
    ensures |out| == |lines|
  {
    seq(|lines|, k requires 0 <= k < |lines| => Marked(mark, lines[k]))
  }

  /** An opcode in the flat view: kept lines once, or old lines before new ones. */
  function FlatBlock(op: Opcode, prev: seq<Line>, curr: seq<Line>): seq<Marked>
    requires OpcodeFits(op, prev, curr)
  {
    if op.tag.Equal? then MarkAll(Unchanged, prev[op.i1..op.i2])
    else MarkAll(Removed, prev[op.i1..op.i2]) + MarkAll(Added, curr[op.j1..op.j2])
  }

  function Flat(ops: seq<Opcode>, prev: seq<Line>, curr: seq<Line>): seq<Marked>
    requires Covers(ops, prev, curr)
  {
    if ops == [] then []
    else Flat(ops[..|ops| - 1], prev, curr) + FlatBlock(ops[|ops| - 1], prev, curr)
  }

  function CellAt(kind: Mark, lines: seq<Line>, k: nat): Cell {
    if k < |lines| then Cell(kind, lines[k]) else Empty
  }

  /** Old and new lines paired in order, the shorter side padded. */
  function Paired(leftKind: Mark, left: seq<Line>, rightKind: Mark, right: seq<Line>): seq<Row> {
    seq(if |left| > |right| then |left| else |right|,
        (k: nat) => Row(CellAt(leftKind, left, k), CellAt(rightKind, right, k)))
  }

  function RowBlock(op: Opcode, prev: seq<Line>, curr: seq<Line>): seq<Row>
    requires OpcodeFits(op, prev, curr)
  {
    var was, now := prev[op.i1..op.i2], curr[op.j1..op.j2];
    if op.tag.Equal? then Paired(Unchanged, was, Unchanged, now) else Paired(Removed, was, Added, now)
  }

  function Rows(ops: seq<Opcode>, prev: seq<Line>, curr: seq<Line>): seq<Row>
    requires Covers(ops, prev, curr)
  {
    if ops == [] then []
    else Rows(ops[..|ops| - 1], prev, curr) + RowBlock(ops[|ops| - 1], prev, curr)
  }

  /** Lines a script changes: old plus new ones outside equal blocks. */
  function Changes(ops: seq<Opcode>): nat
    requires forall k | 0 <= k < |ops| :: ops[k].i1 <= ops[k].i2 && ops[k].j1 <= ops[k].j2
  {
    if ops == [] then 0
    else
      var op := ops[|ops| - 1];
      Changes(ops[..|ops| - 1]) + if op.tag.Equal? then 0 else (op.i2 - op.i1) + (op.j2 - op.j1)
  }

  lemma {:induction false} CoveredFits(ops: seq<Opcode>, prev: seq<Line>, curr: seq<Line>)
    requires Covers(ops, prev, curr)
    ensures forall k | 0 <= k < |ops| :: OpcodeFits(ops[k], prev, curr)
    ensures EndI(ops) <= |prev| && EndJ(ops) <= |curr|
  {
    if ops != [] {
      CoveredFits(ops[..|ops| - 1], prev, curr);
    }
  }

  lemma {:induction false} CoveredPrefix(ops: seq<Opcode>, prev: seq<Line>, curr: seq<Line>, n: nat)
    requires Covers(ops, prev, curr) && n <= |ops|
    ensures Covers(ops[..n], prev, curr)
    ensures n < |ops| ==>
      OpcodeFits(ops[n], prev, curr) && ops[n].i1 == EndI(ops[..n]) && ops[n].j1 == EndJ(ops[..n])
    decreases |ops|
  {
    if n == |ops| {
      assert ops[..n] == ops;
    } else {
      var init := ops[..|ops| - 1];
      CoveredPrefix(init, prev, curr, if n < |init| then n else |init|);
      assert n < |init| ==> init[..n] == ops[..n];
    }
  }

  /** The whole flat view with its change count, the empty sides included. */
  function UnifiedView(ops: seq<Opcode>, prev: seq<Line>, curr: seq<Line>): (seq<Marked>, nat)
    requires ValidScript(ops, prev, curr)
  {
    CoveredFits(ops, prev, curr);
    if prev == [] then (MarkAll(Unchanged, curr), 0)
    else if curr == [] then ([], 0)
    else (Flat(ops, prev, curr), Changes(ops))
  }

  function SideBySideView(ops: seq<Opcode>, prev: seq<Line>, curr: seq<Line>): (seq<Row>, nat)
    requires ValidScript(ops, prev, curr)
  {
    CoveredFits(ops, prev, curr);
    if prev == [] then (Paired(Removed, [], Unchanged, curr), 0)
    else if curr == [] then ([], 0)
    else (Rows(ops, prev, curr), Changes(ops))
  }

  // ---------------------------------------------------------------------------
  // Reconstruction
  // ---------------------------------------------------------------------------

  /** The texts left after dropping one kind of mark. */
  function Without(dropped: Mark, items: seq<Marked>): seq<Line> {
    if items == [] then []
    else
      var n := |items| - 1;
      Without(dropped, items[..n]) + if items[n].mark == dropped then [] else [items[n].text]
  }

  function Count(mark: Mark, items: seq<Marked>): nat {
    if items == [] then 0
    else
      var n := |items| - 1;
      Count(mark, items[..n]) + if items[n].mark == mark then 1 else 0
  }

  function LeftCells(rows: seq<Row>): seq<Line> {
    if rows == [] then []
    else
      var n := |rows| - 1;
      LeftCells(rows[..n]) + if rows[n].left.Empty? then [] else [rows[n].left.text]
  }

  function RightCells(rows: seq<Row>): seq<Line> {
    if rows == [] then []
    else
      var n := |rows| - 1;
      RightCells(rows[..n]) + if rows[n].right.Empty? then [] else [rows[n].right.text]
  }

  lemma {:induction false} WithoutAppend(dropped: Mark, a: seq<Marked>, b: seq<Marked>)
    ensures Without(dropped, a + b) == Without(dropped, a) + Without(dropped, b)
    ensures Count(dropped, a + b) == Count(dropped, a) + Count(dropped, b)
    decreases |b|
  {
    if b == [] {
      assert a + b == a;
      assert Without(dropped, a) + [] == Without(dropped, a);
    } else {
      var n := |b| - 1;
      WithoutAppend(dropped, a, b[..n]);
      assert (a + b)[..|a + b| - 1] == a + b[..n];
      Words.Assoc(Without(dropped, a), Without(dropped, b[..n]), if b[n].mark == dropped then [] else [b[n].text]);
    }
  }

  lemma {:induction false} WithoutMarked(dropped: Mark, mark: Mark, lines: seq<Line>)
    ensures Without(dropped, MarkAll(mark, lines)) == if mark == dropped then [] else lines
    ensures Count(dropped, MarkAll(mark, lines)) == if mark == dropped then |lines| else 0
  {
    if lines != [] {
      var n := |lines| - 1;
      WithoutMarked(dropped, mark, lines[..n]);
      assert MarkAll(mark, lines)[..n] == MarkAll(mark, lines[..n]);
      assert lines == lines[..n] + [lines[n]];
    }
  }

  lemma {:induction false} CellsAppend(a: seq<Row>, b: seq<Row>)
    ensures LeftCells(a + b) == LeftCells(a) + LeftCells(b)
    ensures RightCells(a + b) == RightCells(a) + RightCells(b)
    decreases |b|
  {
    if b == [] {
      assert a + b == a;
      assert LeftCells(a) + [] == LeftCells(a) && RightCells(a) + [] == RightCells(a);
    } else {
      var n := |b| - 1;
      CellsAppend(a, b[..n]);
      assert (a + b)[..|a + b| - 1] == a + b[..n];
      assert (a + b)[|a + b| - 1] == b[n];
      Words.Assoc(LeftCells(a), LeftCells(b[..n]), if b[n].left.Empty? then [] else [b[n].left.text]);
      Words.Assoc(RightCells(a), RightCells(b[..n]), if b[n].right.Empty? then [] else [b[n].right.text]);
    }
  }

  function Take(lines: seq<Line>, n: nat): seq<Line> {
    if n < |lines| then lines[..n] else lines
  }

  lemma TakeStep(lines: seq<Line>, n: nat)
    ensures Take(lines, n + 1) == Take(lines, n) + if n < |lines| then [lines[n]] else []
  {
  }

  /** The first n rows of a pairing hold the first n lines of each side. */
  lemma {:induction false} PairedLeft(lk: Mark, left: seq<Line>, rk: Mark, right: seq<Line>, n: nat)
    requires n <= |Paired(lk, left, rk, right)|
    ensures LeftCells(Paired(lk, left, rk, right)[..n]) == Take(left, n)
  {
    if n > 0 {
      var rows := Paired(lk, left, rk, right);
      PairedLeft(lk, left, rk, right, n - 1);
      assert rows[..n][..n - 1] == rows[..n - 1];
      TakeStep(left, n - 1);
    }
  }

  lemma {:induction false} PairedRight(lk: Mark, left: seq<Line>, rk: Mark, right: seq<Line>, n: nat)
    requires n <= |Paired(lk, left, rk, right)|
    ensures RightCells(Paired(lk, left, rk, right)[..n]) == Take(right, n)
  {
    if n > 0 {
      var rows := Paired(lk, left, rk, right);
      PairedRight(lk, left, rk, right, n - 1);
      assert rows[..n][..n - 1] == rows[..n - 1];
      TakeStep(right, n - 1);
    }
  }

  lemma PairedBoth(lk: Mark, left: seq<Line>, rk: Mark, right: seq<Line>)
    ensures LeftCells(Paired(lk, left, rk, right)) == left
    ensures RightCells(Paired(lk, left, rk, right)) == right
  {
    var rows := Paired(lk, left, rk, right);
    PairedLeft(lk, left, rk, right, |rows|);
    PairedRight(lk, left, rk, right, |rows|);
    assert rows[..|rows|] == rows;
  }

  lemma FlatBlockReads(op: Opcode, prev: seq<Line>, curr: seq<Line>)
    requires OpcodeFits(op, prev, curr)
    ensures
      var block := FlatBlock(op, prev, curr);
      var was, now := prev[op.i1..op.i2], curr[op.j1..op.j2];
      && Without(Removed, block) == now && Without(Added, block) == was
      && Count(Added, block) + Count(Removed, block) == if op.tag.Equal? then 0 else |was| + |now|
  {
    var was, now := prev[op.i1..op.i2], curr[op.j1..op.j2];
    if op.tag.Equal? {
      WithoutMarked(Removed, Unchanged, was);
      WithoutMarked(Added, Unchanged, was);
    } else {
      ChangedReads(Removed, was, now);
      ChangedReads(Added, was, now);
    }
  }

  lemma ChangedReads(d: Mark, was: seq<Line>, now: seq<Line>)
    requires d != Unchanged
    ensures Without(d, MarkAll(Removed, was) + MarkAll(Added, now)) == if d == Removed then now else was
    ensures Count(d, MarkAll(Removed, was) + MarkAll(Added, now)) == if d == Removed then |was| else |now|
  {
    WithoutMarked(d, Removed, was);
    WithoutMarked(d, Added, now);
    WithoutAppend(d, MarkAll(Removed, was), MarkAll(Added, now));
  }

  lemma Advance(op: Opcode, prev: seq<Line>, curr: seq<Line>)
    requires OpcodeFits(op, prev, curr)
    ensures prev[..op.i2] == prev[..op.i1] + prev[op.i1..op.i2]
    ensures curr[..op.j2] == curr[..op.j1] + curr[op.j1..op.j2]
  {
  }

  /** Reconstruction from the flat view of any covered prefix. */
  lemma {:induction false} FlatReads(ops: seq<Opcode>, prev: seq<Line>, curr: seq<Line>)
    requires Covers(ops, prev, curr)
    ensures EndI(ops) <= |prev| && EndJ(ops) <= |curr|
    ensures Without(Removed, Flat(ops, prev, curr)) == curr[..EndJ(ops)]
    ensures Without(Added, Flat(ops, prev, curr)) == prev[..EndI(ops)]
  {
    if ops != [] {
      var init, op := ops[..|ops| - 1], ops[|ops| - 1];
      FlatReads(init, prev, curr);
      FlatBlockReads(op, prev, curr);
      WithoutAppend(Removed, Flat(init, prev, curr), FlatBlock(op, prev, curr));
      WithoutAppend(Added, Flat(init, prev, curr), FlatBlock(op, prev, curr));
      Advance(op, prev, curr);
    }
  }

  /** The change count of a script counts the marked lines of its flat view. */
  lemma {:induction false} FlatCounts(ops: seq<Opcode>, prev: seq<Line>, curr: seq<Line>)
    requires Covers(ops, prev, curr)
    ensures forall k | 0 <= k < |ops| :: ops[k].i1 <= ops[k].i2 && ops[k].j1 <= ops[k].j2
    ensures Count(Added, Flat(ops, prev, curr)) + Count(Removed, Flat(ops, prev, curr)) == Changes(ops)
  {
    CoveredFits(ops, prev, curr);
    if ops != [] {
      var init, op := ops[..|ops| - 1], ops[|ops| - 1];
      FlatCounts(init, prev, curr);
      FlatBlockReads(op, prev, curr);
      WithoutAppend(Removed, Flat(init, prev, curr), FlatBlock(op, prev, curr));
      WithoutAppend(Added, Flat(init, prev, curr), FlatBlock(op, prev, curr));
    }
  }

  /** Reconstruction from the columns of any covered prefix. */
  lemma {:induction false} RowsRead(ops: seq<Opcode>, prev: seq<Line>, curr: seq<Line>)
    requires Covers(ops, prev, curr)
    ensures EndI(ops) <= |prev| && EndJ(ops) <= |curr|
    ensures LeftCells(Rows(ops, prev, curr)) == prev[..EndI(ops)]
    ensures RightCells(Rows(ops, prev, curr)) == curr[..EndJ(ops)]
  {
    if ops != [] {
      var init, op := ops[..|ops| - 1], ops[|ops| - 1];
      RowsRead(init, prev, curr);
      PairedBoth(if op.tag.Equal? then Unchanged else Removed, prev[op.i1..op.i2],
                 if op.tag.Equal? then Unchanged else Added, curr[op.j1..op.j2]);
      CellsAppend(Rows(init, prev, curr), RowBlock(op, prev, curr));
      Advance(op, prev, curr);
    }
  }

  /** Diff reconstruction and agreement, exactly: the flat view without removed lines
      and the right column always give the current stage; the flat view without
      added lines gives the previous one unless just one side is empty; the left
      column gives it unless only the current side is empty; and the two change
      counts agree and count the marked lines. */
  lemma Reconstruction(ops: seq<Opcode>, prev: seq<Line>, curr: seq<Line>)
    requires ValidScript(ops, prev, curr)
    ensures
      var (items, changes) := UnifiedView(ops, prev, curr);
      var (rows, rowChanges) := SideBySideView(ops, prev, curr);
      && Without(Removed, items) == curr && RightCells(rows) == curr
      && (Without(Added, items) == prev <==> (prev == [] <==> curr == []))
      && (LeftCells(rows) == prev <==> (curr == [] ==> prev == []))
      && changes == rowChanges == Count(Added, items) + Count(Removed, items)
  {
    FlatReads(ops, prev, curr);
    FlatCounts(ops, prev, curr);
    RowsRead(ops, prev, curr);
    assert prev[..|prev|] == prev && curr[..|curr|] == curr;
    if prev == [] {
      WithoutMarked(Removed, Unchanged, curr);
      WithoutMarked(Added, Unchanged, curr);
      PairedBoth(Removed, [], Unchanged, curr);
    }
  }

  // ---------------------------------------------------------------------------
  // The views line by line
  // ---------------------------------------------------------------------------

  predicate Ordered(ops: seq<Opcode>) {
    forall k | 0 <= k < |ops| :: ops[k].i1 <= ops[k].i2 && ops[k].j1 <= ops[k].j2
  }

  /** How many lines an opcode takes in the flat view, and how many rows in the other. */
  function FlatSize(op: Opcode): nat
    requires op.i1 <= op.i2 && op.j1 <= op.j2
  {
    (op.i2 - op.i1) + if op.tag.Equal? then 0 else op.j2 - op.j1
  }

  function RowSize(op: Opcode): nat
    requires op.i1 <= op.i2 && op.j1 <= op.j2
  {
    if op.i2 - op.i1 > op.j2 - op.j1 then op.i2 - op.i1 else op.j2 - op.j1
  }

  /** Where the lines of opcode n begin in the flat view, and its rows in the other. */
  function FlatStart(ops: seq<Opcode>, n: nat): nat
    requires Ordered(ops) && n <= |ops|
  {
    if n == 0 then 0 else FlatStart(ops, n - 1) + FlatSize(ops[n - 1])
  }

  function RowStart(ops: seq<Opcode>, n: nat): nat
    requires Ordered(ops) && n <= |ops|
  {
    if n == 0 then 0 else RowStart(ops, n - 1) + RowSize(ops[n - 1])
  }

  /** The lines of one opcode from a place of the flat view on: unchanged ones once,
      otherwise the old ones removed and then the new ones added. */
  predicate ShowsFlat(items: seq<Marked>, from: nat, op: Opcode, prev: seq<Line>, curr: seq<Line>)
    requires OpcodeFits(op, prev, curr)
  {
    var middle := from + (op.i2 - op.i1);
    && from + FlatSize(op) <= |items|
    && (forall p | from <= p < middle ::
          items[p] == Marked(if op.tag.Equal? then Unchanged else Removed, prev[op.i1 + (p - from)]))
    && forall p | middle <= p < from + FlatSize(op) :: items[p] == Marked(Added, curr[op.j1 + (p - middle)])
  }

  /** Its rows from a place of the other view on: the k-th holds old line k on the left and
      new line k on the right, an empty cell where there is none. */
  predicate ShowsRows(rows: seq<Row>, from: nat, op: Opcode, prev: seq<Line>, curr: seq<Line>)
    requires OpcodeFits(op, prev, curr)
  {
    && from + RowSize(op) <= |rows|
    && forall p | from <= p < from + RowSize(op) ::
         && rows[p].left == (if p - from < op.i2 - op.i1
                             then Cell(if op.tag.Equal? then Unchanged else Removed, prev[op.i1 + (p - from)]) else Empty)
         && rows[p].right == (if p - from < op.j2 - op.j1
                              then Cell(if op.tag.Equal? then Unchanged else Added, curr[op.j1 + (p - from)]) else Empty)
  }

  lemma FlatBlockShown(before: seq<Marked>, op: Opcode, prev: seq<Line>, curr: seq<Line>)
    requires OpcodeFits(op, prev, curr)
    ensures |FlatBlock(op, prev, curr)| == FlatSize(op)
    ensures ShowsFlat(before + FlatBlock(op, prev, curr), |before|, op, prev, curr)
  {
  }

  lemma RowBlockShown(before: seq<Row>, op: Opcode, prev: seq<Line>, curr: seq<Line>)
    requires OpcodeFits(op, prev, curr)
    ensures |RowBlock(op, prev, curr)| == RowSize(op)
    ensures ShowsRows(before + RowBlock(op, prev, curr), |before|, op, prev, curr)
  {
  }

  lemma StartsPrefix(ops: seq<Opcode>, n: nat)
    requires Ordered(ops) && n < |ops|
    ensures FlatStart(ops[..|ops| - 1], n) == FlatStart(ops, n)
    ensures RowStart(ops[..|ops| - 1], n) == RowStart(ops, n)
  {
    if n > 0 {
      StartsPrefix(ops, n - 1);
    }
  }

  lemma {:induction false} FlatLength(ops: seq<Opcode>, prev: seq<Line>, curr: seq<Line>)
    requires Covers(ops, prev, curr) && Ordered(ops)
    ensures |Flat(ops, prev, curr)| == FlatStart(ops, |ops|)
    ensures |Rows(ops, prev, curr)| == RowStart(ops, |ops|)
  {
    if ops != [] {
      var init, op := ops[..|ops| - 1], ops[|ops| - 1];
      FlatLength(init, prev, curr);
      StartsPrefix(ops, |init|);
      FlatBlockShown(Flat(init, prev, curr), op, prev, curr);
      RowBlockShown(Rows(init, prev, curr), op, prev, curr);
    }
  }

  /** The flat view, line by line. */
  lemma {:induction false} FlatByLine(ops: seq<Opcode>, prev: seq<Line>, curr: seq<Line>, n: nat)
    requires Covers(ops, prev, curr) && Ordered(ops) && n < |ops|
    ensures OpcodeFits(ops[n], prev, curr)
    ensures ShowsFlat(Flat(ops, prev, curr), FlatStart(ops, n), ops[n], prev, curr)
    decreases |ops|
  {
    var init, op := ops[..|ops| - 1], ops[|ops| - 1];
    StartsPrefix(ops, n);
    if n < |init| {
      FlatByLine(init, prev, curr, n);
      FlatKept(Flat(init, prev, curr), FlatBlock(op, prev, curr), FlatStart(init, n), init[n], prev, curr);
    } else {
      FlatLength(init, prev, curr);
      FlatBlockShown(Flat(init, prev, curr), op, prev, curr);
      assert init == ops[..n] && op == ops[n];
    }
  }

  lemma FlatKept(items: seq<Marked>, more: seq<Marked>, from: nat, op: Opcode, prev: seq<Line>, curr: seq<Line>)
    requires OpcodeFits(op, prev, curr) && ShowsFlat(items, from, op, prev, curr)
    ensures ShowsFlat(items + more, from, op, prev, curr)
  {
  }

  /** The side-by-side view, row by row. */
  lemma {:induction false} RowsByLine(ops: seq<Opcode>, prev: seq<Line>, curr: seq<Line>, n: nat)
    requires Covers(ops, prev, curr) && Ordered(ops) && n < |ops|
    ensures OpcodeFits(ops[n], prev, curr)
    ensures ShowsRows(Rows(ops, prev, curr), RowStart(ops, n), ops[n], prev, curr)
    decreases |ops|
  {
    var init, op := ops[..|ops| - 1], ops[|ops| - 1];
    StartsPrefix(ops, n);
    if n < |init| {
      RowsByLine(init, prev, curr, n);
      RowsKept(Rows(init, prev, curr), RowBlock(op, prev, curr), RowStart(init, n), init[n], prev, curr);
    } else {
      FlatLength(init, prev, curr);
      RowBlockShown(Rows(init, prev, curr), op, prev, curr);
      assert init == ops[..n] && op == ops[n];
    }
  }

  lemma RowsKept(rows: seq<Row>, more: seq<Row>, from: nat, op: Opcode, prev: seq<Line>, curr: seq<Line>)
    requires OpcodeFits(op, prev, curr) && ShowsRows(rows, from, op, prev, curr)
    ensures ShowsRows(rows + more, from, op, prev, curr)
  {
  }

  /** Both views, completely: opcode after opcode, line by line; with an empty side, the
      current stage alone, unmarked, opposite empty cells. */
  lemma ViewsExact(ops: seq<Opcode>, prev: seq<Line>, curr: seq<Line>)
    requires ValidScript(ops, prev, curr)
    ensures
      var (items, rows) := (UnifiedView(ops, prev, curr).0, SideBySideView(ops, prev, curr).0);
      if prev == [] || curr == [] then
        && |items| == |rows| == |curr|
        && forall k | 0 <= k < |curr| ::
             items[k] == Marked(Unchanged, curr[k]) && rows[k] == Row(Empty, Cell(Unchanged, curr[k]))
      else
        && Ordered(ops) && |items| == FlatStart(ops, |ops|) && |rows| == RowStart(ops, |ops|)
        && forall n | 0 <= n < |ops| ::
             && OpcodeFits(ops[n], prev, curr)
             && ShowsFlat(items, FlatStart(ops, n), ops[n], prev, curr)
             && ShowsRows(rows, RowStart(ops, n), ops[n], prev, curr)
  {
    CoveredFits(ops, prev, curr);
    assert Ordered(ops);
    if prev != [] && curr != [] {
      FlatLength(ops, prev, curr);
      forall n | 0 <= n < |ops|
        ensures ShowsFlat(Flat(ops, prev, curr), FlatStart(ops, n), ops[n], prev, curr)
        ensures ShowsRows(Rows(ops, prev, curr), RowStart(ops, n), ops[n], prev, curr)
      {
        FlatByLine(ops, prev, curr, n);
        RowsByLine(ops, prev, curr, n);
      }
    }
  }

  // ---------------------------------------------------------------------------
  // The marks of the rows
  // ---------------------------------------------------------------------------

  /** The texts of one mark, in order. */
  function Texts(mark: Mark, items: seq<Marked>): seq<Line> {
    if items == [] then []
    else
      var n := |items| - 1;
      Texts(mark, items[..n]) + if items[n].mark == mark then [items[n].text] else []
  }

  function LeftTexts(mark: Mark, rows: seq<Row>): seq<Line> {
    if rows == [] then []
    else
      var n := |rows| - 1;
      LeftTexts(mark, rows[..n]) + if rows[n].left.Cell? && rows[n].left.kind == mark then [rows[n].left.text] else []
  }

  function RightTexts(mark: Mark, rows: seq<Row>): seq<Line> {
    if rows == [] then []
    else
      var n := |rows| - 1;
      RightTexts(mark, rows[..n]) + if rows[n].right.Cell? && rows[n].right.kind == mark then [rows[n].right.text] else []
  }

  lemma {:induction false} TextsAppend(mark: Mark, a: seq<Marked>, b: seq<Marked>)
    ensures Texts(mark, a + b) == Texts(mark, a) + Texts(mark, b)
    decreases |b|
  {
    if b == [] {
      assert a + b == a && Texts(mark, a) + [] == Texts(mark, a);
    } else {
      var n := |b| - 1;
      TextsAppend(mark, a, b[..n]);
      assert (a + b)[..|a + b| - 1] == a + b[..n] && (a + b)[|a + b| - 1] == b[n];
      Words.Assoc(Texts(mark, a), Texts(mark, b[..n]), if b[n].mark == mark then [b[n].text] else []);
    }
  }

  lemma {:induction false} SideTextsAppend(mark: Mark, a: seq<Row>, b: seq<Row>)
    ensures LeftTexts(mark, a + b) == LeftTexts(mark, a) + LeftTexts(mark, b)
    ensures RightTexts(mark, a + b) == RightTexts(mark, a) + RightTexts(mark, b)
    decreases |b|
  {
    if b == [] {
      assert a + b == a;
      assert LeftTexts(mark, a) + [] == LeftTexts(mark, a) && RightTexts(mark, a) + [] == RightTexts(mark, a);
    } else {
      var n := |b| - 1;
      SideTextsAppend(mark, a, b[..n]);
      assert (a + b)[..|a + b| - 1] == a + b[..n] && (a + b)[|a + b| - 1] == b[n];
      Words.Assoc(LeftTexts(mark, a), LeftTexts(mark, b[..n]),
                  if b[n].left.Cell? && b[n].left.kind == mark then [b[n].left.text] else []);
      Words.Assoc(RightTexts(mark, a), RightTexts(mark, b[..n]),
                  if b[n].right.Cell? && b[n].right.kind == mark then [b[n].right.text] else []);
    }
  }

  lemma {:induction false} TextsMarked(mark: Mark, given: Mark, lines: seq<Line>)
    ensures Texts(mark, MarkAll(given, lines)) == if given == mark then lines else []
  {
    if lines != [] {
      var n := |lines| - 1;
      TextsMarked(mark, given, lines[..n]);
      assert MarkAll(given, lines)[..n] == MarkAll(given, lines[..n]);
      assert lines == lines[..n] + [lines[n]];
    }
  }

  lemma SideTextsStep(mark: Mark, rows: seq<Row>, n: nat)
    requires n < |rows|
    ensures
      var left, right := rows[n].left, rows[n].right;
      && LeftTexts(mark, rows[..n + 1])
         == LeftTexts(mark, rows[..n]) + (if left.Cell? && left.kind == mark then [left.text] else [])
      && RightTexts(mark, rows[..n + 1])
         == RightTexts(mark, rows[..n]) + (if right.Cell? && right.kind == mark then [right.text] else [])
  {
    assert rows[..n + 1][..n] == rows[..n];
  }

  lemma {:induction false} PairedLeftTexts(mark: Mark, lk: Mark, left: seq<Line>, rk: Mark, right: seq<Line>, n: nat)
    requires n <= |Paired(lk, left, rk, right)|
    ensures LeftTexts(mark, Paired(lk, left, rk, right)[..n]) == if lk == mark then Take(left, n) else []
  {
    if n > 0 {
      PairedLeftTexts(mark, lk, left, rk, right, n - 1);
      SideTextsStep(mark, Paired(lk, left, rk, right), n - 1);
      TakeStep(left, n - 1);
    }
  }

  lemma {:induction false} PairedRightTexts(mark: Mark, lk: Mark, left: seq<Line>, rk: Mark, right: seq<Line>, n: nat)
    requires n <= |Paired(lk, left, rk, right)|
    ensures RightTexts(mark, Paired(lk, left, rk, right)[..n]) == if rk == mark then Take(right, n) else []
  {
    if n > 0 {
      PairedRightTexts(mark, lk, left, rk, right, n - 1);
      SideTextsStep(mark, Paired(lk, left, rk, right), n - 1);
      TakeStep(right, n - 1);
    }
  }

  lemma PairedTexts(mark: Mark, lk: Mark, left: seq<Line>, rk: Mark, right: seq<Line>, n: nat)
    requires n == |Paired(lk, left, rk, right)|
    ensures LeftTexts(mark, Paired(lk, left, rk, right)) == if lk == mark then left else []
    ensures RightTexts(mark, Paired(lk, left, rk, right)) == if rk == mark then right else []
  {
    var rows := Paired(lk, left, rk, right);
    PairedLeftTexts(mark, lk, left, rk, right, n);
    PairedRightTexts(mark, lk, left, rk, right, n);
    assert rows[..n] == rows && Take(left, n) == left && Take(right, n) == right;
  }

  /** One opcode marks the same lines in both views. */
  lemma BlockTexts(op: Opcode, prev: seq<Line>, curr: seq<Line>)
    requires OpcodeFits(op, prev, curr)
    ensures LeftTexts(Removed, RowBlock(op, prev, curr)) == Texts(Removed, FlatBlock(op, prev, curr))
    ensures RightTexts(Added, RowBlock(op, prev, curr)) == Texts(Added, FlatBlock(op, prev, curr))
  {
    var was, now := prev[op.i1..op.i2], curr[op.j1..op.j2];
    var rows := RowBlock(op, prev, curr);
    forall d | d in [Removed, Added]
      ensures d == Removed ==> LeftTexts(d, rows) == Texts(d, FlatBlock(op, prev, curr))
      ensures d == Added ==> RightTexts(d, rows) == Texts(d, FlatBlock(op, prev, curr))
    {
      if op.tag.Equal? {
        PairedTexts(d, Unchanged, was, Unchanged, now, |rows|);
        TextsMarked(d, Unchanged, was);
      } else {
        PairedTexts(d, Removed, was, Added, now, |rows|);
        TextsAppend(d, MarkAll(Removed, was), MarkAll(Added, now));
        TextsMarked(d, Removed, was);
        TextsMarked(d, Added, now);
      }
    }
  }

  lemma {:induction false} SameMarks(ops: seq<Opcode>, prev: seq<Line>, curr: seq<Line>)
    requires Covers(ops, prev, curr)
    ensures LeftTexts(Removed, Rows(ops, prev, curr)) == Texts(Removed, Flat(ops, prev, curr))
    ensures RightTexts(Added, Rows(ops, prev, curr)) == Texts(Added, Flat(ops, prev, curr))
  {
    if ops != [] {
      var init, op := ops[..|ops| - 1], ops[|ops| - 1];
      SameMarks(init, prev, curr);
      BlockTexts(op, prev, curr);
      TextsAppend(Removed, Flat(init, prev, curr), FlatBlock(op, prev, curr));
      TextsAppend(Added, Flat(init, prev, curr), FlatBlock(op, prev, curr));
      SideTextsAppend(Removed, Rows(init, prev, curr), RowBlock(op, prev, curr));
      SideTextsAppend(Added, Rows(init, prev, curr), RowBlock(op, prev, curr));
    }
  }

  /** A finished row: removed or unchanged on the left, added or unchanged on the right,
      unchanged cells in pairs of equal text, and never two empty cells. */
  predicate WellMarked(row: Row) {
    && (row.left.Cell? ==> row.left.kind == Removed || row.left.kind == Unchanged)
    && (row.right.Cell? ==> row.right.kind == Added || row.right.kind == Unchanged)
    && ((row.left.Cell? && row.left.kind == Unchanged) || (row.right.Cell? && row.right.kind == Unchanged) ==>
          row.left == row.right)
    && (row.left.Cell? || row.right.Cell?)
  }

  lemma {:induction false} RowsWellMarked(ops: seq<Opcode>, prev: seq<Line>, curr: seq<Line>)
    requires Covers(ops, prev, curr)
    ensures forall k | 0 <= k < |Rows(ops, prev, curr)| :: WellMarked(Rows(ops, prev, curr)[k])
  {
    if ops != [] {
      RowsWellMarked(ops[..|ops| - 1], prev, curr);
      var op := ops[|ops| - 1];
      forall k | 0 <= k < |RowBlock(op, prev, curr)|
        ensures WellMarked(RowBlock(op, prev, curr)[k])
      {
      }
    }
  }

  lemma {:induction false} CountTexts(mark: Mark, items: seq<Marked>)
    ensures |Texts(mark, items)| == Count(mark, items)
  {
    if items != [] {
      CountTexts(mark, items[..|items| - 1]);
    }
  }

  /** The two views mark the same lines: every row is well marked, the removed cells on the
      left and the added ones on the right are, in order, the removed and the added lines
      of the flat view, and together they are as many as the change count says. */
  lemma ViewsMarkAlike(ops: seq<Opcode>, prev: seq<Line>, curr: seq<Line>)
    requires ValidScript(ops, prev, curr) && prev != [] && curr != []
    ensures
      var (items, changes) := UnifiedView(ops, prev, curr);
      var (rows, rowChanges) := SideBySideView(ops, prev, curr);
      && (forall k | 0 <= k < |rows| :: WellMarked(rows[k]))
      && LeftTexts(Removed, rows) == Texts(Removed, items) && RightTexts(Added, rows) == Texts(Added, items)
      && changes == rowChanges == |LeftTexts(Removed, rows)| + |RightTexts(Added, rows)|
  {
    RowsWellMarked(ops, prev, curr);
    SameMarks(ops, prev, curr);
    Reconstruction(ops, prev, curr);
    CountTexts(Removed, UnifiedView(ops, prev, curr).0);
    CountTexts(Added, UnifiedView(ops, prev, curr).0);
  }

  /** Equal stages show no change. */
  lemma EqualShowsNoChange(ops: seq<Opcode>, prev: seq<Line>, curr: seq<Line>)
    requires DifferContract(ops, prev, curr) && prev == curr
    ensures UnifiedView(ops, prev, curr).1 == 0 && SideBySideView(ops, prev, curr).1 == 0
  {
    CoveredFits(ops, prev, curr);
    NoChanges(ops);
  }

  lemma {:induction false} NoChanges(ops: seq<Opcode>)
    requires forall k | 0 <= k < |ops| :: ops[k].i1 <= ops[k].i2 && ops[k].j1 <= ops[k].j2 && ops[k].tag.Equal?
    ensures Changes(ops) == 0
  {
    if ops != [] {
      NoChanges(ops[..|ops| - 1]);
    }
  }

  /** And no change shown means the stages are equal, unless a side is empty. */
  lemma {:induction false} NoChangeMeansEqual(ops: seq<Opcode>, prev: seq<Line>, curr: seq<Line>)
    requires Covers(ops, prev, curr)
    requires forall k | 0 <= k < |ops| :: ops[k].i1 <= ops[k].i2 && ops[k].j1 <= ops[k].j2
    requires Changes(ops) == 0
    ensures EndI(ops) <= |prev| && EndJ(ops) <= |curr| && prev[..EndI(ops)] == curr[..EndJ(ops)]
  {
    if ops != [] {
      var init, op := ops[..|ops| - 1], ops[|ops| - 1];
      NoChangeMeansEqual(init, prev, curr);
      assert prev[..op.i2] == prev[..op.i1] + prev[op.i1..op.i2];
      assert curr[..op.j2] == curr[..op.j1] + curr[op.j1..op.j2];
    }
  }

  /** When the "no changes" badge is shown, exactly: between equal stages, and whenever a
      side is empty, whatever the other one holds. */
  lemma ZeroExactly(ops: seq<Opcode>, prev: seq<Line>, curr: seq<Line>)
    requires DifferContract(ops, prev, curr)
    ensures UnifiedView(ops, prev, curr).1 == 0 <==> prev == [] || curr == [] || prev == curr
  {
    CoveredFits(ops, prev, curr);
    if prev == curr {
      EqualShowsNoChange(ops, prev, curr);
    }
    assert prev[..|prev|] == prev && curr[..|curr|] == curr;
    if Changes(ops) == 0 {
      NoChangeMeansEqual(ops, prev, curr);
    }
  }

  /** The badge is wrong exactly when one stage is empty and the other is not. */
  lemma BadgeIsRight(ops: seq<Opcode>, prev: seq<Line>, curr: seq<Line>)
    requires DifferContract(ops, prev, curr)
    ensures (UnifiedView(ops, prev, curr).1 == 0 <==> prev == curr) <==> (prev == [] <==> curr == [])
  {
    ZeroExactly(ops, prev, curr);
  }

  // ---------------------------------------------------------------------------
  // The loops
  // ---------------------------------------------------------------------------

  method AppendMarked(result: seq<Marked>, count: nat, mark: Mark, lines: seq<Line>)
    returns (result': seq<Marked>, count': nat)
    ensures result' == result + MarkAll(mark, lines)
    ensures count' == count + |lines|
  {
    result', count' := result, count;
    for k := 0 to |lines|
      invariant result' == result + MarkAll(mark, lines[..k]) && count' == count + k
    {
      assert MarkAll(mark, lines[..k + 1]) == MarkAll(mark, lines[..k]) + [Marked(mark, lines[k])];
      result' := result' + [Marked(mark, lines[k])];
      count' := count' + 1;
    }
    assert lines[..|lines|] == lines;
  }

  /** The branches of compute_unified_diff on one opcode. */
  method AppendBlock(result: seq<Marked>, count: nat, op: Opcode, prev: seq<Line>, curr: seq<Line>)
    returns (result': seq<Marked>, count': nat)
    requires OpcodeFits(op, prev, curr)
    ensures result' == result + FlatBlock(op, prev, curr)
    ensures count' == count + if op.tag.Equal? then 0 else (op.i2 - op.i1) + (op.j2 - op.j1)
  {
    result', count' := result, count;
    match op.tag {
      case Equal =>
        var ignored;
        result', ignored := AppendMarked(result, 0, Unchanged, prev[op.i1..op.i2]);
      case Replace =>
        result', count' := AppendMarked(result, count, Removed, prev[op.i1..op.i2]);
        result', count' := AppendMarked(result', count', Added, curr[op.j1..op.j2]);
        Words.Assoc(result, MarkAll(Removed, prev[op.i1..op.i2]), MarkAll(Added, curr[op.j1..op.j2]));
      case Delete =>
        result', count' := AppendMarked(result, count, Removed, prev[op.i1..op.i2]);
        assert FlatBlock(op, prev, curr) == MarkAll(Removed, prev[op.i1..op.i2]);
      case Insert =>
        result', count' := AppendMarked(result, count, Added, curr[op.j1..op.j2]);
        assert FlatBlock(op, prev, curr) == MarkAll(Added, curr[op.j1..op.j2]);
    }
  }

  /** compute_unified_diff */
  method ComputeUnifiedDiff(ops: seq<Opcode>, prev: seq<Line>, curr: seq<Line>)
    returns (result: seq<Marked>, changeCount: nat)
    requires ValidScript(ops, prev, curr)
    ensures (result, changeCount) == UnifiedView(ops, prev, curr)
  {
    result, changeCount := [], 0;
    if prev == [] {
      var ignored;
      result, ignored := AppendMarked([], 0, Unchanged, curr);
      assert [] + MarkAll(Unchanged, curr) == MarkAll(Unchanged, curr);
      return;
    }
    if curr == [] {
      return;
    }
    CoveredFits(ops, prev, curr);
    for n := 0 to |ops|
      invariant Covers(ops[..n], prev, curr) && Ordered(ops[..n])
      invariant result == Flat(ops[..n], prev, curr) && changeCount == Changes(ops[..n])
    {
      ScriptStep(ops, prev, curr, n);
      ChangesStep(ops, n);
      result, changeCount := AppendBlock(result, changeCount, ops[n], prev, curr);
    }
    assert ops[..|ops|] == ops;
  }

  method AppendRows(rows: seq<Row>, leftKind: Mark, left: seq<Line>, rightKind: Mark, right: seq<Line>)
    returns (rows': seq<Row>)
    ensures rows' == rows + Paired(leftKind, left, rightKind, right)
  {
    rows' := rows;
    var all := Paired(leftKind, left, rightKind, right);
    for k := 0 to if |left| > |right| then |left| else |right|
      invariant rows' == rows + all[..k]
    {
      var l := if k < |left| then Cell(leftKind, left[k]) else Empty;
      var r := if k < |right| then Cell(rightKind, right[k]) else Empty;
      assert all[..k + 1] == all[..k] + [Row(l, r)];
      rows' := rows' + [Row(l, r)];
    }
    assert all[..|all|] == all;
  }

  /** One turn of either loop. */
  lemma ScriptStep(ops: seq<Opcode>, prev: seq<Line>, curr: seq<Line>, n: nat)
    requires Covers(ops, prev, curr) && n < |ops|
    ensures Covers(ops[..n], prev, curr) && Covers(ops[..n + 1], prev, curr) && OpcodeFits(ops[n], prev, curr)
    ensures Flat(ops[..n + 1], prev, curr) == Flat(ops[..n], prev, curr) + FlatBlock(ops[n], prev, curr)
    ensures Rows(ops[..n + 1], prev, curr) == Rows(ops[..n], prev, curr) + RowBlock(ops[n], prev, curr)
  {
    CoveredPrefix(ops, prev, curr, n);
    CoveredPrefix(ops, prev, curr, n + 1);
    assert ops[..n + 1][..n] == ops[..n];
  }

  lemma ChangesStep(ops: seq<Opcode>, n: nat)
    requires Ordered(ops) && n < |ops|
    ensures Ordered(ops[..n]) && Ordered(ops[..n + 1])
    ensures
      var op := ops[n];
      Changes(ops[..n + 1])
      == Changes(ops[..n]) + if op.tag.Equal? then 0 else (op.i2 - op.i1) + (op.j2 - op.j1)
  {
    assert ops[..n + 1][..n] == ops[..n];
  }

  /** The branches of compute_sbs_diff on one opcode. */
  method AppendRowBlock(rows: seq<Row>, count: nat, op: Opcode, prev: seq<Line>, curr: seq<Line>)
    returns (rows': seq<Row>, count': nat)
    requires OpcodeFits(op, prev, curr)
    ensures rows' == rows + RowBlock(op, prev, curr)
    ensures count' == count + if op.tag.Equal? then 0 else (op.i2 - op.i1) + (op.j2 - op.j1)
  {
    count' := count;
    var was, now := prev[op.i1..op.i2], curr[op.j1..op.j2];
    match op.tag {
      case Equal =>
        rows' := AppendRows(rows, Unchanged, was, Unchanged, was);
      case Replace =>
        count' := count' + |was| + |now|;
        rows' := AppendRows(rows, Removed, was, Added, now);
      case Delete =>
        rows' := AppendRows(rows, Removed, was, Added, []);
        count' := count' + |was|;
        assert now == [];
      case Insert =>
        rows' := AppendRows(rows, Removed, [], Added, now);
        count' := count' + |now|;
        assert was == [];
    }
  }

  /** compute_sbs_diff: its own loop over the same script. */
  method ComputeSbsDiff(ops: seq<Opcode>, prev: seq<Line>, curr: seq<Line>)
    returns (rows: seq<Row>, changeCount: nat)
    requires ValidScript(ops, prev, curr)
    ensures (rows, changeCount) == SideBySideView(ops, prev, curr)
  {
    rows, changeCount := [], 0;
    if prev == [] {
      rows := AppendRows([], Removed, [], Unchanged, curr);
      assert [] + Paired(Removed, [], Unchanged, curr) == Paired(Removed, [], Unchanged, curr);
      return;
    }
    if curr == [] {
      return;
    }
    CoveredFits(ops, prev, curr);
    for n := 0 to |ops|
      invariant Covers(ops[..n], prev, curr) && Ordered(ops[..n])
      invariant rows == Rows(ops[..n], prev, curr) && changeCount == Changes(ops[..n])
    {
      ScriptStep(ops, prev, curr, n);
      ChangesStep(ops, n);
      rows, changeCount := AppendRowBlock(rows, changeCount, ops[n], prev, curr);
    }
    assert ops[..|ops|] == ops;
  }
}
