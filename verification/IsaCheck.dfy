/** tools/check_ppe42_disassembly.py on disassembly rows that have been recognised:
    mnemonics against a variant's allowlist, encodings against the CR0-only rules. */
module IsaCheck {
  import opened Words

  /** A decoded row: the instruction word and its mnemonic, in lower case. */
  datatype Row = Row(word: bv32, mnemonic: string)

  /** A disassembly: the file cannot be read, or each line is a row or not. */
  datatype Listing = Unreadable | Lines(lines: seq<Option<Row>>)

  datatype Variant = Ppe42 | Ppe42x | Ppe42xm

  /** The reviewed mnemonic lists: the base set and the two additions. */
  datatype Lists = Lists(base: set<string>, x: set<string>, xm: set<string>)

  // ---------------------------------------------------------------------------
  // Instruction fields
  // ---------------------------------------------------------------------------

  // Bits are numbered from the most significant one, 0, to 31.

  function Opcd(w: bv32): bv32 { w >> 26 }             // bits 0:5
  function Xo(w: bv32): bv32 { (w >> 1) & 0x3ff }      // bits 21:30
  function Bi(w: bv32): bv32 { (w >> 16) & 0x1f }      // bits 11:15
  function Bf(w: bv32): bv32 { (w >> 23) & 0x7 }       // bits 6:8
  function Fxm(w: bv32): bv32 { (w >> 12) & 0xff }     // bits 12:19
  predicate Bit11(w: bv32) { w & 0x0010_0000 != 0 }

  datatype Form = CondBranch | WordCompare | MoveToCr | OtherForm

  /** The instruction forms that name a condition-register field. */
  function FormOf(w: bv32): Form {
    if Opcd(w) == 16 then CondBranch                              // bc
    else if Opcd(w) == 19 && (Xo(w) == 16 || Xo(w) == 528) then CondBranch   // bclr, bcctr
    else if Opcd(w) == 10 || Opcd(w) == 11 then WordCompare                  // cmplwi, cmpwi
    else if Opcd(w) == 31 && (Xo(w) == 0 || Xo(w) == 32) then WordCompare    // cmpw, cmplw
    else if Opcd(w) == 31 && Xo(w) == 144 then MoveToCr           // mtcrf, mtocrf
    else OtherForm
  }

  /** PPE42 implements only CR0: branches test one of its four bits, compares write
      it, and mtcrf selects it alone in the legacy form. */
  predicate UsesOnlyCr0(w: bv32) {
    match FormOf(w)
    case CondBranch => Bi(w) < 4
    case WordCompare => Bf(w) == 0
    case MoveToCr => !Bit11(w) && Fxm(w) == 128
    case OtherForm => true
  }

  predicate GoodRow(row: Row, allowed: set<string>) {
    row.mnemonic in allowed && UsesOnlyCr0(row.word)
  }

  /** The shift tests of the script, for all words: bits 11:13 are zero exactly for a
      BI below 4, one of the bits of CR0; shifting out bit 11 finds it set exactly
      when the mask does. */
  lemma ShiftTests(w: bv32)
    ensures (w >> 18) & 0x7 == 0 <==> Bi(w) < 4
    ensures (w >> 20) & 0x1 == 0 <==> !Bit11(w)
  {
  }

  // ---------------------------------------------------------------------------
  // The rules on assembled words
  // ---------------------------------------------------------------------------

  // A word is put together from its fields, the most significant one first.

  /** bc BO, BI, ... : good exactly when BI is one of the four bits of CR0. */
  lemma EncodedBc(bo: bv32, bi: bv32, rest: bv32)
    requires bo < 32 && bi < 32 && rest < 0x1_0000
    ensures UsesOnlyCr0((16 << 26) | (bo << 21) | (bi << 16) | rest) <==> bi < 4
  {
  }

  /** bclr (16) and bcctr (528) BO, BI, ... : the same. */
  lemma EncodedBclr(bo: bv32, bi: bv32, middle: bv32, xo: bv32, lk: bv32)
    requires bo < 32 && bi < 32 && middle < 32 && (xo == 16 || xo == 528) && lk < 2
    ensures UsesOnlyCr0((19 << 26) | (bo << 21) | (bi << 16) | (middle << 11) | (xo << 1) | lk) <==> bi < 4
  {
  }

  /** cmplwi (10) and cmpwi (11) BF, ... : good exactly when BF is CR0. */
  lemma EncodedCmpi(primary: bv32, bf: bv32, rest: bv32)
    requires (primary == 10 || primary == 11) && bf < 8 && rest < 0x80_0000
    ensures UsesOnlyCr0((primary << 26) | (bf << 23) | rest) <==> bf == 0
  {
  }

  /** cmpw (0) and cmplw (32) BF, ... : the same. */
  lemma EncodedCmp(bf: bv32, middle: bv32, xo: bv32, last: bv32)
    requires bf < 8 && middle < 0x1000 && (xo == 0 || xo == 32) && last < 2
    ensures UsesOnlyCr0((31 << 26) | (bf << 23) | (middle << 11) | (xo << 1) | last) <==> bf == 0
  {
  }

  /** mtcrf FXM, RS and mtocrf: good exactly in the first form and with the mask of CR0. */
  lemma EncodedMtcrf(rs: bv32, one: bv32, fxm: bv32, reserved: bv32, last: bv32)
    requires rs < 32 && one < 2 && fxm < 0x100 && reserved < 2 && last < 2
    ensures UsesOnlyCr0((31 << 26) | (rs << 21) | (one << 20) | (fxm << 12) | (reserved << 11) | (144 << 1) | last)
            <==> one == 0 && fxm == 128
  {
  }

  /** Every other instruction is good, whatever its fields: another primary opcode, or
      another extended one under 19 and 31. */
  lemma EncodedOther(primary: bv32, fields: bv32, xo: bv32, last: bv32)
    requires primary < 64 && fields < 0x8000 && xo < 1024 && last < 2
    requires primary != 10 && primary != 11 && primary != 16
    requires primary == 19 ==> xo != 16 && xo != 528
    requires primary == 31 ==> xo != 0 && xo != 32 && xo != 144
    ensures UsesOnlyCr0((primary << 26) | (fields << 11) | (xo << 1) | last)
  {
    FieldsOf(primary, fields, xo, last);
  }

  lemma FieldsOf(primary: bv32, fields: bv32, xo: bv32, last: bv32)
    requires primary < 64 && fields < 0x8000 && xo < 1024 && last < 2
    ensures Opcd((primary << 26) | (fields << 11) | (xo << 1) | last) == primary
    ensures Xo((primary << 26) | (fields << 11) | (xo << 1) | last) == xo
  {
  }

  // ---------------------------------------------------------------------------
  // One row and one file
  // ---------------------------------------------------------------------------

  // The three tests of the script, in its shifts.

  predicate BranchTest(encoded: bv32) {
    var primary, extended := encoded >> 26, (encoded >> 1) & 0x3ff;
    var isConditionalBranch := primary == 16 || (primary == 19 && (extended == 16 || extended == 528));
    isConditionalBranch && (encoded >> 18) & 0x7 != 0
  }

  predicate CompareTest(encoded: bv32) {
    var primary, extended := encoded >> 26, (encoded >> 1) & 0x3ff;
    var isWordCompare := primary == 10 || primary == 11 || (primary == 31 && (extended == 0 || extended == 32));
    isWordCompare && (encoded >> 23) & 0x7 != 0
  }

  predicate MtcrTest(encoded: bv32) {
    var primary, extended := encoded >> 26, (encoded >> 1) & 0x3ff;
    var isMtcrForm := primary == 31 && extended == 144;
    isMtcrForm && ((encoded >> 20) & 0x1 != 0 || (encoded >> 12) & 0xff != 0x80)
  }

  /** On every word the tests fire for disjoint forms, and some test fires exactly when
      the word names a condition field other than CR0. */
  lemma TestsExact(w: bv32)
    ensures !(BranchTest(w) && CompareTest(w)) && !(BranchTest(w) && MtcrTest(w)) && !(CompareTest(w) && MtcrTest(w))
    ensures BranchTest(w) || CompareTest(w) || MtcrTest(w) <==> !UsesOnlyCr0(w)
  {
    ShiftTests(w);
  }

  /** The body of the loop: at most three tests, each adding a violation, yet never
      more than one per row. */
  method RowViolations(row: Row, allowed: set<string>) returns (violations: nat)
    ensures violations == if GoodRow(row, allowed) then 0 else 1
  {
    if row.mnemonic !in allowed {
      return 1;
    }
    TestsExact(row.word);
    var branch, compare, mtcr := BranchTest(row.word), CompareTest(row.word), MtcrTest(row.word);
    violations := 0;
    if branch {
      violations := violations + 1;
    }
    if compare {
      violations := violations + 1;
    }
    if mtcr {
      violations := violations + 1;
    }
  }

  function RowsOf(lines: seq<Option<Row>>): seq<Row> {
    if lines == [] then []
    else
      var n := |lines| - 1;
      RowsOf(lines[..n]) + if lines[n].Some? then [lines[n].value] else []
  }

  function BadRows(rows: seq<Row>, allowed: set<string>): (bad: seq<Row>)
    ensures |bad| <= |rows|
  {
    if rows == [] then []
    else
      var n := |rows| - 1;
      BadRows(rows[..n], allowed) + if GoodRow(rows[n], allowed) then [] else [rows[n]]
  }

  lemma {:induction false} BadRowsExact(rows: seq<Row>, allowed: set<string>)
    ensures forall r :: r in BadRows(rows, allowed) <==> r in rows && !GoodRow(r, allowed)
  {
    if rows != [] {
      var n := |rows| - 1;
      BadRowsExact(rows[..n], allowed);
      assert rows == rows[..n] + [rows[n]];
    }
  }

  lemma RowsStep(lines: seq<Option<Row>>, i: nat, allowed: set<string>)
    requires i < |lines|
    ensures
      var before, after := RowsOf(lines[..i]), RowsOf(lines[..i + 1]);
      match lines[i]
      case None => after == before
      case Some(row) =>
        && |after| == |before| + 1
        && |BadRows(after, allowed)| == |BadRows(before, allowed)| + if GoodRow(row, allowed) then 0 else 1
  {
    assert lines[..i + 1][..i] == lines[..i];
    var before := RowsOf(lines[..i]);
    if lines[i].Some? {
      assert (before + [lines[i].value])[..|before|] == before;
    } else {
      assert before + [] == before;
    }
  }

  /** check_file: the count is the number of bad rows; a file that cannot be read or
      holds no row counts as one violation. */
  method CheckFile(file: Listing, allowed: set<string>) returns (violations: nat)
    ensures violations ==
      if file.Unreadable? || RowsOf(file.lines) == [] then 1 else |BadRows(RowsOf(file.lines), allowed)|
  {
    if file.Unreadable? {
      return 1;
    }
    var decoded: nat := 0;
    violations := 0;
    for i := 0 to |file.lines|
      invariant decoded == |RowsOf(file.lines[..i])|
      invariant violations == |BadRows(RowsOf(file.lines[..i]), allowed)|
    {
      RowsStep(file.lines, i, allowed);
      if file.lines[i].None? {
        continue;
      }
      decoded := decoded + 1;
      var more := RowViolations(file.lines[i].value, allowed);
      violations := violations + more;
    }
    assert file.lines[..|file.lines|] == file.lines;
    if decoded == 0 {
      return 1;
    }
  }

  // ---------------------------------------------------------------------------
  // The verdict
  // ---------------------------------------------------------------------------

  function Allowed(lists: Lists, variant: Variant): set<string> {
    lists.base
    + (if variant == Ppe42 then {} else lists.x)
    + (if variant == Ppe42xm then lists.xm else {})
  }

  /** allowed_for_variant: a set grown in place. */
  method AllowedForVariant(lists: Lists, variant: Variant) returns (allowed: set<string>)
    ensures allowed == Allowed(lists, variant)
  {
    allowed := lists.base;
    if variant == Ppe42x || variant == Ppe42xm {
      allowed := allowed + lists.x;
    }
    if variant == Ppe42xm {
      allowed := allowed + lists.xm;
    }
  }

  /** A listing conforms: it can be read, decodes some row, and every row is good. */
  predicate Conforms(file: Listing, allowed: set<string>) {
    file.Lines? && RowsOf(file.lines) != [] && forall r | r in RowsOf(file.lines) :: GoodRow(r, allowed)
  }

  lemma {:induction false} RowsListed(lines: seq<Option<Row>>)
    ensures forall r :: r in RowsOf(lines) <==> Some(r) in lines
    ensures RowsOf(lines) != [] <==> exists i :: 0 <= i < |lines| && lines[i].Some?
  {
    if lines != [] {
      var n := |lines| - 1;
      RowsListed(lines[..n]);
      SnocMembers(lines);
      if i :| 0 <= i < |lines| && lines[i].Some? {
        assert i == n || lines[..n][i].Some?;
      }
      if RowsOf(lines[..n]) != [] {
        var i :| 0 <= i < n && lines[..n][i].Some?;
        assert lines[i].Some?;
      }
    }
  }

  /** Conformance line by line: some line is a row, and every line that is one is good. */
  lemma ConformsExactly(lines: seq<Option<Row>>, allowed: set<string>)
    ensures Conforms(Lines(lines), allowed) <==>
      && (exists i :: 0 <= i < |lines| && lines[i].Some?)
      && forall i | 0 <= i < |lines| :: lines[i].Some? ==> GoodRow(lines[i].value, allowed)
  {
    RowsListed(lines);
    forall i | 0 <= i < |lines| && lines[i].Some?
      ensures lines[i].value in RowsOf(lines)
    {
      assert Some(lines[i].value) in lines;
    }
  }

  /** The lines whose row is bad. */
  function BadLines(lines: seq<Option<Row>>, allowed: set<string>): set<nat> {
    set i: nat | i < |lines| && lines[i].Some? && !GoodRow(lines[i].value, allowed)
  }

  /** The count of a listing is the number of its bad lines. */
  lemma {:induction false} CountExactly(lines: seq<Option<Row>>, allowed: set<string>)
    ensures |BadRows(RowsOf(lines), allowed)| == |BadLines(lines, allowed)|
  {
    if lines != [] {
      var n := |lines| - 1;
      CountExactly(lines[..n], allowed);
      RowsStep(lines, n, allowed);
      assert lines[..n + 1] == lines;
      BadLinesStep(lines, allowed);
    }
  }

  lemma BadLinesStep(lines: seq<Option<Row>>, allowed: set<string>)
    requires lines != []
    ensures
      var n := |lines| - 1;
      |BadLines(lines, allowed)|
      == |BadLines(lines[..n], allowed)| + if lines[n].Some? && !GoodRow(lines[n].value, allowed) then 1 else 0
  {
    var n := |lines| - 1;
    var before := BadLines(lines[..n], allowed);
    assert n !in before;
    forall i: nat
      ensures i in BadLines(lines, allowed) <==>
              i in before || (i == n && lines[n].Some? && !GoodRow(lines[n].value, allowed))
    {
    }
    if lines[n].Some? && !GoodRow(lines[n].value, allowed) {
      assert BadLines(lines, allowed) == before + {n};
    } else {
      assert BadLines(lines, allowed) == before;
    }
  }

  lemma CountZeroExactly(file: Listing, allowed: set<string>)
    requires file.Lines? && RowsOf(file.lines) != []
    ensures |BadRows(RowsOf(file.lines), allowed)| == 0 <==> Conforms(file, allowed)
  {
    var rows := RowsOf(file.lines);
    BadRowsExact(rows, allowed);
    if |BadRows(rows, allowed)| > 0 {
      assert BadRows(rows, allowed)[0] in BadRows(rows, allowed);
    }
  }

  /** main: the exit status is 0 exactly when every listing conforms. */
  method CheckAll(files: seq<Listing>, lists: Lists, variant: Variant) returns (status: nat)
    ensures status == 0 || status == 1
    ensures status == 0 <==> forall f | f in files :: Conforms(f, Allowed(lists, variant))
  {
    var allowed := AllowedForVariant(lists, variant);
    var violations: nat := 0;
    for i := 0 to |files|
      invariant violations == 0 <==> forall j | 0 <= j < i :: Conforms(files[j], allowed)
    {
      var count := CheckFile(files[i], allowed);
      if files[i].Lines? && RowsOf(files[i].lines) != [] {
        CountZeroExactly(files[i], allowed);
      }
      violations := violations + count;
    }
    status := if violations != 0 then 1 else 0;
  }

  /** What each variant accepts: a mnemonic of its own lists, in a word that names no
      condition field but CR0. */
  lemma VariantsAccept(row: Row, lists: Lists)
    ensures GoodRow(row, Allowed(lists, Ppe42)) <==> row.mnemonic in lists.base && UsesOnlyCr0(row.word)
    ensures GoodRow(row, Allowed(lists, Ppe42x)) <==>
      (row.mnemonic in lists.base || row.mnemonic in lists.x) && UsesOnlyCr0(row.word)
    ensures GoodRow(row, Allowed(lists, Ppe42xm)) <==>
      (row.mnemonic in lists.base || row.mnemonic in lists.x || row.mnemonic in lists.xm) && UsesOnlyCr0(row.word)
  {
  }

  /** What passes for a smaller variant passes for a larger one. */
  lemma PassingIsMonotone(file: Listing, lists: Lists)
    ensures Conforms(file, Allowed(lists, Ppe42)) ==> Conforms(file, Allowed(lists, Ppe42x))
    ensures Conforms(file, Allowed(lists, Ppe42x)) ==> Conforms(file, Allowed(lists, Ppe42xm))
  {
    assert Allowed(lists, Ppe42) <= Allowed(lists, Ppe42x) <= Allowed(lists, Ppe42xm);
    if file.Lines? {
      forall r, a, b | r in RowsOf(file.lines) && a <= b && GoodRow(r, a)
        ensures GoodRow(r, b)
      {
      }
    }
  }
}
