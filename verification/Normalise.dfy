/** normalise_content of tools/format_llvm_debug_html.py: which lines of a stage are
    compared, and in what form. Machine dumps lose their slot-index prefixes. */
module Normalise {
  import Words
  import opened Lines

  const MACHINE := "# Machine code"
  const MACHINE_FOR := "# Machine code for"
  const MACHINE_END := "# End machine code"

  predicate IsDigit(c: char) {
    '0' <= c <= '9'
  }

  predicate IsWordChar(c: char) {
    IsDigit(c) || 'a' <= c <= 'z' || 'A' <= c <= 'Z' || c == '_'
  }

  /** Length of the run of digits a line starts with. */
  function DigitRun(s: string): (n: nat)
    ensures n <= |s| && (forall i | 0 <= i < n :: IsDigit(s[i])) && (n < |s| ==> !IsDigit(s[n]))
  {
    if s != [] && IsDigit(s[0]) then 1 + DigitRun(s[1..]) else 0
  }

  function WordRun(s: string): (n: nat)
    ensures n <= |s|
  {
    if s != [] && IsWordChar(s[0]) then 1 + WordRun(s[1..]) else 0
  }

  /** Length of a slot-index prefix, digits then B and a tab; 0 for none. */
  function SlotPrefix(line: string): (n: nat)
    ensures n <= |line|
  {
    var d := DigitRun(line);
    if 0 < d && d + 2 <= |line| && line[d] == 'B' && line[d + 1] == '\t' then d + 2 else 0
  }

  predicate TabIndented(line: string) {
    |line| >= 2 && line[0] == '\t' && (line[1] == ' ' || line[1] == ';')
  }

  /** _strip_slot_index */
  function StripSlotIndex(line: string): string {
    if SlotPrefix(line) > 0 then line[SlotPrefix(line)..]
    else if TabIndented(line) then line[1..]
    else line
  }

  function FirstNonBlank(content: seq<string>): string {
    if content == [] then ""
    else if Blank(content[0]) then FirstNonBlank(content[1..])
    else content[0]
  }

  predicate IsLabel(line: string) {
    StartsWith(Strip(line), "bb.")
  }

  /** A machine dump is known by its header or by a block label in its first lines. */
  predicate IsMachine(content: seq<string>) {
    StartsWith(FirstNonBlank(content), MACHINE) || Labelled(content)
  }

  predicate Labelled(content: seq<string>) {
    exists i :: 0 <= i < |content| && i < 8 && IsLabel(content[i])
  }

  /** The header and footer of a machine function. */
  predicate IsFrame(line: string) {
    StartsWith(Strip(line), MACHINE_FOR) || StartsWith(Strip(line), MACHINE_END)
  }

  /** ^!\w+ =  */
  predicate IsNamedMetadata(s: string) {
    s != [] && s[0] == '!' && WordRun(s[1..]) > 0 && StartsWith(s[1 + WordRun(s[1..])..], " = ")
  }

  predicate IsIrNoise(line: string) {
    IsNoiseText(Strip(line))
  }

  predicate IsNoiseText(s: string) {
    || StartsWith(s, "; ModuleID") || StartsWith(s, "source_filename") || StartsWith(s, "target datalayout")
    || StartsWith(s, "target triple") || StartsWith(s, "attributes #") || IsNamedMetadata(s)
    || StartsWith(s, "!llvm.")
  }

  /** Lines that are not compared. */
  predicate Skipped(machine: bool, line: string) {
    Blank(line) || (if machine then IsFrame(line) else IsIrNoise(line))
  }

  /** What one line contributes. */
  function Emit(machine: bool, line: string): (out: seq<string>)
    ensures |out| <= 1
  {
    if Skipped(machine, line) then [] else [if machine then StripSlotIndex(line) else line]
  }

  function EmitAll(machine: bool, content: seq<string>): seq<string> {
    if content == [] then []
    else Emit(machine, content[0]) + EmitAll(machine, content[1..])
  }

  function Normalised(content: seq<string>): seq<string> {
    EmitAll(IsMachine(content), content)
  }

  lemma {:induction false} EmitAllAppend(machine: bool, a: seq<string>, b: seq<string>)
    ensures EmitAll(machine, a + b) == EmitAll(machine, a) + EmitAll(machine, b)
  {
    if a == [] {
      assert a + b == b;
    } else {
      assert (a + b)[1..] == a[1..] + b;
      EmitAllAppend(machine, a[1..], b);
      Words.Assoc(Emit(machine, a[0]), EmitAll(machine, a[1..]), EmitAll(machine, b));
    }
  }

  lemma OneLine(machine: bool, line: string)
    ensures EmitAll(machine, [line]) == Emit(machine, line)
  {
    assert [line][1..] == [];
    assert Emit(machine, line) + [] == Emit(machine, line);
  }

  lemma EmitStep(machine: bool, content: seq<string>, i: nat)
    requires i < |content|
    ensures Skipped(machine, content[i]) ==> EmitAll(machine, content[..i + 1]) == EmitAll(machine, content[..i])
    ensures !Skipped(machine, content[i]) ==>
      EmitAll(machine, content[..i + 1]) ==
      EmitAll(machine, content[..i]) + [if machine then StripSlotIndex(content[i]) else content[i]]
  {
    assert content[..i + 1] == content[..i] + [content[i]];
    EmitAllAppend(machine, content[..i], [content[i]]);
    OneLine(machine, content[i]);
  }

  /** normalise_content: the loop over the lines. */
  method NormaliseContent(content: seq<string>) returns (result: seq<string>)
    ensures result == Normalised(content)
  {
    var machine := IsMachine(content);
    result := [];
    for i := 0 to |content|
      invariant result == EmitAll(machine, content[..i])
    {
      EmitStep(machine, content, i);
      var line := content[i];
      if Strip(line) == "" {
        continue;
      }
      if machine {
        if IsFrame(line) {
          continue;
        }
        result := result + [StripSlotIndex(line)];
      } else {
        if IsIrNoise(line) {
          continue;
        }
        result := result + [line];
      }
    }
    assert content[..|content|] == content;
  }

  // ---------------------------------------------------------------------------
  // Slot indexes are invisible
  // ---------------------------------------------------------------------------

  /** What the slotindexes pass does to a printed line. */
  datatype Decoration = Plain | Indexed(digits: string) | Tabbed

  predicate Suits(d: Decoration, line: string) {
    match d
    case Plain => true
    case Indexed(digits) => digits != "" && (forall i | 0 <= i < |digits| :: IsDigit(digits[i])) && !Blank(line)
    case Tabbed => line != "" && (line[0] == ' ' || line[0] == ';') && !Blank(line)
  }

  function Decorate(d: Decoration, line: string): string {
    match d
    case Plain => line
    case Indexed(digits) => digits + "B\t" + line
    case Tabbed => "\t" + line
  }

  predicate AllSuit(ds: seq<Decoration>, content: seq<string>) {
    |ds| == |content| && forall i | 0 <= i < |ds| :: Suits(ds[i], content[i])
  }

  function DecorateAll(ds: seq<Decoration>, content: seq<string>): (out: seq<string>)
    requires |ds| == |content|
    ensures |out| == |content|
  {
    seq(|content|, i requires 0 <= i < |content| => Decorate(ds[i], content[i]))
  }

  /** A decoration that normalisation undoes: an index on a line that is neither a
      frame line nor itself prefixed, or a tab. */
  predicate Undone(d: Decoration, line: string) {
    d.Indexed? ==> !IsFrame(line) && StripSlotIndex(line) == line
  }

  lemma {:induction false} DigitRunOfPrefix(digits: string, rest: string)
    requires forall i | 0 <= i < |digits| :: IsDigit(digits[i])
    requires rest != [] && !IsDigit(rest[0])
    ensures DigitRun(digits + rest) == |digits|
  {
    if digits == [] {
      assert digits + rest == rest;
    } else {
      assert (digits + rest)[1..] == digits[1..] + rest;
      DigitRunOfPrefix(digits[1..], rest);
    }
  }

  lemma IndexStripped(digits: string, line: string)
    requires digits != "" && forall i | 0 <= i < |digits| :: IsDigit(digits[i])
    ensures StripSlotIndex(digits + "B\t" + line) == line
  {
    var tail := "B\t" + line;
    var s := digits + tail;
    assert digits + "B\t" + line == s;
    DigitRunOfPrefix(digits, tail);
    assert s[|digits|] == tail[0] && s[|digits| + 1] == tail[1] && s[|digits| + 2..] == line;
  }

  lemma DigitFirst(s: string)
    requires s != "" && IsDigit(s[0])
    ensures !Blank(s) && !IsFrame(s)
  {
    StripKeepsFront(s);
  }

  lemma IndexedEmits(digits: string, line: string)
    requires Suits(Indexed(digits), line)
    ensures Emit(true, Decorate(Indexed(digits), line)) == [line]
  {
    var s := Decorate(Indexed(digits), line);
    assert s[0] == digits[0];
    DigitFirst(s);
    IndexStripped(digits, line);
  }

  /** A line that starts with neither a digit nor a tab has nothing to strip, and a tab
      put before a space or semicolon is stripped again. */
  lemma TabStripped(line: string)
    requires line != "" && (line[0] == ' ' || line[0] == ';')
    ensures StripSlotIndex(line) == line
    ensures StripSlotIndex(['\t'] + line) == line
  {
    var s := ['\t'] + line;
    assert DigitRun(s) == 0 && DigitRun(line) == 0;
    assert s[1..] == line && s[1] == line[0];
  }

  lemma TabbedEmits(line: string)
    requires Suits(Tabbed, line)
    ensures Emit(true, Decorate(Tabbed, line)) == Emit(true, line)
  {
    var s := ['\t'] + line;
    assert Decorate(Tabbed, line) == s;
    StripDropsFront('\t', line);
    TabStripped(line);
    assert Blank(s) == Blank(line) && IsFrame(s) == IsFrame(line);
  }

  /** One line: decorating never loses a line, and the decoration is invisible
      exactly when it is one that normalisation undoes. */
  lemma DecoratedEmits(d: Decoration, line: string)
    requires Suits(d, line)
    ensures |Emit(true, Decorate(d, line))| >= |Emit(true, line)|
    ensures Emit(true, Decorate(d, line)) == Emit(true, line) <==> Undone(d, line)
  {
    match d
    case Plain =>
    case Indexed(digits) => IndexedEmits(digits, line);
    case Tabbed => TabbedEmits(line);
  }

  /** Comparing two dumps of equal length, each in its own mode, when every line of the
      one emits at least what its counterpart does: nothing can be made up for later. */
  lemma {:induction false} LineByLine(m: bool, x: seq<string>, n: bool, y: seq<string>)
    requires |x| == |y| && forall i | 0 <= i < |x| :: |Emit(m, x[i])| >= |Emit(n, y[i])|
    ensures |EmitAll(m, x)| >= |EmitAll(n, y)|
    ensures EmitAll(m, x) == EmitAll(n, y) <==> SameLines(m, x, n, y)
    decreases |x|
  {
    if x != [] {
      var xs, ys := x[1..], y[1..];
      forall i | 0 <= i < |xs|
        ensures |Emit(m, xs[i])| >= |Emit(n, ys[i])|
      {
        assert xs[i] == x[i + 1] && ys[i] == y[i + 1];
      }
      LineByLine(m, xs, n, ys);
      SplitEqual(Emit(m, x[0]), EmitAll(m, xs), Emit(n, y[0]), EmitAll(n, ys));
      SameLinesStep(m, x, n, y);
    }
  }

  lemma SameLinesStep(m: bool, x: seq<string>, n: bool, y: seq<string>)
    requires |x| == |y| > 0
    ensures SameLines(m, x, n, y) <==> Emit(m, x[0]) == Emit(n, y[0]) && SameLines(m, x[1..], n, y[1..])
  {
    var xs, ys := x[1..], y[1..];
    if Emit(m, x[0]) == Emit(n, y[0]) && SameLines(m, xs, n, ys) {
      forall i | 0 <= i < |x|
        ensures Emit(m, x[i]) == Emit(n, y[i])
      {
        assert i == 0 || (x[i] == xs[i - 1] && y[i] == ys[i - 1]);
      }
    }
  }

  predicate SameLines(m: bool, x: seq<string>, n: bool, y: seq<string>)
    requires |x| == |y|
  {
    forall i | 0 <= i < |x| :: Emit(m, x[i]) == Emit(n, y[i])
  }

  lemma SplitEqual<T>(a: seq<T>, b: seq<T>, c: seq<T>, d: seq<T>)
    requires |a| >= |c| && |b| >= |d|
    ensures a + b == c + d <==> a == c && b == d
  {
    if a + b == c + d {
      assert |a| == |c| && |b| == |d|;
      assert a == (a + b)[..|a|] && c == (c + d)[..|c|];
      assert b == (a + b)[|a|..] && d == (c + d)[|c|..];
    }
  }

  predicate AllUndone(ds: seq<Decoration>, content: seq<string>)
    requires |ds| == |content|
  {
    forall i | 0 <= i < |ds| :: Undone(ds[i], content[i])
  }

  lemma DecoratedEmitAll(ds: seq<Decoration>, content: seq<string>)
    requires AllSuit(ds, content)
    ensures |EmitAll(true, DecorateAll(ds, content))| >= |EmitAll(true, content)|
    ensures EmitAll(true, DecorateAll(ds, content)) == EmitAll(true, content) <==> AllUndone(ds, content)
  {
    var after := DecorateAll(ds, content);
    forall i | 0 <= i < |ds|
      ensures |Emit(true, after[i])| >= |Emit(true, content[i])|
      ensures Emit(true, after[i]) == Emit(true, content[i]) <==> Undone(ds[i], content[i])
    {
      DecoratedEmits(ds[i], content[i]);
    }
    LineByLine(true, after, true, content);
  }

  // Raw lines against stripped ones. A line that IR mode drops is never dropped by
  // machine mode and is still noise without its prefix, so two normal forms of
  // different modes can only agree where there is no such line.

  predicate Quiet(lines: seq<string>) {
    forall i | 0 <= i < |lines| :: !IsIrNoise(lines[i])
  }

  /** Text that starts with no digit stays what it is when its prefix goes. */
  lemma StripOfUnprefixed(line: string)
    requires Strip(line) != "" && !IsDigit(Strip(line)[0])
    ensures Strip(StripSlotIndex(line)) == Strip(line)
  {
    NoDigitFirst(line);
    if TabIndented(line) {
      StripOfTab(line);
    }
  }

  lemma NoDigitFirst(line: string)
    requires Strip(line) != "" && !IsDigit(Strip(line)[0])
    ensures SlotPrefix(line) == 0
  {
    if line != "" && IsDigit(line[0]) {
      StripKeepsFront(line);
    }
  }

  lemma StripOfTab(line: string)
    requires TabIndented(line)
    ensures Strip(line[1..]) == Strip(line)
  {
    assert line == ['\t'] + line[1..];
    StripDropsFront('\t', line[1..]);
  }

  lemma NoiseText(s: string)
    requires IsNoiseText(s)
    ensures s != "" && s[0] in ";sta!"
  {
  }

  lemma FrameText(line: string)
    requires IsFrame(line)
    ensures Strip(line) != "" && Strip(line)[0] == '#'
  {
  }

  lemma KeptInMachine(line: string)
    requires Strip(line) != "" && Strip(line)[0] != '#'
    ensures Emit(true, line) == [StripSlotIndex(line)]
  {
    if IsFrame(line) {
      FrameText(line);
      assert false;
    }
  }

  lemma NoiseSurvives(line: string)
    requires IsIrNoise(line)
    ensures Emit(true, line) == [StripSlotIndex(line)] && IsIrNoise(StripSlotIndex(line))
  {
    NoiseText(Strip(line));
    KeptInMachine(line);
    StripOfUnprefixed(line);
  }

  lemma {:induction false} NoNoiseOut(content: seq<string>)
    ensures Quiet(EmitAll(false, content))
  {
    if content != [] {
      NoNoiseOut(content[1..]);
    }
  }

  lemma QuietOne(line: string)
    ensures Quiet([line]) <==> !IsIrNoise(line)
  {
    assert [line][0] == line;
  }

  lemma QuietLine(line: string)
    requires Quiet(Emit(true, line))
    ensures Quiet([line])
  {
    QuietOne(line);
    if IsIrNoise(line) {
      NoiseSurvives(line);
      QuietOne(StripSlotIndex(line));
    }
  }

  lemma {:induction false} QuietBack(content: seq<string>)
    requires Quiet(EmitAll(true, content))
    ensures Quiet(content)
  {
    if content != [] {
      QuietParts(Emit(true, content[0]), EmitAll(true, content[1..]));
      QuietLine(content[0]);
      QuietBack(content[1..]);
      QuietCons(content);
    }
  }

  lemma QuietCons(content: seq<string>)
    requires content != [] && Quiet([content[0]]) && Quiet(content[1..])
    ensures Quiet(content)
  {
    QuietParts([content[0]], content[1..]);
    assert content == [content[0]] + content[1..];
  }

  lemma QuietParts(a: seq<string>, b: seq<string>)
    ensures Quiet(a + b) <==> Quiet(a) && Quiet(b)
  {
    if Quiet(a + b) {
      assert forall i | 0 <= i < |a| :: a[i] == (a + b)[i];
      assert forall i | 0 <= i < |b| :: b[i] == (a + b)[|a| + i];
    }
  }

  lemma StripShortens(line: string)
    ensures |StripSlotIndex(line)| <= |line|
  {
  }

  lemma RawIndexed(digits: string, line: string)
    requires Suits(Indexed(digits), line)
    ensures |Emit(false, Decorate(Indexed(digits), line))| == 1 >= |Emit(true, line)|
    ensures Emit(false, Decorate(Indexed(digits), line)) != Emit(true, line)
  {
    var s := Decorate(Indexed(digits), line);
    assert s[0] == digits[0] && |s| > |line|;
    DigitIsNoNoise(s);
    StripShortens(line);
    assert [s][0] != [StripSlotIndex(line)][0];
  }

  lemma RawTabbed(line: string)
    requires Suits(Tabbed, line) && !IsIrNoise(line)
    ensures |Emit(false, Decorate(Tabbed, line))| == 1 >= |Emit(true, line)|
  {
    StripDropsFront('\t', line);
    assert Decorate(Tabbed, line) == ['\t'] + line;
  }

  lemma RawEmits(d: Decoration, line: string)
    requires Suits(d, line) && !IsIrNoise(line)
    ensures |Emit(false, Decorate(d, line))| >= |Emit(true, line)|
    ensures Emit(false, Decorate(d, line)) == Emit(true, line) ==> !d.Indexed?
  {
    match d
    case Plain =>
    case Indexed(digits) => RawIndexed(digits, line);
    case Tabbed => RawTabbed(line);
  }

  /** A dump that loses its recognition to the prefixes keeps at least one of them. */
  lemma UnrecognisedIsVisible(ds: seq<Decoration>, content: seq<string>)
    requires AllSuit(ds, content)
    requires EmitAll(false, DecorateAll(ds, content)) == EmitAll(true, content)
    ensures forall i | 0 <= i < |ds| :: !ds[i].Indexed?
  {
    var after := DecorateAll(ds, content);
    NoNoiseOut(after);
    QuietBack(content);
    forall i | 0 <= i < |ds|
      ensures |Emit(false, after[i])| >= |Emit(true, content[i])|
      ensures Emit(false, after[i]) == Emit(true, content[i]) ==> !ds[i].Indexed?
    {
      RawEmits(ds[i], content[i]);
    }
    LineByLine(false, after, true, content);
  }

  // ---------------------------------------------------------------------------
  // Recognition under decoration
  // ---------------------------------------------------------------------------

  /** Line n is the first with something on it. */
  predicate FirstTextAt(content: seq<string>, n: nat) {
    n < |content| && !Blank(content[n]) && forall i | 0 <= i < n :: Blank(content[i])
  }

  predicate HeadedAt(content: seq<string>, n: nat) {
    FirstTextAt(content, n) && StartsWith(content[n], MACHINE)
  }

  lemma {:induction false} FirstNonBlankIs(content: seq<string>, n: nat)
    requires FirstTextAt(content, n)
    ensures FirstNonBlank(content) == content[n]
    decreases n
  {
    if n > 0 {
      assert Blank(content[0]);
      FirstNonBlankIs(content[1..], n - 1);
    }
  }

  lemma TextAfterBlank(content: seq<string>, n: nat)
    requires content != [] && Blank(content[0]) && FirstTextAt(content[1..], n)
    ensures FirstTextAt(content, n + 1)
  {
    var rest := content[1..];
    forall i | 0 <= i < n + 1
      ensures Blank(content[i])
    {
      assert i == 0 || content[i] == rest[i - 1];
    }
    assert content[n + 1] == rest[n];
  }

  function BlankRun(content: seq<string>): nat {
    if content != [] && Blank(content[0]) then 1 + BlankRun(content[1..]) else 0
  }

  lemma {:induction false} BlankRunEnds(content: seq<string>)
    requires FirstNonBlank(content) != ""
    ensures FirstTextAt(content, BlankRun(content))
  {
    if Blank(content[0]) {
      BlankRunEnds(content[1..]);
      TextAfterBlank(content, BlankRun(content[1..]));
    }
  }

  /** What is left of a machine dump's marks once it is decorated: an unindexed
      "# Machine code" head, or an unindexed block label among the first eight lines. */
  ghost predicate StaysMachine(ds: seq<Decoration>, content: seq<string>)
    requires |ds| == |content|
  {
    StaysHeaded(ds, content) || StaysLabelled(ds, content)
  }

  ghost predicate StaysHeaded(ds: seq<Decoration>, content: seq<string>)
    requires |ds| == |content|
  {
    exists n: nat :: HeadedAt(content, n) && ds[n] == Plain
  }

  ghost predicate StaysLabelled(ds: seq<Decoration>, content: seq<string>)
    requires |ds| == |content|
  {
    exists i :: 0 <= i < |content| && i < 8 && IsLabel(content[i]) && !ds[i].Indexed?
  }

  lemma DecoratedLine(d: Decoration, line: string)
    requires Suits(d, line)
    ensures Blank(Decorate(d, line)) <==> Blank(line)
    ensures IsLabel(Decorate(d, line)) <==> IsLabel(line) && !d.Indexed?
    ensures StartsWith(Decorate(d, line), MACHINE) <==> StartsWith(line, MACHINE) && d == Plain
  {
    var s := Decorate(d, line);
    match d
    case Plain =>
    case Indexed(digits) =>
      assert s[0] == digits[0];
      StripKeepsFront(s);
    case Tabbed =>
      assert s == ['\t'] + line;
      StripDropsFront('\t', line);
      assert MACHINE[0] == '#' && s[0] == '\t';
  }

  lemma DecoratedHead(ds: seq<Decoration>, content: seq<string>, n: nat)
    requires AllSuit(ds, content)
    ensures HeadedAt(DecorateAll(ds, content), n) <==> HeadedAt(content, n) && ds[n] == Plain
  {
    forall i | 0 <= i < |ds|
      ensures Blank(DecorateAll(ds, content)[i]) <==> Blank(content[i])
    {
      DecoratedLine(ds[i], content[i]);
    }
    if n < |ds| {
      DecoratedLine(ds[n], content[n]);
    }
  }

  lemma HeadMakesMachine(content: seq<string>)
    ensures StartsWith(FirstNonBlank(content), MACHINE) <==> exists n: nat :: HeadedAt(content, n)
  {
    if StartsWith(FirstNonBlank(content), MACHINE) {
      BlankRunEnds(content);
      FirstNonBlankIs(content, BlankRun(content));
      assert HeadedAt(content, BlankRun(content));
    }
    forall n | HeadedAt(content, n)
      ensures StartsWith(FirstNonBlank(content), MACHINE)
    {
      FirstNonBlankIs(content, n);
    }
  }

  lemma DecoratedHeads(ds: seq<Decoration>, content: seq<string>)
    requires AllSuit(ds, content)
    ensures StartsWith(FirstNonBlank(DecorateAll(ds, content)), MACHINE) <==> StaysHeaded(ds, content)
    ensures StaysHeaded(ds, content) ==> StartsWith(FirstNonBlank(content), MACHINE)
  {
    var after := DecorateAll(ds, content);
    HeadMakesMachine(content);
    HeadMakesMachine(after);
    if StartsWith(FirstNonBlank(after), MACHINE) {
      var n: nat :| HeadedAt(after, n);
      DecoratedHead(ds, content, n);
    }
    if StaysHeaded(ds, content) {
      var n: nat :| HeadedAt(content, n) && ds[n] == Plain;
      DecoratedHead(ds, content, n);
    }
  }

  lemma DecoratedLabels(ds: seq<Decoration>, content: seq<string>)
    requires AllSuit(ds, content)
    ensures Labelled(DecorateAll(ds, content)) <==> StaysLabelled(ds, content)
    ensures StaysLabelled(ds, content) ==> Labelled(content)
  {
    var after := DecorateAll(ds, content);
    if Labelled(after) {
      var i :| 0 <= i < |after| && i < 8 && IsLabel(after[i]);
      DecoratedLine(ds[i], content[i]);
    }
    if StaysLabelled(ds, content) {
      var i :| 0 <= i < |content| && i < 8 && IsLabel(content[i]) && !ds[i].Indexed?;
      DecoratedLine(ds[i], content[i]);
      assert IsLabel(after[i]);
    }
  }

  /** Whether a decorated dump is still recognised as machine code, told from the dump
      and the decoration. */
  lemma DecoratedIsMachine(ds: seq<Decoration>, content: seq<string>)
    requires AllSuit(ds, content)
    ensures IsMachine(DecorateAll(ds, content)) <==> StaysMachine(ds, content)
    ensures StaysMachine(ds, content) ==> IsMachine(content)
  {
    DecoratedHeads(ds, content);
    DecoratedLabels(ds, content);
  }

  lemma HeadIsNotTabbed(d: Decoration, line: string)
    requires Suits(d, line) && StartsWith(line, MACHINE) && !d.Indexed?
    ensures d == Plain
  {
    assert line[0] == MACHINE[0];
  }

  /** With no index anywhere, recognition is never lost. */
  lemma TabsKeepMachine(ds: seq<Decoration>, content: seq<string>)
    requires AllSuit(ds, content) && IsMachine(content)
    requires forall i | 0 <= i < |ds| :: !ds[i].Indexed?
    ensures StaysMachine(ds, content)
  {
    HeadMakesMachine(content);
    if StartsWith(FirstNonBlank(content), MACHINE) {
      var n: nat :| HeadedAt(content, n);
      HeadIsNotTabbed(ds[n], content[n]);
    } else {
      assert Labelled(content) && StaysLabelled(ds, content);
    }
  }

  // ---------------------------------------------------------------------------
  // The promise
  // ---------------------------------------------------------------------------

  /** Slot-index invisibility, exactly: normalisation sees no difference between a
      machine dump and its decorated form if and only if the decorated form is still
      recognised, by an unindexed head or label, and no index was put before a frame
      line or a line that itself carries a prefix. */
  lemma SlotIndexInvisible(ds: seq<Decoration>, content: seq<string>)
    requires AllSuit(ds, content) && IsMachine(content)
    ensures Normalised(DecorateAll(ds, content)) == Normalised(content)
      <==> StaysMachine(ds, content) && AllUndone(ds, content)
  {
    DecoratedIsMachine(ds, content);
    if StaysMachine(ds, content) {
      DecoratedEmitAll(ds, content);
    } else if Normalised(DecorateAll(ds, content)) == Normalised(content) {
      UnrecognisedIsVisible(ds, content);
      TabsKeepMachine(ds, content);
      assert false;
    }
  }

  lemma {:induction false} EmitsSomething(machine: bool, content: seq<string>, i: nat, out: string)
    requires i < |content| && Emit(machine, content[i]) == [out]
    ensures out in EmitAll(machine, content)
    decreases i
  {
    if i > 0 {
      EmitsSomething(machine, content[1..], i - 1, out);
    }
  }

  lemma IndexedIsCompared(digits: string, line: string)
    requires Suits(Indexed(digits), line)
    ensures Emit(false, Decorate(Indexed(digits), line)) == [Decorate(Indexed(digits), line)]
  {
    assert Decorate(Indexed(digits), line)[0] == digits[0];
    DigitIsNoNoise(Decorate(Indexed(digits), line));
  }

  /** Decorating a machine dump never leaves nothing to compare. */
  lemma DecoratedKeepsLines(ds: seq<Decoration>, content: seq<string>)
    requires AllSuit(ds, content) && IsMachine(content)
    requires Normalised(DecorateAll(ds, content)) == []
    ensures Normalised(content) == []
  {
    DecoratedIsMachine(ds, content);
    if StaysMachine(ds, content) {
      DecoratedEmitAll(ds, content);
    } else {
      if i :| 0 <= i < |ds| && ds[i].Indexed? {
        IndexedIsCompared(ds[i].digits, content[i]);
        EmitsSomething(false, DecorateAll(ds, content), i, Decorate(ds[i], content[i]));
      } else {
        TabsKeepMachine(ds, content);
      }
      assert false;
    }
  }

  /** Outside machine dumps nothing is undone: a decoration is invisible exactly when it
      only puts tabs before lines that are not compared. */
  lemma IrDumpShowsPrefixes(ds: seq<Decoration>, content: seq<string>)
    requires AllSuit(ds, content) && !IsMachine(content)
    ensures Normalised(DecorateAll(ds, content)) == Normalised(content)
      <==> forall i | 0 <= i < |ds| :: ds[i] == Plain || (ds[i] == Tabbed && IsIrNoise(content[i]))
  {
    var after := DecorateAll(ds, content);
    DecoratedIsMachine(ds, content);
    forall i | 0 <= i < |ds|
      ensures |Emit(false, after[i])| >= |Emit(false, content[i])|
      ensures Emit(false, after[i]) == Emit(false, content[i])
              <==> ds[i] == Plain || (ds[i] == Tabbed && IsIrNoise(content[i]))
    {
      IrEmits(ds[i], content[i]);
    }
    LineByLine(false, after, false, content);
  }

  /** In IR mode an index always shows. */
  lemma IrIndexed(digits: string, line: string)
    requires Suits(Indexed(digits), line)
    ensures |Emit(false, Decorate(Indexed(digits), line))| == 1 >= |Emit(false, line)|
    ensures Emit(false, Decorate(Indexed(digits), line)) != Emit(false, line)
  {
    var s := Decorate(Indexed(digits), line);
    assert s[0] == digits[0] && |s| > |line|;
    DigitIsNoNoise(s);
    assert [s][0] != [line][0];
  }

  /** And a tab exactly where its line is compared. */
  lemma IrTabbed(line: string)
    requires Suits(Tabbed, line)
    ensures |Emit(false, Decorate(Tabbed, line))| == |Emit(false, line)|
    ensures Emit(false, Decorate(Tabbed, line)) == Emit(false, line) <==> IsIrNoise(line)
  {
    var s := Decorate(Tabbed, line);
    assert s == ['\t'] + line && |s| > |line|;
    StripDropsFront('\t', line);
    assert [s][0] != [line][0];
  }

  lemma IrEmits(d: Decoration, line: string)
    requires Suits(d, line)
    ensures |Emit(false, Decorate(d, line))| >= |Emit(false, line)|
    ensures Emit(false, Decorate(d, line)) == Emit(false, line)
            <==> d == Plain || (d == Tabbed && IsIrNoise(line))
  {
    match d
    case Plain =>
    case Indexed(digits) => IrIndexed(digits, line);
    case Tabbed => IrTabbed(line);
  }

  /** The promise as the stage report needs it: under a plain "# Machine code" header,
      indexes on body lines that carry no prefix, and tabs anywhere, leave the normal
      form as it was; and only those indexes do. */
  lemma HeadedDumpInvisible(ds: seq<Decoration>, content: seq<string>, n: nat)
    requires AllSuit(ds, content)
    requires HeadedAt(content, n) && ds[n] == Plain
    ensures Normalised(DecorateAll(ds, content)) == Normalised(content) <==> AllUndone(ds, content)
  {
    HeadMakesMachine(content);
    SlotIndexInvisible(ds, content);
  }

  /** The smallest dump that loses its recognition: a block known only by its label is
      no longer recognised once the label is indexed, and keeps the prefix. */
  lemma UnheadedIsExposed(digits: string, block: string)
    requires Suits(Indexed(digits), block) && StartsWith(block, "bb.")
    ensures Normalised([block]) == [block]
    ensures Normalised([Decorate(Indexed(digits), block)]) == [Decorate(Indexed(digits), block)]
    ensures [Decorate(Indexed(digits), block)] != [block]
  {
    var indexed := Decorate(Indexed(digits), block);
    LabelIsMachine(block);
    assert indexed[0] == digits[0];
    IndexedIsNotMachine(indexed);
    assert |indexed| > |block|;
    assert [indexed][0] == indexed && [block][0] == block;
  }

  lemma FirstOfOne(line: string)
    requires !Blank(line)
    ensures FirstNonBlank([line]) == line
  {
  }

  lemma LabelEmits(block: string)
    requires StartsWith(block, "bb.")
    ensures Emit(true, block) == [block]
  {
    StripKeepsFront(block);
    assert block[0] == 'b' && DigitRun(block) == 0;
    assert Strip(block)[0] != '#';
  }

  lemma LabelIsMachine(block: string)
    requires StartsWith(block, "bb.")
    ensures IsMachine([block]) && Normalised([block]) == [block]
  {
    LabelKeepsStart(block);
    assert IsLabel([block][0]);
    assert IsMachine([block]);
    LabelEmits(block);
    OneLine(true, block);
  }

  lemma LabelKeepsStart(block: string)
    requires StartsWith(block, "bb.")
    ensures StartsWith(Strip(block), "bb.")
  {
    StripKeepsFront(block);
    assert LStrip(RStrip(block)) == RStrip(block) by {
      RStripKeepsFront(block);
    }
    RStripKeepsPrefix(block, 3);
  }

  lemma DigitIsNoNoise(line: string)
    requires line != "" && IsDigit(line[0])
    ensures Emit(false, line) == [line]
  {
    StripKeepsFront(line);
    assert IsDigit(Strip(line)[0]);
  }

  lemma IndexedIsNotMachine(indexed: string)
    requires indexed != "" && IsDigit(indexed[0])
    ensures !IsMachine([indexed]) && Normalised([indexed]) == [indexed]
  {
    StripKeepsFront(indexed);
    FirstOfOne(indexed);
    assert !StartsWith(indexed, MACHINE) && !IsLabel(indexed);
    assert !IsMachine([indexed]);
    DigitIsNoNoise(indexed);
    OneLine(false, indexed);
  }

  // ---------------------------------------------------------------------------
  // Which lines are compared
  // ---------------------------------------------------------------------------

  predicate IsWord(s: string) {
    s != "" && forall i | 0 <= i < |s| :: IsWordChar(s[i])
  }

  /** s begins a named or numbered metadata definition. */
  ghost predicate DefinesMetadata(s: string) {
    exists name :: IsWord(name) && "!" + name + " = " <= s
  }

  lemma {:induction false} WordRunSplit(s: string)
    ensures forall i | 0 <= i < WordRun(s) :: IsWordChar(s[i])
    ensures WordRun(s) < |s| ==> !IsWordChar(s[WordRun(s)])
  {
    if s != [] && IsWordChar(s[0]) {
      WordRunSplit(s[1..]);
      assert forall i | 1 <= i < WordRun(s) :: s[i] == s[1..][i - 1];
    }
  }

  lemma {:induction false} WordRunIs(s: string, name: string)
    requires (forall i | 0 <= i < |name| :: IsWordChar(name[i])) && name <= s && |name| < |s| && !IsWordChar(s[|name|])
    ensures WordRun(s) == |name|
    decreases |name|
  {
    if name != "" {
      assert s[0] == name[0] && s[1..][|name[1..]|] == s[|name|];
      WordRunIs(s[1..], name[1..]);
    }
  }

  lemma MetadataExactly(s: string)
    ensures IsNamedMetadata(s) <==> DefinesMetadata(s)
  {
    if IsNamedMetadata(s) {
      var name := s[1..][..WordRun(s[1..])];
      WordRunSplit(s[1..]);
      assert s[1 + |name|..][..3] == " = ";
      assert "!" + name + " = " == s[..|name| + 4];
      assert IsWord(name);
    }
    if name :| IsWord(name) && "!" + name + " = " <= s {
      var t := "!" + name + " = ";
      assert t[0] == '!' && t[1..][..|name|] == name && t[1 + |name|] == ' ';
      assert s[1..][|name|] == t[1 + |name|] && name == s[1..][..|name|];
      WordRunIs(s[1..], name);
      assert s[1 + |name|..][..3] == " = ";
    }
  }

  /** Module furniture: what the compared text of a stage leaves out in IR mode. */
  ghost predicate IsFurniture(s: string) {
    || "; ModuleID" <= s || "source_filename" <= s || "target datalayout" <= s || "target triple" <= s
    || "attributes #" <= s || "!llvm." <= s || DefinesMetadata(s)
  }

  lemma FurnitureExactly(s: string)
    ensures IsNoiseText(s) <==> IsFurniture(s)
  {
    MetadataExactly(s);
  }

  /** What is dropped outside machine dumps: blank lines, and those that begin, behind
      spaces, like module furniture; every other line is compared as it stands. */
  lemma IrKeepsExactly(line: string)
    ensures Emit(false, line) == if AllSpace(line) || IsFurniture(Strip(line)) then [] else [line]
  {
    BlankExactly(line);
    FurnitureExactly(Strip(line));
  }

  /** And inside them: blank lines and the two frame lines; every other line is compared
      without its prefix. */
  lemma MachineKeepsExactly(line: string)
    ensures
      var s := Strip(line);
      Emit(true, line) ==
        if AllSpace(line) || "# Machine code for" <= s || "# End machine code" <= s then []
        else [StripSlotIndex(line)]
  {
    BlankExactly(line);
  }

  predicate AllDigits(s: string) {
    s != "" && forall i | 0 <= i < |s| :: '0' <= s[i] <= '9'
  }

  /** What a line is without its prefix: the rest behind digits, a B and a tab; else the
      rest behind a tab before a space or a semicolon; else the line itself. */
  ghost predicate IsStripped(line: string, out: string) {
    if exists digits, rest :: SlotPrefixed(line, digits, rest) then
      exists digits :: SlotPrefixed(line, digits, out)
    else if |line| >= 2 && line[0] == '\t' && (line[1] == ' ' || line[1] == ';') then out == line[1..]
    else out == line
  }

  predicate SlotPrefixed(line: string, digits: string, rest: string) {
    AllDigits(digits) && line == digits + "B\t" + rest
  }

  lemma SlotPrefixSplit(line: string)
    requires SlotPrefix(line) > 0
    ensures SlotPrefixed(line, line[..DigitRun(line)], line[SlotPrefix(line)..])
  {
    var d := DigitRun(line);
    assert line == line[..d] + [line[d], line[d + 1]] + line[d + 2..];
  }

  lemma StripSlotExactly(line: string)
    ensures IsStripped(line, StripSlotIndex(line))
  {
    if SlotPrefix(line) > 0 {
      SlotPrefixSplit(line);
    } else {
      forall digits, rest
        ensures !SlotPrefixed(line, digits, rest)
      {
        if SlotPrefixed(line, digits, rest) {
          SlotPrefixFound(line, digits, rest);
        }
      }
    }
  }

  lemma SlotPrefixFound(line: string, digits: string, rest: string)
    requires SlotPrefixed(line, digits, rest)
    ensures SlotPrefix(line) == |digits| + 2
  {
    var tail := "B\t" + rest;
    assert line == digits + tail;
    DigitRunOfPrefix(digits, tail);
    assert line[|digits|] == tail[0] && line[|digits| + 1] == tail[1];
  }

  /** Which dumps are machine dumps: those whose first line with text begins with
      "# Machine code", or with a label among their first eight lines. */
  lemma MachineExactly(content: seq<string>)
    ensures IsMachine(content) <==>
      || (exists n: nat :: FirstTextAt(content, n) && "# Machine code" <= content[n])
      || exists i :: 0 <= i < |content| && i < 8 && "bb." <= Strip(content[i])
  {
    HeadMakesMachine(content);
    if n: nat :| HeadedAt(content, n) {
      assert FirstTextAt(content, n) && "# Machine code" <= content[n];
    }
    if n: nat :| FirstTextAt(content, n) && "# Machine code" <= content[n] {
      assert HeadedAt(content, n);
    }
    if i :| 0 <= i < |content| && i < 8 && "bb." <= Strip(content[i]) {
      assert IsLabel(content[i]);
    }
    if i :| 0 <= i < |content| && i < 8 && IsLabel(content[i]) {
      assert "bb." <= Strip(content[i]);
    }
  }

  // ---------------------------------------------------------------------------
  // Adding one line
  // ---------------------------------------------------------------------------

  /** A line that reads the same in both modes: blank, or neither frame nor noise and
      without a prefix. */
  predicate Alike(line: string) {
    Blank(line) || (!IsFrame(line) && !IsIrNoise(line) && StripSlotIndex(line) == line)
  }

  lemma AlikeEmits(line: string)
    ensures Alike(line) <==> Emit(true, line) == Emit(false, line)
  {
    if IsFrame(line) && IsIrNoise(line) {
      FrameText(line);
      NoiseText(Strip(line));
    }
  }

  predicate AllAlike(content: seq<string>) {
    forall i | 0 <= i < |content| :: Alike(content[i])
  }

  lemma AlikeIsNoNoise(line: string)
    requires Alike(line)
    ensures !IsIrNoise(line)
  {
    if IsIrNoise(line) {
      NoiseText(Strip(line));
    }
  }

  lemma AlikeIsQuiet(content: seq<string>)
    requires AllAlike(content)
    ensures Quiet(content)
  {
    forall i | 0 <= i < |content|
      ensures !IsIrNoise(content[i])
    {
      assert Alike(content[i]);
      AlikeIsNoNoise(content[i]);
    }
  }

  lemma QuietModes(content: seq<string>)
    requires Quiet(content)
    ensures |EmitAll(false, content)| >= |EmitAll(true, content)|
    ensures EmitAll(false, content) == EmitAll(true, content) <==> AllAlike(content)
  {
    LineByLine(false, content, true, content);
    forall i | 0 <= i < |content|
      ensures Alike(content[i]) <==> Emit(true, content[i]) == Emit(false, content[i])
    {
      AlikeEmits(content[i]);
    }
  }

  /** Two normal forms of one dump in different modes. */
  lemma ModesAgree(content: seq<string>)
    ensures EmitAll(false, content) == EmitAll(true, content) <==> AllAlike(content)
  {
    if EmitAll(false, content) == EmitAll(true, content) {
      NoNoiseOut(content);
      QuietBack(content);
      QuietModes(content);
    }
    if AllAlike(content) {
      AlikeIsQuiet(content);
      QuietModes(content);
    }
  }

  function Labels(lines: seq<string>): nat {
    if lines == [] then 0 else (if IsLabel(lines[0]) then 1 else 0) + Labels(lines[1..])
  }

  lemma {:induction false} LabelsAppend(a: seq<string>, b: seq<string>)
    ensures Labels(a + b) == Labels(a) + Labels(b)
  {
    if a == [] {
      assert a + b == b;
    } else {
      assert (a + b)[1..] == a[1..] + b;
      LabelsAppend(a[1..], b);
    }
  }

  lemma LabelText(line: string)
    requires IsLabel(line)
    ensures Strip(line) != "" && Strip(line)[0] == 'b' && !IsIrNoise(line)
  {
    if IsIrNoise(line) {
      NoiseText(Strip(line));
    }
  }

  lemma LabelSurvives(line: string)
    requires IsLabel(line)
    ensures Emit(true, line) == [StripSlotIndex(line)] && IsLabel(StripSlotIndex(line))
    ensures Emit(false, line) == [line]
  {
    LabelText(line);
    KeptInMachine(line);
    StripOfUnprefixed(line);
  }

  lemma LabelsOfOne(line: string)
    ensures Labels(Emit(true, line)) >= Labels([line]) == (if IsLabel(line) then 1 else 0)
    ensures Labels(Emit(false, line)) == Labels([line])
  {
    assert [line][1..] == [];
    if IsLabel(line) {
      LabelSurvives(line);
    }
  }

  lemma LabelsEmitted(machine: bool, line: string, rest: seq<string>)
    ensures Labels(EmitAll(machine, [line] + rest)) == Labels(Emit(machine, line)) + Labels(EmitAll(machine, rest))
  {
    assert ([line] + rest)[1..] == rest;
    LabelsAppend(Emit(machine, line), EmitAll(machine, rest));
  }

  lemma {:induction false} LabelsKept(content: seq<string>)
    ensures Labels(EmitAll(true, content)) >= Labels(content) == Labels(EmitAll(false, content))
  {
    if content != [] {
      var line, rest := content[0], content[1..];
      assert content == [line] + rest;
      LabelsKept(rest);
      LabelsOfOne(line);
      LabelsAppend([line], rest);
      LabelsEmitted(true, line, rest);
      LabelsEmitted(false, line, rest);
    }
  }

  lemma BlankEmpty()
    ensures Blank("")
  {
  }

  lemma FirstNonBlankCons(line: string, rest: seq<string>)
    ensures FirstNonBlank([line] + rest) == if Blank(line) then FirstNonBlank(rest) else line
    ensures !Blank(line) ==> line != ""
  {
    assert ([line] + rest)[1..] == rest;
    BlankEmpty();
  }

  lemma {:induction false} FirstNonBlankAppend(a: seq<string>, b: seq<string>)
    ensures FirstNonBlank(a + b) == if FirstNonBlank(a) != "" then FirstNonBlank(a) else FirstNonBlank(b)
  {
    if a == [] {
      assert a + b == b;
    } else {
      assert a == [a[0]] + a[1..] && a + b == [a[0]] + (a[1..] + b);
      FirstNonBlankCons(a[0], a[1..]);
      FirstNonBlankCons(a[0], a[1..] + b);
      FirstNonBlankAppend(a[1..], b);
    }
  }

  lemma {:induction false} AllBlankEmitsNothing(machine: bool, content: seq<string>)
    requires FirstNonBlank(content) == ""
    ensures EmitAll(machine, content) == []
  {
    if content != [] {
      assert Blank("");
      AllBlankEmitsNothing(machine, content[1..]);
    }
  }

  lemma {:induction false} QuietFirst(content: seq<string>)
    requires Quiet(content) && EmitAll(false, content) != []
    ensures EmitAll(false, content)[0] == FirstNonBlank(content)
  {
    if Blank(content[0]) {
      assert EmitAll(false, content) == EmitAll(false, content[1..]);
      QuietFirst(content[1..]);
    }
  }

  ghost predicate Early<T(!new)>(p: T -> bool, content: seq<T>) {
    exists i :: 0 <= i < |content| && i < 8 && p(content[i])
  }

  /** One more element moves none of the others forward. */
  lemma EarlyGained<T(!new)>(p: T -> bool, a: seq<T>, x: T, b: seq<T>)
    requires Early(p, a + [x] + b) && !Early(p, a + b)
    ensures p(x)
  {
    var longer, shorter := a + [x] + b, a + b;
    assert forall j | 0 <= j < |a| :: longer[j] == shorter[j];
    assert forall j | |a| < j < |longer| :: longer[j] == shorter[j - 1];
    var i :| 0 <= i < |longer| && i < 8 && p(longer[i]);
    assert i == |a|;
  }

  lemma EarlyPushedOut<T(!new)>(p: T -> bool, x: T, b: seq<T>)
    requires !p(x) && forall i | 0 <= i < |b| && i < 7 :: !p(b[i])
    ensures !Early(p, [x] + b)
  {
    var longer := [x] + b;
    forall i | 0 <= i < |longer| && i < 8
      ensures !p(longer[i])
    {
      assert i == 0 || longer[i] == b[i - 1];
    }
  }

  lemma MachineMarks(content: seq<string>)
    ensures IsMachine(content) <==> StartsWith(FirstNonBlank(content), MACHINE) || Early(IsLabel, content)
  {
  }

  lemma HeadGained(a: seq<string>, line: string, b: seq<string>)
    requires FirstNonBlank(a + [line] + b) != FirstNonBlank(a + b)
    ensures FirstNonBlank(a) == "" && FirstNonBlank(a + [line] + b) == line
  {
    Words.Assoc(a, [line], b);
    FirstNonBlankAppend(a, b);
    FirstNonBlankAppend(a, [line] + b);
    FirstNonBlankCons(line, b);
  }

  /** A line whose addition makes a dump a machine dump is its new head or a label. */
  lemma RecognitionGained(a: seq<string>, line: string, b: seq<string>)
    requires IsMachine(a + [line] + b) && !IsMachine(a + b)
    ensures (FirstNonBlank(a) == "" && StartsWith(line, MACHINE)) || IsLabel(line)
  {
    MachineMarks(a + b);
    MachineMarks(a + [line] + b);
    if StartsWith(FirstNonBlank(a + [line] + b), MACHINE) {
      HeadGained(a, line, b);
    } else {
      EarlyGained(IsLabel, a, line, b);
    }
  }

  lemma LabelShows(a: seq<string>, line: string, b: seq<string>)
    requires IsLabel(line)
    ensures EmitAll(true, a) + Emit(true, line) + EmitAll(true, b) != EmitAll(false, a) + EmitAll(false, b)
  {
    LabelsAppend(EmitAll(true, a) + Emit(true, line), EmitAll(true, b));
    LabelsAppend(EmitAll(true, a), Emit(true, line));
    LabelsAppend(EmitAll(false, a), EmitAll(false, b));
    LabelsKept(a);
    LabelsKept(b);
    LabelsOfOne(line);
  }

  lemma HeadEmits(line: string)
    requires StartsWith(line, MACHINE) && !Skipped(true, line)
    ensures Emit(true, line) == [line]
  {
    assert line[0] == MACHINE[0];
    assert StripSlotIndex(line) == line;
  }

  lemma HeadRepeated(line: string, b: seq<string>)
    requires [line] + EmitAll(true, b) == EmitAll(false, b)
    ensures FirstNonBlank(b) == line
  {
    NoNoiseOut(b);
    QuietParts([line], EmitAll(true, b));
    QuietBack(b);
    QuietFirst(b);
  }

  lemma HeadShows(a: seq<string>, line: string, b: seq<string>)
    requires FirstNonBlank(a) == "" && Emit(true, line) == [line] && FirstNonBlank(b) != line
    ensures EmitAll(true, a) + Emit(true, line) + EmitAll(true, b) != EmitAll(false, a) + EmitAll(false, b)
  {
    AllBlankEmitsNothing(true, a);
    AllBlankEmitsNothing(false, a);
    assert [] + [line] == [line] && [] + EmitAll(false, b) == EmitAll(false, b);
    if [line] + EmitAll(true, b) == EmitAll(false, b) {
      HeadRepeated(line, b);
    }
  }

  /** A compared line that turns a dump into a machine dump always shows. */
  lemma GainShows(a: seq<string>, line: string, b: seq<string>)
    requires IsMachine(a + [line] + b) && !IsMachine(a + b) && !Skipped(true, line)
    ensures EmitAll(true, a) + Emit(true, line) + EmitAll(true, b) != EmitAll(false, a) + EmitAll(false, b)
  {
    RecognitionGained(a, line, b);
    if IsLabel(line) {
      LabelShows(a, line, b);
    } else {
      MachineMarks(a + b);
      FirstNonBlankAppend(a, b);
      HeadEmits(line);
      HeadShows(a, line, b);
    }
  }

  /** Losing the recognition to a new line. */
  lemma LossShows(a: seq<string>, line: string, b: seq<string>)
    ensures EmitAll(false, a) + Emit(false, line) + EmitAll(false, b) == EmitAll(true, a) + EmitAll(true, b)
      <==> Skipped(false, line) && AllAlike(a) && AllAlike(b)
  {
    var before, after := EmitAll(false, a), EmitAll(false, b);
    var now, was := before + Emit(false, line) + after, EmitAll(true, a) + EmitAll(true, b);
    if now == was {
      NoNoiseOut(a + [line] + b);
      EmitAround(false, a, line, b);
      EmitAllAppend(true, a, b);
      QuietBack(a + b);
      QuietParts(a, b);
      QuietModes(a);
      QuietModes(b);
      SplitEqual(before + Emit(false, line), after, EmitAll(true, a), EmitAll(true, b));
      assert |before| == |EmitAll(true, a)| && before + Emit(false, line) == EmitAll(true, a);
      assert before == EmitAll(true, a);
    }
    if Skipped(false, line) && AllAlike(a) && AllAlike(b) {
      ModesAgree(a);
      ModesAgree(b);
      assert before + [] == before;
    }
  }

  lemma KeptShows(machine: bool, a: seq<string>, line: string, b: seq<string>)
    ensures EmitAll(machine, a) + Emit(machine, line) + EmitAll(machine, b) == EmitAll(machine, a) + EmitAll(machine, b)
      <==> Skipped(machine, line)
  {
    var before, after := EmitAll(machine, a), EmitAll(machine, b);
    if Skipped(machine, line) {
      assert before + [] == before;
    } else {
      assert |before + Emit(machine, line) + after| == |before + after| + 1;
    }
  }

  lemma NormalisedAround(a: seq<string>, line: string, b: seq<string>)
    ensures
      var m := IsMachine(a + [line] + b);
      Normalised(a + [line] + b) == EmitAll(m, a) + Emit(m, line) + EmitAll(m, b)
  {
    EmitAround(IsMachine(a + [line] + b), a, line, b);
  }

  lemma EmitAround(m: bool, a: seq<string>, line: string, b: seq<string>)
    ensures EmitAll(m, a + [line] + b) == EmitAll(m, a) + Emit(m, line) + EmitAll(m, b)
  {
    EmitAllAppend(m, a + [line], b);
    EmitAllAppend(m, a, [line]);
    OneLine(m, line);
  }

  lemma AlikeParts(a: seq<string>, b: seq<string>)
    ensures AllAlike(a + b) <==> AllAlike(a) && AllAlike(b)
  {
    if AllAlike(a + b) {
      assert forall i | 0 <= i < |a| :: a[i] == (a + b)[i];
      assert forall i | 0 <= i < |b| :: b[i] == (a + b)[|a| + i];
    }
  }

  /** Which line can be added to a dump unseen, exactly: one that the longer dump's mode
      skips, and that either leaves the mode as it was or changes it in a dump all of
      whose lines read the same in both modes. */
  lemma SkippedInvisible(a: seq<string>, line: string, b: seq<string>)
    ensures Normalised(a + [line] + b) == Normalised(a + b) <==>
      && Skipped(IsMachine(a + [line] + b), line)
      && (IsMachine(a + [line] + b) == IsMachine(a + b) || AllAlike(a + b))
  {
    NormalisedAround(a, line, b);
    EmitAllAppend(IsMachine(a + b), a, b);
    AlikeParts(a, b);
    if IsMachine(a + [line] + b) == IsMachine(a + b) {
      KeptShows(IsMachine(a + b), a, line, b);
    } else if IsMachine(a + b) {
      LossShows(a, line, b);
    } else {
      GainSkipped(a, line, b);
    }
  }

  lemma GainSkipped(a: seq<string>, line: string, b: seq<string>)
    requires IsMachine(a + [line] + b) && !IsMachine(a + b)
    ensures EmitAll(true, a) + Emit(true, line) + EmitAll(true, b) == EmitAll(false, a) + EmitAll(false, b)
      <==> Skipped(true, line) && AllAlike(a) && AllAlike(b)
  {
    if !Skipped(true, line) {
      GainShows(a, line, b);
    } else {
      assert EmitAll(true, a) + [] == EmitAll(true, a);
      EmitAllAppend(true, a, b);
      EmitAllAppend(false, a, b);
      ModesAgree(a + b);
      AlikeParts(a, b);
    }
  }

  /** Even a blank line can show: in front of a dump whose only label stands on its
      eighth line it pushes the label out of sight, and the indexes come back. */
  lemma BlankLineShows(b: seq<string>, digits: string, line: string)
    requires |b| >= 8 && IsLabel(b[7]) && !StartsWith(FirstNonBlank(b), MACHINE)
    requires forall i | 0 <= i < 7 :: !IsLabel(b[i])
    requires Suits(Indexed(digits), line) && b[0] == Decorate(Indexed(digits), line)
    ensures Blank("") && Normalised([""] + b) != Normalised(b)
  {
    PushedOut(b);
    IndexedReadsTwice(digits, line);
    assert !Alike(b[0]);
    InFront("", b);
  }

  lemma NoneInFront(line: string, b: seq<string>)
    ensures [] + [line] + b == [line] + b && [] + b == b
  {
  }

  lemma InFront(line: string, b: seq<string>)
    requires IsMachine([line] + b) != IsMachine(b) && !AllAlike(b)
    ensures Normalised([line] + b) != Normalised(b)
  {
    NoneInFront(line, b);
    SkippedInvisible([], line, b);
  }

  lemma IndexedReadsTwice(digits: string, line: string)
    requires Suits(Indexed(digits), line)
    ensures !Alike(Decorate(Indexed(digits), line))
  {
    var s := Decorate(Indexed(digits), line);
    IndexedEmits(digits, line);
    assert s[0] == digits[0] && |s| > |line|;
    DigitIsNoNoise(s);
    assert [s][0] != [line][0];
    AlikeEmits(s);
  }

  lemma PushedOut(b: seq<string>)
    requires |b| >= 8 && IsLabel(b[7]) && !StartsWith(FirstNonBlank(b), MACHINE)
    requires forall i | 0 <= i < 7 :: !IsLabel(b[i])
    ensures IsMachine(b) && !IsMachine([""] + b) && Blank("")
  {
    BlankEmpty();
    FirstNonBlankCons("", b);
    EarlyPushedOut(IsLabel, "", b);
    MachineMarks([""] + b);
  }
}
