/** extract_stages of tools/format_llvm_debug_html.py: the header patterns and the
    line-driven state machine that cuts a compiler dump into stages. */
module Stages {
  import opened Words
  import opened Lines

  // ---------------------------------------------------------------------------
  // Header lines
  // ---------------------------------------------------------------------------

  const LEGACY := "*** IR Dump After "
  const LEGACY_HASH := "# *** IR Dump After "
  const NEW_PM := "; *** IR Dump After "

  /** The text between a prefix and a suffix, if the line has both. */
  function Inside(t: string, prefix: string, suffix: string): Option<string> {
    if prefix <= t && |prefix| + |suffix| <= |t| && t[|t| - |suffix|..] == suffix
    then Some(t[|prefix|..|t| - |suffix|]) else None
  }

  /** Whether m[i..] begins the " (" of a parenthesised id that runs to the end of m. */
  predicate OpensId(m: string, i: nat) {
    0 < i && i + 3 <= |m| && m[i] == ' ' && m[i + 1] == '(' && ')' !in m[i + 2..] && '\n' !in m[..i]
  }

  /** The greedy group: the last place not after i where an id opens. */
  function LastOpen(m: string, i: nat): (j: Option<nat>)
    ensures j.Some? ==> j.value <= i && OpensId(m, j.value)
    ensures forall k | (if j.Some? then j.value else -1) < k <= i :: !OpensId(m, k)
  {
    if OpensId(m, i) then Some(i) else if i == 0 then None else LastOpen(m, i - 1)
  }

  predicate OnAt(m: string, i: nat) {
    0 < i && i + 5 <= |m| && m[i..i + 4] == " on "
  }

  /** The lazy group: the first place from i on where " on " stands. */
  function FirstOn(m: string, i: nat): (j: Option<nat>)
    ensures j.Some? ==> i <= j.value && OnAt(m, j.value)
    ensures forall k | i <= k < (if j.Some? then j.value else |m|) :: !OnAt(m, k)
    decreases |m| - i
  {
    if i >= |m| then None else if OnAt(m, i) then Some(i) else FirstOn(m, i + 1)
  }

  function LegacyGroups(m: string): Option<(string, string)> {
    match LastOpen(m, |m|)
    case None => None
    case Some(i) => Some((m[..i], m[i + 2..]))
  }

  function NewPmGroups(m: string): Option<(string, string)> {
    if '\n' in m then None
    else
      match FirstOn(m, 0)
      case None => None
      case Some(i) => Some((m[..i], m[i + 4..]))
  }

  function OrElse<T>(a: Option<T>, b: Option<T>): Option<T> {
    if a.Some? then a else b
  }

  /** LEGACY_HEADER_RE or NEW_PM_HEADER_RE on a stripped line: the two groups. */
  function Recognise(t: string): Option<(string, string)> {
    var legacy := OrElse(
      OrElse(Inside(t, LEGACY_HASH, ") ***:"), Inside(t, LEGACY_HASH, ") ***")),
      OrElse(Inside(t, LEGACY, ") ***:"), Inside(t, LEGACY, ") ***")));
    var newPm := OrElse(Inside(t, NEW_PM, " ***:"), Inside(t, NEW_PM, " ***"));
    if legacy.Some? && LegacyGroups(legacy.value).Some? then LegacyGroups(legacy.value)
    else if newPm.Some? then NewPmGroups(newPm.value)
    else None
  }

  /** An id opened again inside the id, where the greedy group would end instead: a " ("
      with more behind it and no line break before. */
  predicate OpensAgain(id: string, k: nat) {
    k + 3 <= |id| && id[k] == ' ' && id[k + 1] == '(' && '\n' !in id[..k]
  }

  /** The names a legacy header gives back. */
  predicate LegacyNames(name: string, id: string) {
    && name != "" && '\n' !in name
    && id != "" && ')' !in id
    && forall k | 0 <= k < |id| :: !OpensAgain(id, k)
  }

  lemma OpensIdInside(name: string, id: string, k: nat)
    requires k < |id| && '\n' !in name && ')' !in id
    ensures OpensId(name + " (" + id, |name| + 2 + k) <==> OpensAgain(id, k)
  {
    var m, i := name + " (" + id, |name| + 2 + k;
    assert m[i..] == id[k..] && m[..i] == name + " (" + id[..k];
    assert k + 1 < |id| ==> m[i + 1] == id[k + 1];
    assert m[i] == id[k];
    if k + 3 <= |id| {
      assert m[i + 2..] == id[k + 2..];
    }
  }

  /** The inner text of a legacy header: the greedy pattern gives back exactly these two
      names, and no others. */
  lemma LegacyGroupsExactly(name: string, id: string)
    ensures LegacyGroups(name + " (" + id) == Some((name, id)) <==> LegacyNames(name, id)
  {
    var m, at := name + " (" + id, |name|;
    assert m[at] == ' ' && m[at + 1] == '(' && m[at + 2..] == id && m[..at] == name;
    assert OpensId(m, at) <==> name != "" && id != "" && ')' !in id && '\n' !in name;
    if OpensId(m, at) {
      forall k | 0 <= k < |id|
        ensures OpensAgain(id, k) <==> OpensId(m, at + 2 + k)
      {
        OpensIdInside(name, id, k);
      }
      forall k: nat | at < k <= |m|
        ensures OpensId(m, k) ==> k >= at + 2 && OpensAgain(id, k - at - 2)
      {
        if k >= at + 2 && k < |m| {
          OpensIdInside(name, id, k - at - 2);
        }
      }
    }
  }

  /** The " *** IR Dump After name (id) ***" header line in its four spellings. */
  predicate LegacySpelling(prefix: string, suffix: string) {
    (prefix == "*** IR Dump After " || prefix == "# *** IR Dump After ") && (suffix == ") ***:" || suffix == ") ***")
  }

  lemma InsideOf(prefix: string, m: string, suffix: string)
    ensures Inside(prefix + m + suffix, prefix, suffix) == Some(m)
  {
    var t := prefix + m + suffix;
    assert t[..|prefix|] == prefix && t[|t| - |suffix|..] == suffix;
    assert t[|prefix|..|t| - |suffix|] == m;
  }

  lemma WrongPrefix(t: string, prefix: string, suffix: string, i: nat)
    requires i < |prefix| && i < |t| && t[i] != prefix[i]
    ensures Inside(t, prefix, suffix).None?
  {
  }

  /** A line that ends in a star ends in no colon. */
  lemma WrongSuffix(t: string, prefix: string, suffix: string)
    requires t != "" && suffix != "" && t[|t| - 1] != suffix[|suffix| - 1]
    ensures Inside(t, prefix, suffix).None?
  {
    if |suffix| <= |t| {
      assert t[|t| - |suffix|..][|suffix| - 1] == t[|t| - 1];
    }
  }

  /** A legacy header line in any of its spellings is read by its inner text. */
  lemma LegacySpelled(prefix: string, m: string, suffix: string)
    requires LegacySpelling(prefix, suffix)
    ensures Recognise(prefix + m + suffix) == LegacyGroups(m)
  {
    var t := prefix + m + suffix;
    InsideOf(prefix, m, suffix);
    assert t[0] == prefix[0] && t[|t| - 1] == suffix[|suffix| - 1];
    WrongPrefix(t, NEW_PM, " ***:", 0);
    WrongPrefix(t, NEW_PM, " ***", 0);
    if prefix == LEGACY {
      WrongPrefix(t, LEGACY_HASH, ") ***:", 0);
      WrongPrefix(t, LEGACY_HASH, ") ***", 0);
    }
    if suffix == ") ***" {
      WrongSuffix(t, prefix, ") ***:");
    }
  }

  lemma {:induction false} FirstOnIs(m: string, i: nat, n: nat)
    requires i <= n && OnAt(m, n) && forall k | i <= k < n :: !OnAt(m, k)
    ensures FirstOn(m, i) == Some(n)
    decreases n - i
  {
    if i < n {
      FirstOnIs(m, i + 1, n);
    }
  }

  /** An earlier " on " that the name's own one completes. */
  predicate OnBegins(name: string, i: nat)
    requires i < |name|
  {
    (name + " on ")[i..i + 4] == " on "
  }

  /** The names a new-pass-manager header gives back. */
  predicate NewPmNames(name: string, unit: string) {
    && name != "" && '\n' !in name
    && unit != "" && '\n' !in unit
    && forall i | 0 < i < |name| :: !OnBegins(name, i)
  }

  lemma OnInside(name: string, unit: string, k: nat)
    requires k < |name| && unit != ""
    ensures OnAt(name + " on " + unit, k) <==> 0 < k && OnBegins(name, k)
  {
    assert (name + " on " + unit)[k..k + 4] == (name + " on ")[k..k + 4];
  }

  /** Its inner text: the lazy pattern gives back exactly these two names. */
  lemma NewPmGroupsExactly(name: string, unit: string)
    ensures NewPmGroups(name + " on " + unit) == Some((name, unit)) <==> NewPmNames(name, unit)
  {
    var m, at := name + " on " + unit, |name|;
    assert m[at..at + 4] == " on " && m[..at] == name && m[at + 4..] == unit;
    assert '\n' in m <==> '\n' in name || '\n' in unit;
    assert OnAt(m, at) <==> name != "" && unit != "";
    if unit != "" {
      forall k: nat | k < at
        ensures OnAt(m, k) <==> 0 < k && OnBegins(name, k)
      {
        OnInside(name, unit, k);
      }
      if OnAt(m, at) && forall k | 0 <= k < at :: !OnAt(m, k) {
        FirstOnIs(m, 0, at);
      }
    }
  }

  lemma NewPmSpelled(m: string, suffix: string)
    requires suffix == " ***:" || suffix == " ***"
    ensures Recognise(NEW_PM + m + suffix) == NewPmGroups(m)
  {
    var t := NEW_PM + m + suffix;
    InsideOf(NEW_PM, m, suffix);
    assert t[0] == NEW_PM[0] && t[|t| - 1] == suffix[|suffix| - 1];
    WrongPrefix(t, LEGACY_HASH, ") ***:", 0);
    WrongPrefix(t, LEGACY_HASH, ") ***", 0);
    WrongPrefix(t, LEGACY, ") ***:", 0);
    WrongPrefix(t, LEGACY, ") ***", 0);
    if suffix == " ***" {
      WrongSuffix(t, NEW_PM, " ***:");
    }
  }

  // ---------------------------------------------------------------------------
  // Classified lines
  // ---------------------------------------------------------------------------

  datatype Line = Header(title: string, passName: string, passId: string) | Content(text: string)

  /** What the state machine makes of a raw line. */
  function Classify(raw: string): Line {
    var line := RStripNewline(raw);
    match Recognise(Strip(line))
    case Some((name, id)) => Header(Strip(line), Strip(name), Strip(id))
    case None => Content(RStrip(line))
  }

  function ClassifyAll(lines: seq<string>): seq<Line> {
    seq(|lines|, i requires 0 <= i < |lines| => Classify(lines[i]))
  }

  function TextOf(line: Line): string {
    if line.Header? then line.title else line.text
  }

  /** Reading a kept line again gives the same line. */
  lemma ClassifyStable(raw: string)
    ensures Classify(TextOf(Classify(raw))) == Classify(raw)
  {
    StripStable(RStripNewline(raw));
  }

  /** A name with no space at either end, as extract_stages keeps it. */
  predicate Trimmed(s: string) {
    Strip(s) == s
  }

  lemma HeaderClassified(raw: string)
    ensures Classify(raw) ==
      match Recognise(Strip(raw))
      case Some((name, id)) => Header(Strip(raw), Strip(name), Strip(id))
      case None => Content(RStrip(raw))
  {
    NewlineThenRStrip(raw);
  }

  /** Stripping cannot make what was found look like the name unless it is the name: a
      space follows it on the line, while two places past the name there is none. */
  lemma NameByStripped(m: string, found: string, name: string)
    requires found <= m && name <= m && |found| < |m| && |name| + 1 < |m|
    requires IsSpace(m[|found|]) && !IsSpace(m[|name| + 1])
    requires Strip(found) == name
    ensures found == name
  {
    StripShrinks(found);
    if |found| > |name| {
      assert name <= found && found[|name| + 1] == m[|name| + 1];
      StripTooLong(found, name);
    }
  }

  /** What Classify makes of two groups. */
  predicate GivesTrimmed(groups: Option<(string, string)>, name: string, id: string) {
    groups.Some? && Strip(groups.value.0) == name && Strip(groups.value.1) == id
  }

  /** Two groups that were found in m, gap characters apart, the first before a space. */
  predicate FoundIn(m: string, groups: (string, string), gap: nat) {
    && groups.0 <= m && |groups.0| + gap < |m| && IsSpace(m[|groups.0|])
    && groups.1 == m[|groups.0| + gap..]
  }

  /** Two names that stand in m, gap characters apart, the second of these no space. */
  predicate StandsIn(m: string, name: string, rest: string, gap: nat) {
    && name <= m && 2 <= gap && |name| + gap <= |m| && !IsSpace(m[|name| + 1])
    && rest == m[|name| + gap..]
  }

  lemma FoundIsGiven(m: string, groups: (string, string), name: string, rest: string, gap: nat)
    requires FoundIn(m, groups, gap) && StandsIn(m, name, rest, gap) && Strip(groups.0) == name
    ensures groups == (name, rest)
  {
    NameByStripped(m, groups.0, name);
  }

  lemma LegacyFound(m: string)
    requires LegacyGroups(m).Some?
    ensures FoundIn(m, LegacyGroups(m).value, 2)
  {
    assert m[LastOpen(m, |m|).value] == ' ';
  }

  lemma LegacyStands(name: string, id: string)
    ensures StandsIn(name + " (" + id, name, id, 2)
  {
    assert (name + " (" + id)[|name| + 1] == '(';
  }

  lemma LegacyTrimmed(m: string, name: string, id: string)
    requires m == name + " (" + id && GivesTrimmed(LegacyGroups(m), name, id)
    ensures LegacyGroups(m) == Some((name, id))
  {
    LegacyFound(m);
    LegacyStands(name, id);
    FoundIsGiven(m, LegacyGroups(m).value, name, id, 2);
  }

  lemma NewPmFound(m: string)
    requires NewPmGroups(m).Some?
    ensures FoundIn(m, NewPmGroups(m).value, 4)
  {
    var i := FirstOn(m, 0).value;
    assert m[i..i + 4][0] == ' ';
  }

  lemma NewPmStands(name: string, unit: string)
    ensures StandsIn(name + " on " + unit, name, unit, 4)
  {
    assert (name + " on " + unit)[|name| + 1] == 'o';
  }

  lemma NewPmTrimmed(m: string, name: string, unit: string)
    requires m == name + " on " + unit && GivesTrimmed(NewPmGroups(m), name, unit)
    ensures NewPmGroups(m) == Some((name, unit))
  {
    NewPmFound(m);
    NewPmStands(name, unit);
    FoundIsGiven(m, NewPmGroups(m).value, name, unit, 4);
  }

  /** A raw line that is a legacy header, whatever spaces stand around it, makes the header
      of a stage with these names exactly when they are trimmed names it gives back. */
  lemma LegacyHeaderRoundTrip(raw: string, prefix: string, name: string, id: string, suffix: string)
    requires LegacySpelling(prefix, suffix) && Strip(raw) == prefix + (name + " (" + id) + suffix
    ensures LegacyNames(name, id) ==> Classify(raw) == Header(Strip(raw), Strip(name), Strip(id))
    ensures Classify(raw) == Header(Strip(raw), name, id)
            <==> LegacyNames(name, id) && Trimmed(name) && Trimmed(id)
  {
    HeaderClassified(raw);
    LegacySpelled(prefix, name + " (" + id, suffix);
    LegacyGroupsExactly(name, id);
    if GivesTrimmed(LegacyGroups(name + " (" + id), name, id) {
      LegacyTrimmed(name + " (" + id, name, id);
    }
  }

  /** The same for the header of the new pass manager. */
  lemma NewPmHeaderRoundTrip(raw: string, name: string, unit: string, suffix: string)
    requires (suffix == " ***:" || suffix == " ***") && Strip(raw) == NEW_PM + (name + " on " + unit) + suffix
    ensures NewPmNames(name, unit) ==> Classify(raw) == Header(Strip(raw), Strip(name), Strip(unit))
    ensures Classify(raw) == Header(Strip(raw), name, unit)
            <==> NewPmNames(name, unit) && Trimmed(name) && Trimmed(unit)
  {
    HeaderClassified(raw);
    NewPmSpelled(name + " on " + unit, suffix);
    NewPmGroupsExactly(name, unit);
    if GivesTrimmed(NewPmGroups(name + " on " + unit), name, unit) {
      NewPmTrimmed(name + " on " + unit, name, unit);
    }
  }

  // ---------------------------------------------------------------------------
  // Which lines are headers
  // ---------------------------------------------------------------------------

  /** t spells a legacy header of these two names, in one of its four ways. */
  predicate SpellsLegacy(t: string, name: string, id: string) {
    || t == "*** IR Dump After " + (name + " (" + id) + ") ***:"
    || t == "*** IR Dump After " + (name + " (" + id) + ") ***"
    || t == "# *** IR Dump After " + (name + " (" + id) + ") ***:"
    || t == "# *** IR Dump After " + (name + " (" + id) + ") ***"
  }

  predicate SpellsNewPm(t: string, name: string, unit: string) {
    || t == "; *** IR Dump After " + (name + " on " + unit) + " ***:"
    || t == "; *** IR Dump After " + (name + " on " + unit) + " ***"
  }

  ghost predicate IsHeaderText(t: string) {
    || (exists name, id :: SpellsLegacy(t, name, id) && LegacyNames(name, id))
    || exists name, unit :: SpellsNewPm(t, name, unit) && NewPmNames(name, unit)
  }

  lemma InsideExact(t: string, prefix: string, suffix: string)
    requires Inside(t, prefix, suffix).Some?
    ensures t == prefix + Inside(t, prefix, suffix).value + suffix
  {
  }

  lemma LegacySplit(m: string)
    requires LegacyGroups(m).Some?
    ensures
      var (name, id) := LegacyGroups(m).value;
      m == name + " (" + id && LegacyNames(name, id)
  {
    var i := LastOpen(m, |m|).value;
    assert m == m[..i] + " (" + m[i + 2..];
    LegacyGroupsExactly(m[..i], m[i + 2..]);
  }

  lemma NewPmSplit(m: string)
    requires NewPmGroups(m).Some?
    ensures
      var (name, unit) := NewPmGroups(m).value;
      m == name + " on " + unit && NewPmNames(name, unit)
  {
    var i := FirstOn(m, 0).value;
    assert m == m[..i] + m[i..i + 4] + m[i + 4..];
    NewPmGroupsExactly(m[..i], m[i + 4..]);
  }

  lemma LegacyRecognised(t: string, prefix: string, suffix: string)
    requires LegacySpelling(prefix, suffix) && Inside(t, prefix, suffix).Some?
    requires LegacyGroups(Inside(t, prefix, suffix).value).Some?
    ensures IsHeaderText(t)
  {
    var m := Inside(t, prefix, suffix).value;
    InsideExact(t, prefix, suffix);
    LegacySplit(m);
    var (name, id) := LegacyGroups(m).value;
    assert SpellsLegacy(t, name, id);
  }

  lemma NewPmRecognised(t: string, suffix: string)
    requires suffix == " ***:" || suffix == " ***"
    requires Inside(t, NEW_PM, suffix).Some? && NewPmGroups(Inside(t, NEW_PM, suffix).value).Some?
    ensures IsHeaderText(t)
  {
    var m := Inside(t, NEW_PM, suffix).value;
    InsideExact(t, NEW_PM, suffix);
    NewPmSplit(m);
    var (name, unit) := NewPmGroups(m).value;
    assert SpellsNewPm(t, name, unit);
  }

  /** What is recognised is spelt like a header. */
  lemma RecognisedIsHeader(t: string)
    requires Recognise(t).Some?
    ensures IsHeaderText(t)
  {
    if Inside(t, LEGACY_HASH, ") ***:").Some? && LegacyGroups(Inside(t, LEGACY_HASH, ") ***:").value).Some? {
      LegacyRecognised(t, LEGACY_HASH, ") ***:");
    } else if Inside(t, LEGACY_HASH, ") ***").Some? && LegacyGroups(Inside(t, LEGACY_HASH, ") ***").value).Some? {
      LegacyRecognised(t, LEGACY_HASH, ") ***");
    } else if Inside(t, LEGACY, ") ***:").Some? && LegacyGroups(Inside(t, LEGACY, ") ***:").value).Some? {
      LegacyRecognised(t, LEGACY, ") ***:");
    } else if Inside(t, LEGACY, ") ***").Some? && LegacyGroups(Inside(t, LEGACY, ") ***").value).Some? {
      LegacyRecognised(t, LEGACY, ") ***");
    } else if Inside(t, NEW_PM, " ***:").Some? {
      NewPmRecognised(t, " ***:");
    } else {
      NewPmRecognised(t, " ***");
    }
  }

  lemma HeaderIsRecognised(t: string)
    requires IsHeaderText(t)
    ensures Recognise(t).Some?
  {
    if name, id :| SpellsLegacy(t, name, id) && LegacyNames(name, id) {
      var m := name + " (" + id;
      LegacyGroupsExactly(name, id);
      LegacySpelled("*** IR Dump After ", m, ") ***:");
      LegacySpelled("*** IR Dump After ", m, ") ***");
      LegacySpelled("# *** IR Dump After ", m, ") ***:");
      LegacySpelled("# *** IR Dump After ", m, ") ***");
    } else {
      var name, unit :| SpellsNewPm(t, name, unit) && NewPmNames(name, unit);
      NewPmGroupsExactly(name, unit);
      NewPmSpelled(name + " on " + unit, " ***:");
      NewPmSpelled(name + " on " + unit, " ***");
    }
  }

  /** Which lines are headers, exactly: those that spell, between spaces, a legacy header or
      one of the new pass manager whose names can be told; every other line is content,
      kept without the spaces at its end. */
  lemma HeaderExactly(raw: string)
    ensures Classify(raw).Header? <==> IsHeaderText(Strip(raw))
    ensures Classify(raw).Header? ==> Classify(raw).title == Strip(raw)
    ensures !Classify(raw).Header? ==> Classify(raw) == Content(RStrip(raw))
  {
    HeaderClassified(raw);
    if Recognise(Strip(raw)).Some? {
      RecognisedIsHeader(Strip(raw));
    }
    if IsHeaderText(Strip(raw)) {
      HeaderIsRecognised(Strip(raw));
    }
  }

  // ---------------------------------------------------------------------------
  // The state machine
  // ---------------------------------------------------------------------------

  datatype Stage = Stage(header: string, passName: string, passId: string, content: seq<string>)

  /** The lines cut at the headers, read from the back: what comes before the first
      header, and the stages. */
  function Cut(lines: seq<Line>): (seq<string>, seq<Stage>) {
    if lines == [] then ([], [])
    else
      var (content, stages) := Cut(lines[1..]);
      match lines[0]
      case Header(title, name, id) => ([], [Stage(title, name, id, content)] + stages)
      case Content(text) => ([text] + content, stages)
  }

  function Extract(lines: seq<string>): seq<Stage> {
    Cut(ClassifyAll(lines)).1
  }

  /** The state of the loop: the finished stages and the one in progress. */
  function Close(done: seq<Stage>, open: Option<Stage>, more: (seq<string>, seq<Stage>)): seq<Stage> {
    if open.None? then done + more.1
    else done + [open.value.(content := open.value.content + more.0)] + more.1
  }

  /** One turn of the loop moves the first line of the rest into the state. */
  lemma CloseStep(done: seq<Stage>, open: Option<Stage>, lines: seq<Line>)
    requires lines != []
    ensures
      var more := Cut(lines[1..]);
      match lines[0]
      case Header(title, name, id) =>
        Close(done, open, Cut(lines)) ==
        Close(if open.Some? then done + [open.value] else done, Some(Stage(title, name, id, [])), more)
      case Content(text) =>
        Close(done, open, Cut(lines)) ==
        Close(done, if open.Some? then Some(open.value.(content := open.value.content + [text])) else None, more)
  {
    var more := Cut(lines[1..]);
    if lines[0].Header? {
      var next := Stage(lines[0].title, lines[0].passName, lines[0].passId, more.0);
      assert [] + more.0 == more.0;
      if open.Some? {
        assert open.value.content + [] == open.value.content;
        Assoc(done + [open.value], [next], more.1);
      } else {
        Assoc(done, [next], more.1);
      }
    } else if open.Some? {
      Assoc(open.value.content, [lines[0].text], more.0);
    }
  }

  /** extract_stages: the loop with its current header, names and content. */
  method ExtractStages(lines: seq<string>) returns (stages: seq<Stage>)
    ensures stages == Extract(lines)
  {
    stages := [];
    var header: Option<string> := None;
    var passName, passId := "", "";
    var content: seq<string> := [];
    ghost var all := ClassifyAll(lines);
    ghost var open: Option<Stage> := None;
    assert all[0..] == all;
    for k := 0 to |lines|
      invariant open == if header.None? then None else Some(Stage(header.value, passName, passId, content))
      invariant Extract(lines) == Close(stages, open, Cut(all[k..]))
    {
      assert all[k..][1..] == all[k + 1..] && all[k..][0] == Classify(lines[k]);
      CloseStep(stages, open, all[k..]);
      var line := RStripNewline(lines[k]);
      var m := Recognise(Strip(line));
      if m.Some? {
        if header.Some? {
          stages := stages + [Stage(header.value, passName, passId, content)];
        }
        header := Some(Strip(line));
        passName, passId := Strip(m.value.0), Strip(m.value.1);
        content := [];
        open := Some(Stage(header.value, passName, passId, content));
      } else if header.Some? {
        content := content + [RStrip(line)];
        open := Some(Stage(header.value, passName, passId, content));
      }
    }
    if header.Some? {
      assert content + [] == content;
      assert stages + [open.value] + [] == stages + [open.value];
      stages := stages + [Stage(header.value, passName, passId, content)];
    } else {
      assert stages + [] == stages;
    }
  }

  // ---------------------------------------------------------------------------
  // What extraction means
  // ---------------------------------------------------------------------------

  function Contents(texts: seq<string>): seq<Line> {
    seq(|texts|, i requires 0 <= i < |texts| => Content(texts[i]))
  }

  /** The lines of the stages again, header first. */
  function Flatten(stages: seq<Stage>): seq<Line> {
    if stages == [] then []
    else
      var s := stages[0];
      [Header(s.header, s.passName, s.passId)] + Contents(s.content) + Flatten(stages[1..])
  }

  function FirstHeader(lines: seq<Line>): (n: nat)
    ensures n <= |lines|
    ensures n < |lines| ==> lines[n].Header?
    ensures forall i | 0 <= i < n :: lines[i].Content?
  {
    if lines == [] || lines[0].Header? then 0 else 1 + FirstHeader(lines[1..])
  }

  function HeaderCount(lines: seq<Line>): nat {
    if lines == [] then 0 else (if lines[0].Header? then 1 else 0) + HeaderCount(lines[1..])
  }

  lemma {:induction false} CutCovers(lines: seq<Line>)
    ensures Contents(Cut(lines).0) + Flatten(Cut(lines).1) == lines
  {
    if lines != [] {
      var rest := lines[1..];
      var (content, stages) := Cut(rest);
      CutCovers(rest);
      assert lines == [lines[0]] + rest;
      if lines[0].Header? {
        assert Cut(lines).1[1..] == stages;
        Assoc([lines[0]], Contents(content), Flatten(stages));
      } else {
        assert Contents([lines[0].text] + content) == [lines[0]] + Contents(content);
        Assoc([lines[0]], Contents(content), Flatten(stages));
      }
    }
  }

  lemma {:induction false} CutCounts(lines: seq<Line>)
    ensures |Cut(lines).0| == FirstHeader(lines)
    ensures |Cut(lines).1| == HeaderCount(lines)
  {
    if lines != [] {
      CutCounts(lines[1..]);
    }
  }

  /** Extraction partitions: the lines before the first header are dropped, and from
      there on the lines of the stages in order are exactly the lines of the dump,
      each once; there is one stage for each header line. */
  lemma CutPartitions(lines: seq<Line>)
    ensures Contents(Cut(lines).0) == lines[..FirstHeader(lines)]
    ensures Flatten(Cut(lines).1) == lines[FirstHeader(lines)..]
    ensures |Cut(lines).1| == HeaderCount(lines)
  {
    CutCovers(lines);
    CutCounts(lines);
    var before, after := Contents(Cut(lines).0), Flatten(Cut(lines).1);
    assert (before + after)[..|before|] == before && (before + after)[|before|..] == after;
  }

  /** The same for a dump: the lines from the first header on are exactly the lines
      of the stages, and there are as many stages as header lines. */
  lemma ExtractPartitions(lines: seq<string>)
    ensures
      var all := ClassifyAll(lines);
      && Flatten(Extract(lines)) == all[FirstHeader(all)..]
      && |Extract(lines)| == HeaderCount(all)
  {
    CutPartitions(ClassifyAll(lines));
  }

  lemma {:induction false} CutContent(texts: seq<string>, rest: seq<Line>)
    ensures Cut(Contents(texts) + rest) == (texts + Cut(rest).0, Cut(rest).1)
  {
    if texts == [] {
      assert Contents(texts) + rest == rest;
      assert texts + Cut(rest).0 == Cut(rest).0;
    } else {
      var lines := Contents(texts) + rest;
      assert lines[0] == Content(texts[0]);
      assert lines[1..] == Contents(texts[1..]) + rest;
      CutContent(texts[1..], rest);
      assert texts == [texts[0]] + texts[1..];
      Assoc([texts[0]], texts[1..], Cut(rest).0);
    }
  }

  /** Stages are determined by their lines: cutting inverts flattening. */
  lemma {:induction false} CutFlatten(stages: seq<Stage>)
    ensures Cut(Flatten(stages)) == ([], stages)
  {
    if stages != [] {
      var s, rest := stages[0], stages[1..];
      CutFlatten(rest);
      CutContent(s.content, Flatten(rest));
      var lines := Flatten(stages);
      assert lines[0] == Header(s.header, s.passName, s.passId);
      assert lines[1..] == Contents(s.content) + Flatten(rest);
      assert s.content + [] == s.content;
      assert stages == [s] + rest;
    }
  }

  function TextsOf(lines: seq<Line>): seq<string> {
    seq(|lines|, i requires 0 <= i < |lines| => TextOf(lines[i]))
  }

  predicate Stable(line: Line) {
    Classify(TextOf(line)) == line
  }

  lemma ClassifiedAt(lines: seq<string>, i: nat)
    requires i < |lines|
    ensures Stable(ClassifyAll(lines)[i])
  {
    ClassifyStable(lines[i]);
  }

  lemma StableTexts(lines: seq<Line>, from: nat)
    requires from <= |lines| && forall i | 0 <= i < |lines| :: Stable(lines[i])
    ensures ClassifyAll(TextsOf(lines[from..])) == lines[from..]
  {
    var kept := lines[from..];
    forall i | 0 <= i < |kept|
      ensures ClassifyAll(TextsOf(kept))[i] == kept[i]
    {
      assert Stable(lines[from + i]);
    }
  }

  /** Extracting again from the lines of the extracted stages gives the same stages. */
  lemma ExtractIdempotent(lines: seq<string>)
    ensures Extract(TextsOf(Flatten(Extract(lines)))) == Extract(lines)
  {
    forall i | 0 <= i < |lines|
      ensures Stable(ClassifyAll(lines)[i])
    {
      ClassifiedAt(lines, i);
    }
    StableTexts(ClassifyAll(lines), FirstHeader(ClassifyAll(lines)));
    ExtractPartitions(lines);
    CutFlatten(Extract(lines));
  }
}
