/** The shared output buffer as a log. A call stores its text, cut to the room
    left, at the current offset, and the offset moves to the next aligned slot or
    back to 0. An independent reader decodes the buffer again. */
module PrintfLog {
  import opened Words
  import opened PrintfText

  /** OUTPUT_BUF_SIZE and DWORD_ALIGN */
  const SIZE: nat := 0x4000
  const ALIGN: nat := 8

  type Image = m: string | |m| == SIZE witness seq(SIZE, _ => NUL)

  datatype LogState = LogState(memory: Image, offset: nat)

  predicate ValidOffset(offset: nat) {
    offset % ALIGN == 0 && offset < SIZE
  }

  /** What a call leaves in its slot: as much of the text as fits, then NUL. */
  function Stored(text: string, room: nat): (s: string)
    requires room > 0
    ensures |s| == if |text| < room then |text| + 1 else room
  {
    text[..if |text| < room - 1 then |text| else room - 1] + [NUL]
  }

  function NextOffset(offset: nat, length: nat): (next: nat)
    requires ValidOffset(offset)
    ensures ValidOffset(next)
  {
    var room := SIZE - offset;
    var end := RoundUp8(offset + if length < room then length + 1 else room);
    if end >= SIZE then 0 else end
  }

  function Splice(memory: Image, at: nat, s: string): Image
    requires at + |s| <= SIZE
  {
    memory[..at] + s + memory[at + |s|..]
  }

  function Call(state: LogState, text: string): LogState
    requires ValidOffset(state.offset)
  {
    LogState(Splice(state.memory, state.offset, Stored(text, SIZE - state.offset)),
             NextOffset(state.offset, |text|))
  }

  /** The offset after a history of calls starting from the reset value 0. */
  function OffsetAfter(history: seq<string>): (offset: nat)
    ensures ValidOffset(offset)
  {
    if history == [] then 0
    else NextOffset(OffsetAfter(history[..|history| - 1]), |history[|history| - 1]|)
  }

  /** The whole state after a history of calls on a buffer with any first content. */
  function After(initial: Image, history: seq<string>): (state: LogState)
    ensures state.offset == OffsetAfter(history)
  {
    if history == [] then LogState(initial, 0)
    else Call(After(initial, history[..|history| - 1]), history[|history| - 1])
  }

  lemma AfterSnoc(initial: Image, history: seq<string>, text: string)
    ensures After(initial, history + [text]) == Call(After(initial, history), text)
  {
    assert (history + [text])[..|history|] == history;
  }

  /** What one call does to the 16 KiB buffer, byte by byte: the text from the offset on,
      cut so that a terminator fits, then the terminator; every other byte stays. */
  lemma CallExactly(state: LogState, text: string, p: nat)
    requires ValidOffset(state.offset) && p < 0x4000
    ensures
      var at, room := state.offset, 0x4000 - state.offset;
      var k := if |text| < room then |text| else room - 1;
      Call(state, text).memory[p] ==
        if at <= p < at + k then text[p - at] else if p == at + k then '\0' else state.memory[p]
  {
  }

  // ---------------------------------------------------------------------------
  // Laps and slots
  // ---------------------------------------------------------------------------

  /** Message i of a history was written at this offset. */
  function SlotOf(history: seq<string>, i: nat): nat
    requires i <= |history|
  {
    OffsetAfter(history[..i])
  }

  /** How many messages were printed up to the last return of the offset to 0. */
  function LapStart(history: seq<string>): (n: nat)
    ensures n <= |history|
  {
    if history == [] then 0
    else if OffsetAfter(history) == 0 then |history|
    else LapStart(history[..|history| - 1])
  }

  /** The start of the lap before the current one. */
  function PreviousStart(history: seq<string>): (n: nat)
    ensures n <= LapStart(history)
  {
    if history == [] then 0
    else if OffsetAfter(history) == 0 then LapStart(history[..|history| - 1])
    else PreviousStart(history[..|history| - 1])
  }

  /** The messages printed since the last wrap. */
  function CurrentLap(history: seq<string>): seq<string> {
    history[LapStart(history)..]
  }

  lemma PrefixOfInit(history: seq<string>, i: nat)
    requires 0 < |history| && i < |history|
    ensures history[..|history| - 1][..i] == history[..i]
    ensures SlotOf(history[..|history| - 1], i) == SlotOf(history, i)
  {
    assert history[..|history| - 1][..i] == history[..i];
  }

  /** LapStart means what its name says: the offset was 0 there, and has not been
      0 again since. */
  lemma {:induction false} LapStartIsLastWrap(history: seq<string>)
    ensures SlotOf(history, LapStart(history)) == 0
    ensures forall i | LapStart(history) < i <= |history| :: SlotOf(history, i) != 0
  {
    if history != [] {
      var init := history[..|history| - 1];
      assert history[..|history|] == history;
      if OffsetAfter(history) != 0 {
        LapStartIsLastWrap(init);
        PrefixOfInit(history, LapStart(init));
        forall i | LapStart(history) < i <= |history|
          ensures SlotOf(history, i) != 0
        {
          if i < |history| {
            PrefixOfInit(history, i);
          }
        }
      }
    }
  }

  /** PreviousStart means what its name says: the offset was 0 there too, and nowhere
      between there and the last wrap; only before the first wrap do the two coincide. */
  lemma {:induction false} PreviousStartIsWrapBefore(history: seq<string>)
    ensures SlotOf(history, PreviousStart(history)) == 0
    ensures forall i | PreviousStart(history) < i < LapStart(history) :: SlotOf(history, i) != 0
    ensures PreviousStart(history) == LapStart(history) ==> LapStart(history) == 0
    decreases |history|
  {
    if history != [] {
      var init := history[..|history| - 1];
      PreviousStartIsWrapBefore(init);
      LapStartIsLastWrap(init);
      var from := PreviousStart(history);
      PrefixOfInit(history, from);
      forall i | from < i < LapStart(history)
        ensures SlotOf(history, i) != 0
      {
        PrefixOfInit(history, i);
      }
    }
  }

  /** The offset goes to the first multiple of 8 behind the slot. It returns to 0 exactly when the slot reaches into the last eight
      bytes of the buffer; a text that does not fit always does that. */
  lemma WrapExactly(offset: nat, length: nat)
    requires ValidOffset(offset)
    ensures NextOffset(offset, length) == 0 <==> offset + length + 1 > 0x4000 - 8
    ensures length >= 0x4000 - offset ==> NextOffset(offset, length) == 0
    ensures NextOffset(offset, length) != 0 ==>
      offset + length + 1 <= NextOffset(offset, length) < offset + length + 9 && NextOffset(offset, length) % 8 == 0
  {
  }

  /** In the current lap nothing is truncated, and each slot, rounded up to the
      alignment, ends exactly where the next one starts: from 0 the slots tile
      the buffer up to the current offset. */
  lemma {:induction false} CurrentLapTiles(history: seq<string>, i: nat)
    requires LapStart(history) <= i < |history|
    ensures SlotOf(history, i) + |history[i]| + 1 <= SIZE
    ensures SlotOf(history, i + 1) == RoundUp8(SlotOf(history, i) + |history[i]| + 1)
    ensures SlotOf(history, i) < SlotOf(history, i + 1) <= OffsetAfter(history)
    decreases |history|
  {
    var init := history[..|history| - 1];
    if i < |init| {
      CurrentLapTiles(init, i);
      PrefixOfInit(history, i);
      PrefixOfInit(history, i + 1);
      if OffsetAfter(history) != 0 {
        assert OffsetAfter(init) <= OffsetAfter(history);
      }
    } else {
      assert history[..i] == init;
      assert history[..i + 1] == history;
    }
  }

  lemma LapSlotEnds(history: seq<string>, i: nat)
    requires LapStart(history) <= i < |history|
    ensures SlotOf(history, i) + |Stored(history[i], SIZE - SlotOf(history, i))| <= OffsetAfter(history)
  {
    CurrentLapTiles(history, i);
  }

  lemma AdvanceCovers(offset: nat, text: string)
    requires ValidOffset(offset) && NextOffset(offset, |text|) != 0
    ensures offset < offset + |Stored(text, SIZE - offset)| <= NextOffset(offset, |text|)
  {
  }

  /** Message i still lies in the buffer, terminated, as it was stored. */
  predicate Intact(memory: Image, history: seq<string>, i: nat)
    requires i < |history|
  {
    var at := SlotOf(history, i);
    var s := Stored(history[i], SIZE - at);
    memory[at..at + |s|] == s
  }

  lemma SpliceElsewhere(memory: Image, at: nat, s: string, lo: nat, hi: nat)
    requires at + |s| <= SIZE && lo <= hi <= SIZE
    requires hi <= at || at + |s| <= lo
    ensures Splice(memory, at, s)[lo..hi] == memory[lo..hi]
  {
  }

  lemma SpliceHere(memory: Image, at: nat, s: string)
    requires at + |s| <= SIZE
    ensures Splice(memory, at, s)[at..at + |s|] == s
  {
  }

  lemma IntactStep(before: LogState, history: seq<string>, i: nat)
    requires i + 1 < |history| && before.offset == OffsetAfter(history[..|history| - 1])
    requires Intact(before.memory, history, i)
    requires
      var at, lo := before.offset, SlotOf(history, i);
      || lo + |Stored(history[i], SIZE - lo)| <= at
      || at + |Stored(history[|history| - 1], SIZE - at)| <= lo
    ensures Intact(Call(before, history[|history| - 1]).memory, history, i)
  {
    var lo := SlotOf(history, i);
    SpliceElsewhere(before.memory, before.offset, Stored(history[|history| - 1], SIZE - before.offset),
                    lo, lo + |Stored(history[i], SIZE - lo)|);
  }

  /** The last call of a history writes past the end of every current slot and
      short of every surviving slot of the previous lap. */
  lemma SlotDisjoint(history: seq<string>, i: nat)
    requires PreviousStart(history) <= i < |history| - 1
    requires i >= LapStart(history) || SlotOf(history, i) >= OffsetAfter(history)
    ensures
      var init := history[..|history| - 1];
      var at, lo := OffsetAfter(init), SlotOf(init, i);
      && PreviousStart(init) <= i && (i >= LapStart(init) || lo >= at)
      && SlotOf(history, i) == lo
      && (lo + |Stored(history[i], SIZE - lo)| <= at || at + |Stored(history[|history| - 1], SIZE - at)| <= lo)
  {
    var init := history[..|history| - 1];
    PrefixOfInit(history, i);
    if i >= LapStart(init) {
      LapSlotEnds(init, i);
    } else {
      AdvanceCovers(OffsetAfter(init), history[|history| - 1]);
    }
  }

  lemma LastIntact(before: LogState, history: seq<string>)
    requires history != [] && before.offset == OffsetAfter(history[..|history| - 1])
    ensures Intact(Call(before, history[|history| - 1]).memory, history, |history| - 1)
  {
    SpliceHere(before.memory, before.offset, Stored(history[|history| - 1], SIZE - before.offset));
  }

  lemma IntactLonger(memory: Image, history: seq<string>, i: nat)
    requires i + 1 < |history| && Intact(memory, history[..|history| - 1], i)
    ensures Intact(memory, history, i)
  {
    PrefixOfInit(history, i);
  }

  lemma IntactAfterLast(initial: Image, history: seq<string>, i: nat)
    requires PreviousStart(history) <= i < |history| - 1
    requires i >= LapStart(history) || SlotOf(history, i) >= OffsetAfter(history)
    requires Intact(After(initial, history[..|history| - 1]).memory, history[..|history| - 1], i)
    ensures Intact(After(initial, history).memory, history, i)
  {
    SlotUntouched(history, i);
    AfterLast(initial, history);
    var before := After(initial, history[..|history| - 1]);
    IntactLonger(before.memory, history, i);
    IntactStep(before, history, i);
  }

  lemma AfterLast(initial: Image, history: seq<string>)
    requires history != []
    ensures
      var before := After(initial, history[..|history| - 1]);
      && before.offset == OffsetAfter(history[..|history| - 1])
      && After(initial, history) == Call(before, history[|history| - 1])
  {
  }

  /** SlotDisjoint, in the places of the longer history. */
  lemma SlotUntouched(history: seq<string>, i: nat)
    requires PreviousStart(history) <= i < |history| - 1
    requires i >= LapStart(history) || SlotOf(history, i) >= OffsetAfter(history)
    ensures
      var at, lo := OffsetAfter(history[..|history| - 1]), SlotOf(history, i);
      || lo + |Stored(history[i], SIZE - lo)| <= at
      || at + |Stored(history[|history| - 1], SIZE - at)| <= lo
  {
    SlotDisjoint(history, i);
  }

  /** Wrap safety: in every reachable state each slot of the current lap, and each
      slot of the previous lap that starts at or after the offset, holds the bytes
      its call stored. */
  lemma {:induction false} WrapSafety(initial: Image, history: seq<string>, i: nat)
    requires PreviousStart(history) <= i < |history|
    requires i >= LapStart(history) || SlotOf(history, i) >= OffsetAfter(history)
    ensures Intact(After(initial, history).memory, history, i)
    decreases |history|
  {
    var init := history[..|history| - 1];
    if i == |init| {
      LastIntact(After(initial, init), history);
    } else {
      SlotDisjoint(history, i);
      WrapSafety(initial, init, i);
      IntactAfterLast(initial, history, i);
    }
  }

  // ---------------------------------------------------------------------------
  // The reader
  // ---------------------------------------------------------------------------

  /** Index of the first NUL at or after pos, or the end of the memory. */
  function FindNul(memory: string, pos: nat): (end: nat)
    requires pos <= |memory|
    ensures pos <= end <= |memory|
    ensures forall j | pos <= j < end :: memory[j] != NUL
    ensures end < |memory| ==> memory[end] == NUL
    decreases |memory| - pos
  {
    if pos == |memory| || memory[pos] == NUL then pos else FindNul(memory, pos + 1)
  }

  /** Read NUL-terminated strings from aligned slots until stop. */
  function ReadLog(memory: string, pos: nat, stop: nat): seq<string>
    decreases stop - pos
  {
    if pos >= stop || pos >= |memory| then []
    else
      var end := FindNul(memory, pos);
      [memory[pos..end]] + ReadLog(memory, RoundUp8(end + 1), stop)
  }

  lemma {:induction false} ReadsNoNul(memory: string, pos: nat, stop: nat)
    ensures forall m | m in ReadLog(memory, pos, stop) :: NUL !in m
    decreases stop - pos
  {
    if pos < stop && pos < |memory| {
      ReadsNoNul(memory, RoundUp8(FindNul(memory, pos) + 1), stop);
    }
  }

  lemma ReadStored(memory: Image, at: nat, text: string)
    requires at + |text| + 1 <= SIZE
    requires memory[at..at + |text| + 1] == text + [NUL]
    requires NUL !in text
    ensures FindNul(memory, at) == at + |text|
    ensures memory[at..at + |text|] == text
  {
    var here := memory[at..at + |text| + 1];
    forall j | 0 <= j < |text|
      ensures memory[at + j] == text[j] != NUL
    {
      assert here[j] == text[j] && text[j] in text;
    }
    assert here[|text|] == NUL;
  }

  /** A buffer holds the texts one after the other, terminated, in slots that begin
      at the given places, each at the first aligned place after the one before. */
  predicate Tiles(memory: Image, texts: seq<string>, starts: seq<nat>) {
    && |starts| == |texts| + 1
    && forall k | 0 <= k < |texts| :: HoldsAt(memory, texts[k], starts[k], starts[k + 1])
  }

  predicate HoldsAt(memory: Image, text: string, at: nat, next: nat) {
    && at + |text| + 1 <= SIZE
    && memory[at..at + |text| + 1] == text + [NUL]
    && next == RoundUp8(at + |text| + 1)
  }

  lemma TilesAscend(memory: Image, texts: seq<string>, starts: seq<nat>)
    requires Tiles(memory, texts, starts) && texts != []
    ensures starts[0] < starts[|texts|]
    ensures Tiles(memory, texts[1..], starts[1..])
  {
    assert HoldsAt(memory, texts[0], starts[0], starts[1]);
    forall k | 0 <= k < |texts| - 1
      ensures HoldsAt(memory, texts[1..][k], starts[1..][k], starts[1..][k + 1])
    {
      assert HoldsAt(memory, texts[k + 1], starts[k + 1], starts[k + 2]);
    }
    if |texts| > 1 {
      TilesAscend(memory, texts[1..], starts[1..]);
    }
  }

  lemma ReadHeld(memory: Image, text: string, at: nat, next: nat, stop: nat)
    requires HoldsAt(memory, text, at, next) && NUL !in text && at < stop
    ensures ReadLog(memory, at, stop) == [text] + ReadLog(memory, next, stop)
  {
    ReadStored(memory, at, text);
  }

  lemma {:induction false} ReadTiles(memory: Image, texts: seq<string>, starts: seq<nat>)
    requires Tiles(memory, texts, starts)
    requires forall k | 0 <= k < |texts| :: NUL !in texts[k]
    ensures ReadLog(memory, starts[0], starts[|texts|]) == texts
    decreases |texts|
  {
    if texts != [] {
      TilesAscend(memory, texts, starts);
      var rest, places := texts[1..], starts[1..];
      ReadTiles(memory, rest, places);
      assert HoldsAt(memory, texts[0], starts[0], starts[1]);
      ReadHeld(memory, texts[0], starts[0], starts[1], starts[|texts|]);
      assert places[|rest|] == starts[|texts|] && places[0] == starts[1];
      assert texts == [texts[0]] + rest;
    }
  }

  function LapStarts(history: seq<string>): seq<nat> {
    var from := LapStart(history);
    seq<nat>(|history| - from + 1, k requires 0 <= k <= |history| - from => SlotOf(history, from + k))
  }

  lemma LapSlotHeld(initial: Image, history: seq<string>, i: nat)
    requires LapStart(history) <= i < |history|
    ensures HoldsAt(After(initial, history).memory, history[i], SlotOf(history, i), SlotOf(history, i + 1))
  {
    CurrentLapTiles(history, i);
    WrapSafety(initial, history, i);
    IntactInFull(After(initial, history).memory, history, i);
  }

  lemma IntactInFull(memory: Image, history: seq<string>, i: nat)
    requires i < |history| && Intact(memory, history, i)
    requires SlotOf(history, i) + |history[i]| + 1 <= SIZE
    ensures
      var at := SlotOf(history, i);
      memory[at..at + |history[i]| + 1] == history[i] + [NUL]
  {
    assert history[i][..|history[i]|] == history[i];
  }

  /** The slots of the current lap are disjoint and tile [0, offset). */
  lemma CurrentLapHeld(initial: Image, history: seq<string>)
    ensures Tiles(After(initial, history).memory, CurrentLap(history), LapStarts(history))
    ensures LapStarts(history)[0] == 0
    ensures LapStarts(history)[|CurrentLap(history)|] == OffsetAfter(history)
  {
    forall k | 0 <= k < |CurrentLap(history)|
      ensures HoldsAt(After(initial, history).memory, CurrentLap(history)[k], LapStarts(history)[k], LapStarts(history)[k + 1])
    {
      LapSlotHeld(initial, history, LapStart(history) + k);
    }
    LapEnds(history);
  }

  lemma LapEnds(history: seq<string>)
    ensures LapStarts(history)[0] == 0 && LapStarts(history)[|CurrentLap(history)|] == OffsetAfter(history)
  {
    assert history[..|history|] == history;
    LapStartIsLastWrap(history);
  }

  /** Log round trip over whole runs: whatever the buffer held at reset and
      whatever was printed, the reader that starts at 0 and stops at the offset
      returns the messages printed since the last wrap, complete and in order,
      exactly when none of them contains a NUL. */
  lemma LogRoundTrip(initial: Image, history: seq<string>)
    ensures
      var state := After(initial, history);
      ReadLog(state.memory, 0, state.offset) == CurrentLap(history)
      <==> forall m | m in CurrentLap(history) :: NUL !in m
  {
    CurrentLapHeld(initial, history);
    ReadsNoNul(After(initial, history).memory, 0, OffsetAfter(history));
    if forall m | m in CurrentLap(history) :: NUL !in m {
      ReadTiles(After(initial, history).memory, CurrentLap(history), LapStarts(history));
    }
  }

  // ---------------------------------------------------------------------------
  // Messages with NULs
  // ---------------------------------------------------------------------------

  /** What the reader makes of one message by itself: the pieces between its NULs that
      begin on an aligned place. */
  function Pieces(text: string): seq<string> {
    ReadLog(text + [NUL], 0, |text| + 1)
  }

  function AllPieces(texts: seq<string>): seq<string> {
    if texts == [] then [] else Pieces(texts[0]) + AllPieces(texts[1..])
  }

  lemma ReadStep(memory: string, pos: nat, stop: nat)
    requires pos < stop && pos < |memory|
    ensures
      var end := FindNul(memory, pos);
      ReadLog(memory, pos, stop) == [memory[pos..end]] + ReadLog(memory, RoundUp8(end + 1), stop)
  {
  }

  /** The first NUL of a message, or its end. */
  lemma FirstNul(text: string)
    ensures
      var cut := FindNul(text + [NUL], 0);
      && cut <= |text| && (text + [NUL])[..cut] == text[..cut] && NUL !in text[..cut]
      && (cut < |text| ==> text[cut] == NUL)
      && (cut == |text| <==> NUL !in text)
  {
    var whole := text + [NUL];
    var cut := FindNul(whole, 0);
    assert whole[|text|] == NUL;
    assert forall j | 0 <= j < |text| :: whole[j] == text[j];
    if cut == |text| {
      assert text[..cut] == text;
    } else {
      assert text[cut] in text;
    }
  }

  /** A message reads back as itself exactly when it holds no NUL; the first piece is
      always the text up to its first NUL. */
  lemma NulHidesText(text: string)
    ensures
      var cut := FindNul(text + [NUL], 0);
      && cut <= |text| && NUL !in text[..cut] && (cut < |text| ==> text[cut] == NUL)
      && Pieces(text) != [] && Pieces(text)[0] == text[..cut]
    ensures Pieces(text) == [text] <==> NUL !in text
  {
    FirstNul(text);
    ReadsNoNul(text + [NUL], 0, |text| + 1);
    ReadStep(text + [NUL], 0, |text| + 1);
    var cut := FindNul(text + [NUL], 0);
    if cut == |text| {
      assert text[..cut] == text;
      assert ReadLog(text + [NUL], RoundUp8(cut + 1), |text| + 1) == [];
    } else {
      assert |Pieces(text)[0]| < |text|;
    }
  }

  lemma {:induction false} FindNulWithin(memory: Image, text: string, at: nat, pos: nat)
    requires at + |text| + 1 <= SIZE && memory[at..at + |text| + 1] == text + [NUL]
    requires pos <= |text|
    ensures FindNul(memory, at + pos) == at + FindNul(text + [NUL], pos)
    ensures FindNul(text + [NUL], pos) <= |text|
    decreases |text| - pos
  {
    assert memory[at..at + |text| + 1][pos] == memory[at + pos];
    if pos < |text| && text[pos] != NUL {
      FindNulWithin(memory, text, at, pos + 1);
    }
  }

  /** The place after a string that ends inside a message: inside the message again,
      or the next message's slot. */
  lemma PlaceAfter(at: nat, length: nat, end: nat, next: nat)
    requires at % 8 == 0 && end <= length && next == RoundUp8(at + length + 1)
    ensures RoundUp8(at + end + 1) == at + RoundUp8(end + 1)
    ensures end < RoundUp8(end + 1) && at + length < next
    ensures length < RoundUp8(end + 1) ==> at + RoundUp8(end + 1) == next
  {
    RoundUpShift(at, end + 1);
    RoundUpShift(at, length + 1);
    if length < RoundUp8(end + 1) {
      RoundUpLeast(end, length + 1);
    }
  }

  lemma RoundUpShift(at: nat, n: nat)
    requires at % 8 == 0
    ensures RoundUp8(at + n) == at + RoundUp8(n)
  {
  }

  lemma RoundUpLeast(e: nat, n: nat)
    requires e < n <= RoundUp8(e + 1)
    ensures RoundUp8(e + 1) == RoundUp8(n)
  {
  }

  /** Where the piece at pos ends, the next one begins. */
  function NextPlace(text: string, pos: nat): nat
    requires pos <= |text|
  {
    RoundUp8(FindNul(text + [NUL], pos) + 1)
  }

  function Piece(text: string, pos: nat): string
    requires pos <= |text|
  {
    text[pos..FindEnd(text, pos)]
  }

  function FindEnd(text: string, pos: nat): (end: nat)
    requires pos <= |text|
    ensures pos <= end <= |text|
  {
    assert (text + [NUL])[|text|] == NUL;
    FindNul(text + [NUL], pos)
  }

  predicate StepsTo(memory: string, from: nat, piece: string, next: nat, stop: nat) {
    ReadLog(memory, from, stop) == [piece] + ReadLog(memory, next, stop)
  }

  lemma StepFrom(memory: string, from: nat, stop: nat, end: nat, piece: string, to: nat)
    requires from < stop && from < |memory| && end == FindNul(memory, from)
    requires memory[from..end] == piece && to == RoundUp8(end + 1)
    ensures StepsTo(memory, from, piece, to, stop)
  {
    ReadStep(memory, from, stop);
  }

  /** One string read from inside a held message. */
  lemma StepWithin(memory: Image, text: string, at: nat, stop: nat, pos: nat, to: nat)
    requires at + |text| + 1 <= SIZE && memory[at..at + |text| + 1] == text + [NUL]
    requires pos <= |text| && at + |text| < stop
    requires to == RoundUp8(at + FindEnd(text, pos) + 1)
    ensures StepsTo(memory, at + pos, Piece(text, pos), to, stop)
  {
    FindNulWithin(memory, text, at, pos);
    PieceWithin(memory, text, at, pos, FindEnd(text, pos));
    StepFrom(memory, at + pos, stop, at + FindEnd(text, pos), Piece(text, pos), to);
  }

  /** The place after it: inside the message again, or the next message's slot. */
  lemma NextPlaceHeld(memory: Image, text: string, at: nat, next: nat, stop: nat, pos: nat)
    requires HoldsAt(memory, text, at, next) && at % 8 == 0 && next <= stop && pos <= |text|
    ensures at + |text| < stop && NextPlace(text, pos) > pos
    ensures NextPlace(text, pos) > |text| ==> at + NextPlace(text, pos) == next
    ensures StepsTo(memory, at + pos, Piece(text, pos), at + NextPlace(text, pos), stop)
  {
    PlaceAfter(at, |text|, FindEnd(text, pos), next);
    StepWithin(memory, text, at, stop, pos, at + NextPlace(text, pos));
  }

  lemma StepAlone(text: string, pos: nat)
    requires pos <= |text|
    ensures StepsTo(text + [NUL], pos, Piece(text, pos), NextPlace(text, pos), |text| + 1)
  {
    ReadStep(text + [NUL], pos, |text| + 1);
    assert (text + [NUL])[pos..FindEnd(text, pos)] == text[pos..FindEnd(text, pos)];
  }

  lemma NothingPast(text: string, pos: nat, rest: seq<string>)
    requires |text| < pos
    ensures ReadLog(text + [NUL], pos, |text| + 1) + rest == rest
  {
  }

  lemma PieceFirst(piece: string, whole: seq<string>, later: seq<string>,
                   alone: seq<string>, more: seq<string>, rest: seq<string>)
    requires whole == [piece] + later && alone == [piece] + more && later == more + rest
    ensures whole == alone + rest
  {
  }

  lemma StepBoth(memory: string, at: nat, text: string, pos: nat, stop: nat, rest: seq<string>)
    requires pos <= |text| && var after := NextPlace(text, pos);
      && StepsTo(memory, at + pos, Piece(text, pos), at + after, stop)
      && ReadLog(memory, at + after, stop) == ReadLog(text + [NUL], after, |text| + 1) + rest
    ensures ReadLog(memory, at + pos, stop) == ReadLog(text + [NUL], pos, |text| + 1) + rest
  {
    var alone, after, n := text + [NUL], NextPlace(text, pos), |text| + 1;
    StepAlone(text, pos);
    PieceFirst(Piece(text, pos), ReadLog(memory, at + pos, stop), ReadLog(memory, at + after, stop),
               ReadLog(alone, pos, n), ReadLog(alone, after, n), rest);
  }

  /** What NextPlaceHeld says of one place. */
  predicate Follows(memory: string, text: string, at: nat, next: nat, stop: nat, pos: nat)
    requires pos <= |text|
  {
    && NextPlace(text, pos) > pos
    && (NextPlace(text, pos) > |text| ==> at + NextPlace(text, pos) == next)
    && StepsTo(memory, at + pos, Piece(text, pos), at + NextPlace(text, pos), stop)
  }

  /** A message's pieces one after the other, from an aligned place in its slot on. */
  lemma {:induction false} ReadWithin(memory: string, text: string, at: nat, next: nat, stop: nat, pos: nat)
    requires pos <= |text| && forall p | 0 <= p <= |text| :: Follows(memory, text, at, next, stop, p)
    ensures ReadLog(memory, at + pos, stop) == ReadLog(text + [NUL], pos, |text| + 1) + ReadLog(memory, next, stop)
    decreases |text| - pos
  {
    assert Follows(memory, text, at, next, stop, pos);
    var rest := ReadLog(memory, next, stop);
    if NextPlace(text, pos) <= |text| {
      ReadWithin(memory, text, at, next, stop, NextPlace(text, pos));
    } else {
      NothingPast(text, NextPlace(text, pos), rest);
    }
    StepBoth(memory, at, text, pos, stop, rest);
  }

  lemma ReadPieces(memory: Image, text: string, at: nat, next: nat, stop: nat)
    requires HoldsAt(memory, text, at, next) && at % 8 == 0 && next <= stop
    ensures ReadLog(memory, at, stop) == Pieces(text) + ReadLog(memory, next, stop)
  {
    forall p | 0 <= p <= |text|
      ensures Follows(memory, text, at, next, stop, p)
    {
      NextPlaceHeld(memory, text, at, next, stop, p);
    }
    ReadWithin(memory, text, at, next, stop, 0);
  }

  lemma PieceWithin(memory: Image, text: string, at: nat, pos: nat, end: nat)
    requires at + |text| + 1 <= SIZE && memory[at..at + |text| + 1] == text + [NUL]
    requires pos <= end <= |text|
    ensures memory[at + pos..at + end] == text[pos..end] == (text + [NUL])[pos..end]
  {
    SliceOfSlice(memory, at, at + |text| + 1, pos, end);
  }

  lemma {:induction false} ReadTilePieces(memory: Image, texts: seq<string>, starts: seq<nat>)
    requires Tiles(memory, texts, starts) && starts[0] % 8 == 0
    ensures ReadLog(memory, starts[0], starts[|texts|]) == AllPieces(texts)
    decreases |texts|
  {
    if texts != [] {
      TilesAscend(memory, texts, starts);
      var rest, places := texts[1..], starts[1..];
      assert HoldsAt(memory, texts[0], starts[0], starts[1]);
      assert places[|rest|] == starts[|texts|] && places[0] == starts[1];
      TilesOrdered(memory, rest, places);
      ReadTilePieces(memory, rest, places);
      ReadPieces(memory, texts[0], starts[0], starts[1], starts[|texts|]);
    }
  }

  lemma TilesOrdered(memory: Image, texts: seq<string>, starts: seq<nat>)
    requires Tiles(memory, texts, starts)
    ensures starts[0] <= starts[|texts|]
  {
    if texts != [] {
      TilesAscend(memory, texts, starts);
    }
  }

  /** What the reader returns in every reachable state, NULs or not: the pieces of the
      messages since the last wrap, message by message; a NUL inside one never
      disturbs the others. */
  lemma LogReadsPieces(initial: Image, history: seq<string>)
    ensures
      var state := After(initial, history);
      ReadLog(state.memory, 0, state.offset) == AllPieces(CurrentLap(history))
  {
    CurrentLapHeld(initial, history);
    ReadTilePieces(After(initial, history).memory, CurrentLap(history), LapStarts(history));
  }
}
