/** The ELF core file: make_core of coredump/make_sppe_core_simics.py, and an
    independent reader that follows the program headers (System V ABI, chapter 5
    "Program Header"). */
module CoreFile {
  import opened Words
  import opened PibMemory
  import opened CoreNotes

  const PT_LOAD: u32 := 1
  const PT_NOTE: u32 := 4
  const EHDR_SIZE: nat := 52
  const PHDR_SIZE: nat := 32
  const NOTE_OFFSET: nat := EHDR_SIZE + 2 * PHDR_SIZE

  // ---------------------------------------------------------------------------
  // The writer's layout
  // ---------------------------------------------------------------------------

  const IDENT: seq<byte> := [0x7f, 0x45, 0x4c, 0x46, 1, 2, 1, 3, 0, 0, 0, 0, 0, 0, 0, 0]

  function FileHeader(pc: u32): (s: seq<byte>)
    ensures |s| == EHDR_SIZE
  {
    IDENT + PackHalves([4, 20]) + PackWords([1, pc, 52, 0, 0]) + PackHalves([52, 32, 2, 0, 0, 0])
  }

  function ProgramHeader(kind: u32, offset: u32, vaddr: u32, size: u32, flags: u32, align: u32): (s: seq<byte>)
    ensures |s| == PHDR_SIZE
  {
    PackWords([kind, offset, vaddr, 0, size, size, flags, align])
  }

  /** Every size and offset of the headers fits its 32-bit field. */
  predicate Addressable(notes: seq<byte>, memory: seq<byte>) {
    NOTE_OFFSET + |notes| < TWO32 && |memory| < TWO32
  }

  function CoreBytes(pc: u32, notes: seq<byte>, memory: seq<byte>): seq<byte>
    requires Addressable(notes, memory)
  {
    FileHeader(pc) + ProgramHeader(PT_NOTE, NOTE_OFFSET, 0, |notes|, 0, 4)
    + ProgramHeader(PT_LOAD, NOTE_OFFSET + |notes|, MEM_START, |memory|, 7, 1)
    + notes + memory
  }

  // ---------------------------------------------------------------------------
  // The reader
  // ---------------------------------------------------------------------------

  datatype Segment = Segment(kind: u32, offset: u32, vaddr: u32, contents: seq<byte>)

  /** The program header at a place, with the file bytes it describes. */
  function ReadSegment(file: seq<byte>, at: nat): Option<Segment> {
    if at + 32 > |file| then None
    else
      var offset, size := Read32(file, at + 4), Read32(file, at + 16);
      if offset + size > |file| then None
      else Some(Segment(Read32(file, at), offset, Read32(file, at + 8), file[offset..offset + size]))
  }

  function ReadSegments(file: seq<byte>, at: nat, entrySize: nat, count: nat): Option<seq<Segment>>
    decreases count
  {
    if count == 0 then Some([])
    else
      match ReadSegment(file, at)
      case None => None
      case Some(s) =>
        match ReadSegments(file, at + entrySize, entrySize, count - 1)
        case None => None
        case Some(rest) => Some([s] + rest)
  }

  datatype ElfCore = ElfCore(pc: u32, segments: seq<Segment>)

  /** A 32-bit big-endian PowerPC core: e_phoff, e_phentsize and e_phnum lead to
      the segments. */
  function ReadElf(file: seq<byte>): Option<ElfCore> {
    if |file| < 52 || file[..7] != [0x7f, 0x45, 0x4c, 0x46, 1, 2, 1]
       || Read16(file, 16) != 4 || Read16(file, 18) != 20 then None
    else
      match ReadSegments(file, Read32(file, 28), Read16(file, 42), Read16(file, 44))
      case None => None
      case Some(segments) => Some(ElfCore(Read32(file, 24), segments))
  }

  function ThreadOfNote(n: Note): seq<Thread> {
    if n.kind == 1 && |n.desc| == 248 then [ReadThread(n.desc)] else []
  }

  /** The threads of a note list: its NT_PRSTATUS notes (type 1), in order. */
  function ThreadsOf(notes: seq<Note>): seq<Thread> {
    if notes == [] then [] else ThreadOfNote(notes[0]) + ThreadsOf(notes[1..])
  }

  /** The pairs of an auxiliary vector from a place on end in a null pair, and nothing
      follows it. */
  predicate AuxEnds(desc: seq<byte>, at: nat)
    decreases |desc| - at
  {
    && at + 8 <= |desc|
    && if Read32(desc, at) == 0 then Read32(desc, at + 4) == 0 && at + 8 == |desc| else AuxEnds(desc, at + 8)
  }

  /** The AT_ENTRY value (9) of a terminated auxiliary vector. */
  function AuxEntry(desc: seq<byte>, at: nat): Option<u32>
    decreases |desc| - at
  {
    if at + 8 > |desc| || Read32(desc, at) == 0 then None
    else if Read32(desc, at) == 9 && AuxEnds(desc, at + 8) then Some(Read32(desc, at + 4))
    else AuxEntry(desc, at + 8)
  }

  /** It stands in the NT_AUXV note (type 6). */
  function EntryOf(notes: seq<Note>): Option<u32> {
    if notes == [] then None
    else if notes[0].kind == 6 && AuxEntry(notes[0].desc, 0).Some? then AuxEntry(notes[0].desc, 0)
    else EntryOf(notes[1..])
  }

  /** What a debugger finds in the file, in a PT_NOTE (4) and a PT_LOAD (1) segment. */
  datatype CoreView = CoreView(pc: u32, threads: seq<Thread>, entry: Option<u32>, kinds: seq<u32>, memory: Segment)

  /** The types of all notes, in order. */
  function KindsOf(notes: seq<Note>): (kinds: seq<u32>)
    ensures |kinds| == |notes|
  {
    seq(|notes|, i requires 0 <= i < |notes| => notes[i].kind)
  }

  function ReadCore(file: seq<byte>): Option<CoreView> {
    match ReadElf(file)
    case None => None
    case Some(elf) =>
      if |elf.segments| != 2 || elf.segments[0].kind != 4 || elf.segments[1].kind != 1 then None
      else
        match ParseNotes(elf.segments[0].contents)
        case None => None
        case Some(notes) => Some(CoreView(elf.pc, ThreadsOf(notes), EntryOf(notes), KindsOf(notes), elf.segments[1]))
  }

  /** The byte a debugger reads at an address. */
  function ByteAt(view: CoreView, address: int): Option<byte> {
    if view.memory.vaddr <= address < view.memory.vaddr + |view.memory.contents|
    then Some(view.memory.contents[address - view.memory.vaddr])
    else None
  }

  // ---------------------------------------------------------------------------
  // The fields of the headers
  // ---------------------------------------------------------------------------

  predicate HoldsWords(file: seq<byte>, at: nat, ws: seq<u32>) {
    at + 4 * |ws| <= |file| && forall i | 0 <= i < |ws| :: Read32(file, at + 4 * i) == ws[i]
  }

  predicate HoldsHalves(file: seq<byte>, at: nat, hs: seq<u16>) {
    at + 2 * |hs| <= |file| && forall i | 0 <= i < |hs| :: Read16(file, at + 2 * i) == hs[i]
  }

  lemma WordsHeld(pre: seq<byte>, ws: seq<u32>, post: seq<byte>)
    ensures HoldsWords(pre + PackWords(ws) + post, |pre|, ws)
  {
    forall i | 0 <= i < |ws|
      ensures Read32(pre + PackWords(ws) + post, |pre| + 4 * i) == ws[i]
    {
      WordInGroup(pre, ws, post, i);
    }
  }

  lemma HalvesHeld(pre: seq<byte>, hs: seq<u16>, post: seq<byte>)
    ensures HoldsHalves(pre + PackHalves(hs) + post, |pre|, hs)
  {
    forall i | 0 <= i < |hs|
      ensures Read16(pre + PackHalves(hs) + post, |pre| + 2 * i) == hs[i]
    {
      HalfInGroup(pre, hs, post, i);
    }
  }

  lemma FileHeaderHeld(pc: u32, rest: seq<byte>)
    ensures
      var file := FileHeader(pc) + rest;
      && file[..16] == [0x7f, 0x45, 0x4c, 0x46, 1, 2, 1, 3, 0, 0, 0, 0, 0, 0, 0, 0]
      && HoldsHalves(file, 16, [4, 20]) && HoldsWords(file, 20, [1, pc, 52, 0, 0])
      && HoldsHalves(file, 40, [52, 32, 2, 0, 0, 0])
  {
    var kinds, body, sizes := PackHalves([4, 20]), PackWords([1, pc, 52, 0, 0]), PackHalves([52, 32, 2, 0, 0, 0]);
    var file := FileHeader(pc) + rest;
    assert file == IDENT + kinds + (body + sizes + rest);
    HalvesHeld(IDENT, [4, 20], body + sizes + rest);
    assert file == (IDENT + kinds) + body + (sizes + rest);
    WordsHeld(IDENT + kinds, [1, pc, 52, 0, 0], sizes + rest);
    assert file == (IDENT + kinds + body) + sizes + rest;
    HalvesHeld(IDENT + kinds + body, [52, 32, 2, 0, 0, 0], rest);
    assert file[..16] == IDENT;
  }

  // ---------------------------------------------------------------------------
  // Reading back what was written
  // ---------------------------------------------------------------------------

  lemma HeaderWord(pre: seq<byte>, ws: seq<u32>, post: seq<byte>, i: nat, at: nat)
    requires |ws| == 8 && i < 8 && at == |pre| + 4 * i
    ensures Read32(pre + PackWords(ws) + post, at) == ws[i]
  {
    WordInGroup(pre, ws, post, i);
  }

  lemma SegmentAt(file: seq<byte>, at: nat, kind: u32, offset: u32, vaddr: u32, size: u32)
    requires at + PHDR_SIZE <= |file| && offset + size <= |file|
    requires Read32(file, at) == kind && Read32(file, at + 4) == offset
    requires Read32(file, at + 8) == vaddr && Read32(file, at + 16) == size
    ensures ReadSegment(file, at) == Some(Segment(kind, offset, vaddr, file[offset..offset + size]))
  {
  }

  /** One packed program header, wherever it lies. */
  lemma SegmentRoundTrip(pre: seq<byte>, kind: u32, offset: u32, vaddr: u32, size: u32, flags: u32, align: u32,
                         post: seq<byte>)
    ensures
      var file := pre + ProgramHeader(kind, offset, vaddr, size, flags, align) + post;
      offset + size <= |file| ==>
        ReadSegment(file, |pre|) == Some(Segment(kind, offset, vaddr, file[offset..offset + size]))
  {
    var ws := [kind, offset, vaddr, 0, size, size, flags, align];
    HeaderWord(pre, ws, post, 0, |pre|);
    HeaderWord(pre, ws, post, 1, |pre| + 4);
    HeaderWord(pre, ws, post, 2, |pre| + 8);
    HeaderWord(pre, ws, post, 4, |pre| + 16);
    var file := pre + PackWords(ws) + post;
    if offset + size <= |file| {
      SegmentAt(file, |pre|, kind, offset, vaddr, size);
    }
  }

  lemma CoreSlices(pc: u32, notes: seq<byte>, memory: seq<byte>)
    requires Addressable(notes, memory)
    ensures
      var file := CoreBytes(pc, notes, memory);
      && |file| == NOTE_OFFSET + |notes| + |memory|
      && file[NOTE_OFFSET..NOTE_OFFSET + |notes|] == notes
      && file[NOTE_OFFSET + |notes|..NOTE_OFFSET + |notes| + |memory|] == memory
  {
  }

  lemma Regroup(a: seq<byte>, b: seq<byte>, c: seq<byte>, d: seq<byte>, e: seq<byte>)
    ensures a + b + c + d + e == a + b + (c + d + e)
    ensures a + b + c + d + e == a + (b + c + d + e)
  {
  }

  lemma NoteSegmentRead(pc: u32, notes: seq<byte>, memory: seq<byte>)
    requires Addressable(notes, memory)
    ensures ReadSegment(CoreBytes(pc, notes, memory), 52) == Some(Segment(PT_NOTE, NOTE_OFFSET, 0, notes))
  {
    var rest := ProgramHeader(PT_LOAD, NOTE_OFFSET + |notes|, MEM_START, |memory|, 7, 1) + notes + memory;
    Regroup(FileHeader(pc), ProgramHeader(PT_NOTE, NOTE_OFFSET, 0, |notes|, 0, 4),
            ProgramHeader(PT_LOAD, NOTE_OFFSET + |notes|, MEM_START, |memory|, 7, 1), notes, memory);
    CoreSlices(pc, notes, memory);
    SegmentRoundTrip(FileHeader(pc), PT_NOTE, NOTE_OFFSET, 0, |notes|, 0, 4, rest);
  }

  lemma LoadSegmentRead(pc: u32, notes: seq<byte>, memory: seq<byte>)
    requires Addressable(notes, memory)
    ensures ReadSegment(CoreBytes(pc, notes, memory), 84)
         == Some(Segment(PT_LOAD, NOTE_OFFSET + |notes|, MEM_START, memory))
  {
    var pre := FileHeader(pc) + ProgramHeader(PT_NOTE, NOTE_OFFSET, 0, |notes|, 0, 4);
    Assoc(pre + ProgramHeader(PT_LOAD, NOTE_OFFSET + |notes|, MEM_START, |memory|, 7, 1), notes, memory);
    CoreSlices(pc, notes, memory);
    SegmentRoundTrip(pre, PT_LOAD, NOTE_OFFSET + |notes|, MEM_START, |memory|, 7, 1, notes + memory);
  }

  /** Every field of the three headers, as the tool writes it: the identification with the
      GNU/Linux ABI, version 1 and no section headers; the notes at 116, aligned to 4;
      the memory behind them at 0xFFF80000, readable, writable and executable. */
  lemma HeadersExact(pc: u32, notes: seq<byte>, memory: seq<byte>)
    requires Addressable(notes, memory)
    ensures
      var file := CoreBytes(pc, notes, memory);
      && |file| == 116 + |notes| + |memory|
      && file[..16] == [0x7f, 0x45, 0x4c, 0x46, 1, 2, 1, 3, 0, 0, 0, 0, 0, 0, 0, 0]
      && HoldsHalves(file, 16, [4, 20]) && HoldsWords(file, 20, [1, pc, 52, 0, 0])
      && HoldsHalves(file, 40, [52, 32, 2, 0, 0, 0])
      && HoldsWords(file, 52, [4, 116, 0, 0, |notes|, |notes|, 0, 4])
      && HoldsWords(file, 84, [1, 116 + |notes|, 0xFFF8_0000, 0, |memory|, |memory|, 7, 1])
  {
    var head, note := FileHeader(pc), ProgramHeader(PT_NOTE, NOTE_OFFSET, 0, |notes|, 0, 4);
    var load := ProgramHeader(PT_LOAD, NOTE_OFFSET + |notes|, MEM_START, |memory|, 7, 1);
    CoreSlices(pc, notes, memory);
    Regroup(head, note, load, notes, memory);
    FileHeaderHeld(pc, note + load + notes + memory);
    WordsHeld(head, [4, 116, 0, 0, |notes|, |notes|, 0, 4], load + notes + memory);
    Assoc(head + note + load, notes, memory);
    WordsHeld(head + note, [1, 116 + |notes|, 0xFFF8_0000, 0, |memory|, |memory|, 7, 1], notes + memory);
  }

  lemma ReadHalf(file: seq<byte>, at: nat, hs: seq<u16>, i: nat)
    requires HoldsHalves(file, at, hs) && i < |hs|
    ensures at + 2 * i + 2 <= |file| && Read16(file, at + 2 * i) == hs[i]
  {
  }

  lemma ReadWord(file: seq<byte>, at: nat, ws: seq<u32>, i: nat)
    requires HoldsWords(file, at, ws) && i < |ws|
    ensures at + 4 * i + 4 <= |file| && Read32(file, at + 4 * i) == ws[i]
  {
  }

  /** What the reader looks at in the file header. */
  predicate IsCoreHeader(file: seq<byte>, pc: u32) {
    && |file| >= 52 && file[..7] == [0x7f, 0x45, 0x4c, 0x46, 1, 2, 1]
    && Read16(file, 16) == 4 && Read16(file, 18) == 20
    && Read32(file, 24) == pc && Read32(file, 28) == 52 && Read16(file, 42) == 32 && Read16(file, 44) == 2
  }

  lemma KindFound(file: seq<byte>)
    requires HoldsHalves(file, 16, [4, 20])
    ensures |file| >= 20 && Read16(file, 16) == 4 && Read16(file, 18) == 20
  {
    ReadHalf(file, 16, [4, 20], 0);
    ReadHalf(file, 16, [4, 20], 1);
  }

  lemma PlacesFound(file: seq<byte>, pc: u32)
    requires HoldsWords(file, 20, [1, pc, 52, 0, 0])
    ensures |file| >= 40 && Read32(file, 24) == pc && Read32(file, 28) == 52
  {
    ReadWord(file, 20, [1, pc, 52, 0, 0], 1);
    ReadWord(file, 20, [1, pc, 52, 0, 0], 2);
  }

  lemma SizesFound(file: seq<byte>)
    requires HoldsHalves(file, 40, [52, 32, 2, 0, 0, 0])
    ensures |file| >= 52 && Read16(file, 42) == 32 && Read16(file, 44) == 2
  {
    ReadHalf(file, 40, [52, 32, 2, 0, 0, 0], 1);
    ReadHalf(file, 40, [52, 32, 2, 0, 0, 0], 2);
  }

  lemma IdentFound(file: seq<byte>)
    requires |file| >= 16 && file[..16] == [0x7f, 0x45, 0x4c, 0x46, 1, 2, 1, 3, 0, 0, 0, 0, 0, 0, 0, 0]
    ensures file[..7] == [0x7f, 0x45, 0x4c, 0x46, 1, 2, 1]
  {
    assert file[..16][..7] == file[..7];
  }

  lemma ElfFound(pc: u32, notes: seq<byte>, memory: seq<byte>)
    requires Addressable(notes, memory)
    ensures IsCoreHeader(CoreBytes(pc, notes, memory), pc)
  {
    HeadersExact(pc, notes, memory);
    KindFound(CoreBytes(pc, notes, memory));
    PlacesFound(CoreBytes(pc, notes, memory), pc);
    SizesFound(CoreBytes(pc, notes, memory));
    IdentFound(CoreBytes(pc, notes, memory));
  }

  lemma TwoSegments(file: seq<byte>, at: nat, entrySize: nat, count: nat)
    requires count == 2
    requires ReadSegment(file, at).Some? && ReadSegment(file, at + entrySize).Some?
    ensures ReadSegments(file, at, entrySize, count) ==
      Some([ReadSegment(file, at).value, ReadSegment(file, at + entrySize).value])
  {
    var first, second := ReadSegment(file, at).value, ReadSegment(file, at + entrySize).value;
    assert ReadSegments(file, at + entrySize + entrySize, entrySize, count - 2) == Some([]);
    assert [second] + [] == [second] && [first] + [second] == [first, second];
    assert ReadSegments(file, at + entrySize, entrySize, count - 1) == Some([second]);
  }

  /** Layout: headers, notes and memory tile the file, and following the headers
      finds each of them again. */
  lemma LayoutRoundTrip(pc: u32, notes: seq<byte>, memory: seq<byte>)
    requires Addressable(notes, memory)
    ensures |CoreBytes(pc, notes, memory)| == NOTE_OFFSET + |notes| + |memory|
    ensures ReadElf(CoreBytes(pc, notes, memory)) ==
      Some(ElfCore(pc, [Segment(PT_NOTE, NOTE_OFFSET, 0, notes),
                        Segment(PT_LOAD, NOTE_OFFSET + |notes|, MEM_START, memory)]))
  {
    ElfFound(pc, notes, memory);
    CoreSlices(pc, notes, memory);
    NoteSegmentRead(pc, notes, memory);
    LoadSegmentRead(pc, notes, memory);
    TwoSegments(CoreBytes(pc, notes, memory), 52, 32, 2);
  }

  /** What the whole reader finds, from what its parts find. */
  lemma CoreFound(file: seq<byte>, elf: ElfCore, notes: seq<Note>)
    requires ReadElf(file) == Some(elf) && |elf.segments| == 2
    requires elf.segments[0].kind == 4 && elf.segments[1].kind == 1
    requires ParseNotes(elf.segments[0].contents) == Some(notes)
    ensures ReadCore(file) == Some(CoreView(elf.pc, ThreadsOf(notes), EntryOf(notes), KindsOf(notes), elf.segments[1]))
  {
  }

  lemma NotesFound(pc: u32, stream: seq<byte>, notes: seq<Note>, memory: seq<byte>)
    requires Addressable(stream, memory) && ParseNotes(stream) == Some(notes)
    ensures ReadCore(CoreBytes(pc, stream, memory)) ==
      Some(CoreView(pc, ThreadsOf(notes), EntryOf(notes), KindsOf(notes),
                    Segment(PT_LOAD, NOTE_OFFSET + |stream|, MEM_START, memory)))
  {
    var note := Segment(PT_NOTE, NOTE_OFFSET, 0, stream);
    var load := Segment(PT_LOAD, NOTE_OFFSET + |stream|, MEM_START, memory);
    LayoutRoundTrip(pc, stream, memory);
    CoreFound(CoreBytes(pc, stream, memory), ElfCore(pc, [note, load]), notes);
  }
}
