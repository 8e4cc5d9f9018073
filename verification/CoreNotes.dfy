/** The note stream of the core file: make_note and thread_note of
    coredump/make_sppe_core_simics.py, and an independent parser of note segments
    laid out as chapter 5 "Note Section" of the System V ABI says. */
module CoreNotes {
  import opened Words
  import opened PibMemory

  /** "CORE" and its terminator. */
  const CORE_NAME: seq<byte> := [67, 79, 82, 69, 0]

  const NT_PRSTATUS: u32 := 1
  const NT_AUXV: u32 := 6
  const AT_ENTRY: u32 := 9

  function Pad4(s: seq<byte>): seq<byte> {
    s + Zeros(RoundUp4(|s|) - |s|)
  }

  /** make_note */
  function MakeNote(kind: u32, data: seq<byte>): seq<byte>
    requires |data| < TWO32
  {
    PackWords([|CORE_NAME|, |data|, kind]) + Pad4(CORE_NAME) + Pad4(data)
  }

  /** What make_note is given. */
  datatype RawItem = Item(kind: u32, data: seq<byte>)
  type Item = n: RawItem | |n.data| < TWO32 witness Item(0, [])

  datatype Note = Note(name: seq<byte>, kind: u32, desc: seq<byte>)

  /** The reader: name size, descriptor size and type, then both fields padded to
      four bytes. None when a note is cut short. */
  function ParseNotes(s: seq<byte>): Option<seq<Note>>
    decreases |s|
  {
    if s == [] then Some([])
    else if |s| < 12 then None
    else
      var nameSize, descSize, kind := Read32(s, 0), Read32(s, 4), Read32(s, 8);
      var descAt := 12 + RoundUp4(nameSize);
      var end := descAt + RoundUp4(descSize);
      if |s| < end then None
      else
        match ParseNotes(s[end..])
        case None => None
        case Some(rest) => Some([Note(s[12..12 + nameSize], kind, s[descAt..descAt + descSize])] + rest)
  }

  /** The notes of a list, one after the other. */
  function NoteStream(items: seq<Item>): seq<byte>
  {
    if items == [] then []
    else
      var last := items[|items| - 1];
      NoteStream(items[..|items| - 1]) + MakeNote(last.kind, last.data)
  }

  /** The same list as a reader names it: the owner is "CORE" with its terminator. */
  function NotesOf(items: seq<Item>): seq<Note> {
    seq(|items|, i requires 0 <= i < |items| => Note([0x43, 0x4f, 0x52, 0x45, 0], items[i].kind, items[i].data))
  }

  lemma NoteSize(kind: u32, data: seq<byte>)
    requires |data| < TWO32
    ensures |MakeNote(kind, data)| == 20 + RoundUp4(|data|)
    ensures |MakeNote(kind, data)| % 4 == 0
  {
    assert |Pad4(CORE_NAME)| == 8;
  }

  lemma NoteHeaderFields(kind: u32, data: seq<byte>, rest: seq<byte>)
    requires |data| < TWO32
    ensures |MakeNote(kind, data) + rest| >= 12
    ensures
      var s := MakeNote(kind, data) + rest;
      Read32(s, 0) == 5 && Read32(s, 4) == |data| && Read32(s, 8) == kind
  {
    var sizes, tail := [|CORE_NAME|, |data|, kind], Pad4(CORE_NAME) + Pad4(data) + rest;
    assert MakeNote(kind, data) + rest == PackWords(sizes) + tail;
    WordAtFront(sizes, tail, 0);
    WordAtFront(sizes, tail, 1);
    WordAtFront(sizes, tail, 2);
  }

  lemma NoteSlices(kind: u32, data: seq<byte>, rest: seq<byte>)
    requires |data| < TWO32
    ensures |MakeNote(kind, data)| == 20 + RoundUp4(|data|)
    ensures
      var s := MakeNote(kind, data) + rest;
      s[12..17] == CORE_NAME && s[20..20 + |data|] == data && s[20 + RoundUp4(|data|)..] == rest
  {
    NoteSize(kind, data);
    var s, head, name, body := MakeNote(kind, data) + rest,
      PackWords([|CORE_NAME|, |data|, kind]), Pad4(CORE_NAME), Pad4(data);
    assert |head| == 12 && |name| == 8;
    Between(head, name, body + rest);
    Between(head + name, body, rest);
    Assoc(head + name, body, rest);
    FrontOfSlice(s, 12, name, CORE_NAME);
    FrontOfSlice(s, 20, body, data);
  }

  /** A slice that is a padded text holds the text at its front. */
  lemma FrontOfSlice(s: seq<byte>, at: nat, padded: seq<byte>, text: seq<byte>)
    requires at + |padded| <= |s| && s[at..at + |padded|] == padded && text <= padded
    ensures s[at..at + |text|] == text
  {
    SliceOfSlice(s, at, at + |padded|, 0, |text|);
  }

  lemma Between(a: seq<byte>, b: seq<byte>, c: seq<byte>)
    ensures (a + b + c)[|a|..|a| + |b|] == b
    ensures (a + b + c)[|a| + |b|..] == c
  {
  }

  /** One note in front of a stream. */
  lemma ParseFirst(kind: u32, data: seq<byte>, rest: seq<byte>)
    requires |data| < TWO32
    ensures
      ParseNotes(MakeNote(kind, data) + rest) ==
        match ParseNotes(rest)
        case None => None
        case Some(more) => Some([Note(CORE_NAME, kind, data)] + more)
  {
    NoteHeaderFields(kind, data, rest);
    NoteSlices(kind, data, rest);
    assert RoundUp4(5) == 8;
  }

  /** Both paddings are zero bytes. */
  lemma NotePadding(kind: u32, data: seq<byte>, p: nat)
    requires |data| < TWO32 && p < |MakeNote(kind, data)|
    requires 17 <= p < 20 || 20 + |data| <= p
    ensures MakeNote(kind, data)[p] == 0
  {
    var head, name, body := PackWords([|CORE_NAME|, |data|, kind]), Pad4(CORE_NAME), Pad4(data);
    assert |name| == 8 && |head + name| == 20;
    if p < 20 {
      assert MakeNote(kind, data)[p] == name[p - 12];
    } else {
      assert MakeNote(kind, data)[p] == body[p - 20];
    }
  }

  lemma NotesSnoc(items: seq<Item>)
    requires items != []
    ensures
      var last := items[|items| - 1];
      NotesOf(items) == NotesOf(items[..|items| - 1]) + [Note(CORE_NAME, last.kind, last.data)]
  {
  }

  lemma StreamAppend(items: seq<Item>, item: Item)
    ensures NoteStream(items + [item]) == NoteStream(items) + MakeNote(item.kind, item.data)
  {
    assert (items + [item])[..|items|] == items;
  }

  lemma {:induction false} ParseStreamThen(items: seq<Item>, rest: seq<byte>)
    requires ParseNotes(rest).Some?
    ensures ParseNotes(NoteStream(items) + rest) == Some(NotesOf(items) + ParseNotes(rest).value)
    decreases |items|
  {
    if items == [] {
      assert NoteStream(items) + rest == rest;
      assert NotesOf(items) + ParseNotes(rest).value == ParseNotes(rest).value;
    } else {
      var init, last := items[..|items| - 1], items[|items| - 1];
      NotesSnoc(items);
      Assoc(NoteStream(init), MakeNote(last.kind, last.data), rest);
      ParseFirst(last.kind, last.data, rest);
      ParseStreamThen(init, MakeNote(last.kind, last.data) + rest);
      Assoc(NotesOf(init), [Note(CORE_NAME, last.kind, last.data)], ParseNotes(rest).value);
    }
  }

  /** Note stream round trip: any list of notes parses back, and every prefix has a
      length that keeps the next note aligned. */
  lemma NoteStreamRoundTrip(items: seq<Item>, i: nat)
    requires i <= |items|
    ensures ParseNotes(NoteStream(items)) == Some(NotesOf(items))
    ensures |NoteStream(items[..i])| % 4 == 0
    ensures NoteStream(items[..i]) <= NoteStream(items)
  {
    ParseStreamThen(items, []);
    assert NoteStream(items) + [] == NoteStream(items);
    assert NotesOf(items) + [] == NotesOf(items);
    StreamAligned(items[..i]);
    StreamPrefix(items, i);
  }

  lemma {:induction false} StreamAligned(items: seq<Item>)
    ensures |NoteStream(items)| % 4 == 0
  {
    if items != [] {
      var last := items[|items| - 1];
      StreamAligned(items[..|items| - 1]);
      NoteSize(last.kind, last.data);
      var before, note := |NoteStream(items[..|items| - 1])|, |MakeNote(last.kind, last.data)|;
      assert |NoteStream(items)| == before + note;
      SumAligned(before, note);
    }
  }

  lemma SumAligned(a: nat, b: nat)
    requires a % 4 == 0 && b % 4 == 0
    ensures (a + b) % 4 == 0
  {
  }

  lemma {:induction false} StreamPrefix(items: seq<Item>, i: nat)
    requires i <= |items|
    ensures NoteStream(items[..i]) <= NoteStream(items)
    decreases |items|
  {
    if i == |items| {
      assert items[..i] == items;
    } else {
      var init := items[..|items| - 1];
      StreamPrefix(init, i);
      assert init[..i] == items[..i];
    }
  }

  // ---------------------------------------------------------------------------
  // Thread status
  // ---------------------------------------------------------------------------

  /** What a debugger sees of a thread: the elf_gregset_t fields that carry state. */
  datatype Thread = Thread(id: u32, gprs: seq<u32>, nip: u32, msr: u32, origR3: u32,
                           ctr: u32, link: u32, xer: u32, ccr: u32)

  const STATUS_SIZE: nat := 72 + 4 * 44

  /** Word i of the register set, which starts 72 bytes into the descriptor. */
  function StatusField(desc: seq<byte>, i: nat): u32
    requires |desc| == STATUS_SIZE && i < 44
  {
    Read32(desc, 72 + 4 * i)
  }

  /** Reads an NT_PRSTATUS descriptor: pr_pid at 24, then r0-r31, nip, msr, orig_r3,
      ctr, link, xer and ccr from 72 on. */
  function ReadThread(desc: seq<byte>): (t: Thread)
    requires |desc| == STATUS_SIZE
  {
    Thread(Read32(desc, 24), seq(32, i requires 0 <= i < 32 => StatusField(desc, i)),
           StatusField(desc, 32), StatusField(desc, 33), StatusField(desc, 34), StatusField(desc, 35),
           StatusField(desc, 36), StatusField(desc, 37), StatusField(desc, 38))
  }

  predicate IsU32(x: int) {
    0 <= x < TWO32
  }

  /** The 44 values thread_note packs. */
  function ThreadValues(registers: RegMap, pc: int): (values: seq<int>)
    ensures |values| == 44
  {
    seq(32, (i: nat) => Get(registers, Gpr(i)))
    + [pc, Get(registers, MSR), 0, Get(registers, CTR), Get(registers, LR), Get(registers, XER),
       Get(registers, CR), 0, 0, 0, 0, 0]
  }

  /** struct.pack raises when a value does not fit its field. */
  predicate Packable(values: seq<int>) {
    forall i | 0 <= i < |values| :: IsU32(values[i])
  }

  type Values = s: seq<u32> | |s| == 44 witness seq(44, _ => 0)

  function Packed(registers: RegMap, pc: int): Values
    requires Packable(ThreadValues(registers, pc))
  {
    ThreadValues(registers, pc)
  }

  function StatusBytes(values: Values, id: u32): (s: seq<byte>)
    ensures |s| == STATUS_SIZE
  {
    Zeros(24) + PackWords([id]) + Zeros(44) + PackWords(values)
  }

  /** The thread a debugger should see for these values. */
  function ThreadOf(values: Values, id: u32): Thread {
    Thread(id, values[..32], values[32], values[33], values[34], values[35], values[36], values[37], values[38])
  }

  /** Its fields are the captured registers, absent ones reading as 0. */
  lemma ThreadFields(registers: RegMap, pc: int, id: u32)
    requires Packable(ThreadValues(registers, pc))
    ensures
      var t := ThreadOf(Packed(registers, pc), id);
      && |t.gprs| == 32 && (forall i | 0 <= i < 32 :: t.gprs[i] == Get(registers, Gpr(i)))
      && t.nip == pc && t.msr == Get(registers, MSR) && t.ctr == Get(registers, CTR)
      && t.link == Get(registers, LR) && t.xer == Get(registers, XER) && t.ccr == Get(registers, CR)
      && t.origR3 == 0
  {
  }

  lemma StatusWord(values: Values, id: u32, i: nat)
    requires i < 44
    ensures Read32(StatusBytes(values, id), 72 + 4 * i) == values[i]
  {
    var pre := Zeros(24) + PackWords([id]) + Zeros(44);
    assert |pre| == 72 && StatusBytes(values, id) == pre + PackWords(values) + [];
    WordInGroup(pre, values, [], i);
  }

  lemma StatusId(values: Values, id: u32)
    ensures Read32(StatusBytes(values, id), 24) == id
  {
    var rest := Zeros(44) + PackWords(values);
    Assoc(Zeros(24) + PackWords([id]), Zeros(44), PackWords(values));
    WordInGroup(Zeros(24), [id], rest, 0);
  }

  lemma FieldsMakeThread(s: seq<byte>, values: Values, id: u32)
    requires |s| == STATUS_SIZE && Read32(s, 24) == id
    requires forall i | 0 <= i < 44 :: StatusField(s, i) == values[i]
    ensures ReadThread(s) == ThreadOf(values, id)
  {
    assert ReadThread(s).gprs == values[..32];
  }

  /** A packed status descriptor reads back as the thread it was made from. */
  lemma ThreadRoundTrip(values: Values, id: u32)
    ensures ReadThread(StatusBytes(values, id)) == ThreadOf(values, id)
  {
    StatusId(values, id);
    forall i | 0 <= i < 44
      ensures StatusField(StatusBytes(values, id), i) == values[i]
    {
      StatusWord(values, id, i);
    }
    FieldsMakeThread(StatusBytes(values, id), values, id);
  }

  /** And every other byte of the descriptor is zero. */
  lemma StatusRest(registers: RegMap, pc: int, id: u32, p: nat)
    requires Packable(ThreadValues(registers, pc))
    ensures
      var status := StatusBytes(Packed(registers, pc), id);
      && |status| == 248
      && (p < 24 || 28 <= p < 72 || 72 + 4 * 39 <= p < 248 ==> status[p] == 0)
  {
    var values := Packed(registers, pc);
    if 72 + 4 * 39 <= p < 248 {
      assert values[(p - 72) / 4] == 0;
      assert StatusBytes(values, id)[p] == PackWords(values)[p - 72];
    }
  }

  /** struct.pack_into(">I", ...) */
  method PackInto(buffer: array<byte>, offset: nat, value: u32)
    requires offset + 4 <= buffer.Length
    modifies buffer
    ensures buffer[..] == old(buffer[..offset]) + PackWords([value]) + old(buffer[offset + 4..])
  {
    buffer[offset] := ByteOf(value, 0);
    buffer[offset + 1] := ByteOf(value, 1);
    buffer[offset + 2] := ByteOf(value, 2);
    buffer[offset + 3] := ByteOf(value, 3);
  }

  /** thread_note: fails exactly when some value does not fit in 32 bits. */
  method ThreadNote(registers: RegMap, pc: int, id: u32) returns (r: Result<seq<byte>>)
    ensures r.Ok? <==> Packable(ThreadValues(registers, pc))
    ensures r.Ok? ==> r.value == MakeNote(NT_PRSTATUS, StatusBytes(Packed(registers, pc), id))
    ensures r.Err? ==> r.error == PackRange
  {
    var values := ThreadValues(registers, pc);
    var status := new byte[72](_ => 0);
    PackInto(status, 24, id);
    assert status[..] == Zeros(24) + PackWords([id]) + Zeros(44);
    if exists i | 0 <= i < |values| :: !IsU32(values[i]) {
      return Err(PackRange);
    }
    return Ok(MakeNote(NT_PRSTATUS, status[..] + PackWords(values)));
  }
}
