/** make_core and saved_thread_registers of coredump/make_sppe_core_simics.py: which
    threads go into the core, with which registers, and what a debugger that reads
    the file back finds. */
module CoreBuilder {
  import opened Words
  import opened PibMemory
  import opened Backchain
  import opened CoreNotes
  import opened CoreFile

  // ---------------------------------------------------------------------------
  // Saved threads
  // ---------------------------------------------------------------------------

  /** Where the PK context switch saves each register, from the saved stack pointer:
      r0, r3 to r10 and r28 to r31, and the special registers. */
  function SavedOffset(name: RegName): Option<nat> {
    match name
    case Gpr(r) =>
      if r == 0 then Some(0x10)
      else if 3 <= r <= 10 then Some(0x18 + 4 * (r - 3))
      else if 28 <= r <= 31 then Some(0x48 + 4 * (r - 28))
      else None
    case XER => Some(0x38)
    case CTR => Some(0x3c)
    case PC => Some(0x40)
    case MSR => Some(0x44)
    case CR => Some(0x08)
    case LR => Some(0x5c)
    case _ => None
  }

  function SavedNames(): (names: set<RegName>)
    ensures forall name :: name in names <==> SavedOffset(name).Some?
  {
    (set r: nat | r < 32 && SavedOffset(Gpr(r)).Some? :: Gpr(r)) + {XER, CTR, PC, MSR, CR, LR}
  }

  /** Register name is saved at a place of the context that lies in the image. */
  predicate Readable(memory: seq<byte>, sp: int, name: RegName) {
    SavedOffset(name).Some? && InPibmem(memory, sp + SavedOffset(name).value)
  }

  function SavedValue(memory: seq<byte>, sp: int, name: RegName): (w: u32)
    requires Readable(memory, sp, name)
    ensures Word(memory, sp + SavedOffset(name).value) == Ok(w)
  {
    Word(memory, sp + SavedOffset(name).value).value
  }

  /** saved_thread_registers: r1 is the word at the saved stack pointer itself. */
  function SavedRegisters(memory: seq<byte>, sp: int): (r: Result<RegMap>)
    ensures r.Err? ==> r.error == OutsidePibmem
  {
    if forall name | name in SavedNames() :: Readable(memory, sp, name) then
      var saved: RegMap := map name | name in SavedNames() :: SavedValue(memory, sp, name);
      var r1 :- Word(memory, sp);
      Ok(saved[Gpr(1) := r1])
    else Err(OutsidePibmem)
  }

  /** The whole 96-byte context must lie in the image, no more and no less. */
  lemma SavedInRange(memory: seq<byte>, sp: int)
    ensures SavedRegisters(memory, sp).Ok? <==> MEM_START <= sp && sp + 0x60 <= MEM_START + |memory|
  {
    assert LR in SavedNames();
    if SavedRegisters(memory, sp).Ok? {
      assert Readable(memory, sp, LR);
    }
  }

  lemma SavedWord(memory: seq<byte>, sp: int, name: RegName)
    requires SavedRegisters(memory, sp).Ok? && name != Gpr(1)
    ensures SavedOffset(name).Some? ==>
      Readable(memory, sp, name) && Get(SavedRegisters(memory, sp).value, name) == SavedValue(memory, sp, name)
    ensures SavedOffset(name).None? ==> Get(SavedRegisters(memory, sp).value, name) == 0
  {
    assert name in SavedNames() <==> SavedOffset(name).Some?;
  }

  lemma SavedR1(memory: seq<byte>, sp: int)
    requires SavedRegisters(memory, sp).Ok?
    ensures InPibmem(memory, sp) && Get(SavedRegisters(memory, sp).value, Gpr(1)) == Word(memory, sp).value
  {
  }

  /** The general registers of a saved context, each at its place: r0 at 0x10, r1 the
      saved stack pointer's own word, r3 to r10 from 0x18 on, r28 to r31 from 0x48 on;
      the others are not saved and read as 0. */
  predicate ShowsGprs(gprs: seq<int>, memory: seq<byte>, sp: int) {
    && |gprs| == 32
    && Word(memory, sp + 0x10) == Ok(gprs[0]) && Word(memory, sp) == Ok(gprs[1]) && gprs[2] == 0
    && (forall k | 0 <= k < 8 :: Word(memory, sp + 0x18 + 4 * k) == Ok(gprs[3 + k]))
    && (forall r | 11 <= r < 28 :: gprs[r] == 0)
    && forall k | 0 <= k < 4 :: Word(memory, sp + 0x48 + 4 * k) == Ok(gprs[28 + k])
  }

  lemma SavedAt(memory: seq<byte>, sp: int, name: RegName, at: nat)
    requires SavedRegisters(memory, sp).Ok? && name != Gpr(1) && SavedOffset(name) == Some(at)
    ensures Word(memory, sp + at) == Ok(Get(SavedRegisters(memory, sp).value, name))
  {
    SavedWord(memory, sp, name);
  }

  lemma SavedNowhere(memory: seq<byte>, sp: int, r: nat)
    requires SavedRegisters(memory, sp).Ok? && r != 1 && SavedOffset(Gpr(r)).None?
    ensures Get(SavedRegisters(memory, sp).value, Gpr(r)) == 0
  {
    SavedWord(memory, sp, Gpr(r));
  }

  lemma SavedLow(memory: seq<byte>, sp: int, k: nat)
    requires SavedRegisters(memory, sp).Ok? && k < 8
    ensures Word(memory, sp + 0x18 + 4 * k) == Ok(Get(SavedRegisters(memory, sp).value, Gpr(3 + k)))
  {
    SavedAt(memory, sp, Gpr(3 + k), 0x18 + 4 * k);
    assert sp + (0x18 + 4 * k) == sp + 0x18 + 4 * k;
  }

  lemma SavedHigh(memory: seq<byte>, sp: int, k: nat)
    requires SavedRegisters(memory, sp).Ok? && k < 4
    ensures Word(memory, sp + 0x48 + 4 * k) == Ok(Get(SavedRegisters(memory, sp).value, Gpr(28 + k)))
  {
    SavedAt(memory, sp, Gpr(28 + k), 0x48 + 4 * k);
    assert sp + (0x48 + 4 * k) == sp + 0x48 + 4 * k;
  }

  lemma SavedGprs(memory: seq<byte>, sp: int, gprs: seq<int>)
    requires SavedRegisters(memory, sp).Ok? && |gprs| == 32
    requires forall r | 0 <= r < 32 :: gprs[r] == Get(SavedRegisters(memory, sp).value, Gpr(r))
    ensures ShowsGprs(gprs, memory, sp)
  {
    SavedR1(memory, sp);
    SavedAt(memory, sp, Gpr(0), 0x10);
    SavedNowhere(memory, sp, 2);
    forall k | 0 <= k < 8
      ensures Word(memory, sp + 0x18 + 4 * k) == Ok(gprs[3 + k])
    {
      SavedLow(memory, sp, k);
    }
    SavedZeros(memory, sp, gprs);
    forall k | 0 <= k < 4
      ensures Word(memory, sp + 0x48 + 4 * k) == Ok(gprs[28 + k])
    {
      SavedHigh(memory, sp, k);
    }
  }

  lemma SavedZeros(memory: seq<byte>, sp: int, gprs: seq<int>)
    requires SavedRegisters(memory, sp).Ok? && |gprs| == 32
    requires forall r | 0 <= r < 32 :: gprs[r] == Get(SavedRegisters(memory, sp).value, Gpr(r))
    ensures forall r | 11 <= r < 28 :: gprs[r] == 0
  {
    forall r | 11 <= r < 28
      ensures gprs[r] == 0
    {
      SavedNowhere(memory, sp, r);
    }
  }

  lemma SavedIsU32(memory: seq<byte>, sp: int, name: RegName)
    requires SavedRegisters(memory, sp).Ok?
    ensures IsU32(Get(SavedRegisters(memory, sp).value, name))
  {
  }

  lemma SavedPackable(memory: seq<byte>, sp: int)
    requires SavedRegisters(memory, sp).Ok?
    ensures
      var saved := SavedRegisters(memory, sp).value;
      PC in saved && Packable(ThreadValues(saved, saved[PC]))
  {
    var saved := SavedRegisters(memory, sp).value;
    forall name
      ensures IsU32(Get(saved, name))
    {
      SavedIsU32(memory, sp, name);
    }
    assert PC in SavedNames();
    assert saved[PC] == Get(saved, PC);
    AllPackable(saved);
  }

  lemma AllPackable(registers: RegMap)
    requires PC in registers && forall name :: IsU32(Get(registers, name))
    ensures Packable(ThreadValues(registers, registers[PC]))
  {
    assert registers[PC] == Get(registers, PC);
  }

  function SavedValues(memory: seq<byte>, sp: int): Values
    requires SavedRegisters(memory, sp).Ok?
  {
    SavedPackable(memory, sp);
    var saved := SavedRegisters(memory, sp).value;
    Packed(saved, saved[PC])
  }

  lemma SavedFields(memory: seq<byte>, sp: int, id: u32)
    requires SavedRegisters(memory, sp).Ok?
    ensures
      var saved := SavedRegisters(memory, sp).value;
      var t := ThreadOf(SavedValues(memory, sp), id);
      && |t.gprs| == 32 && (forall r | 0 <= r < 32 :: t.gprs[r] == Get(saved, Gpr(r)))
      && t.nip == Get(saved, PC) && t.msr == Get(saved, MSR) && t.ctr == Get(saved, CTR)
      && t.link == Get(saved, LR) && t.xer == Get(saved, XER) && t.ccr == Get(saved, CR) && t.id == id
  {
    SavedPackable(memory, sp);
    var saved := SavedRegisters(memory, sp).value;
    assert Get(saved, PC) == saved[PC];
    ThreadFields(saved, saved[PC], id);
  }

  lemma SavedSpecials(memory: seq<byte>, sp: int)
    requires SavedRegisters(memory, sp).Ok?
    ensures
      var saved := SavedRegisters(memory, sp).value;
      && Ok(Get(saved, PC)) == Word(memory, sp + 0x40) && Ok(Get(saved, MSR)) == Word(memory, sp + 0x44)
      && Ok(Get(saved, CTR)) == Word(memory, sp + 0x3c) && Ok(Get(saved, XER)) == Word(memory, sp + 0x38)
      && Ok(Get(saved, LR)) == Word(memory, sp + 0x5c) && Ok(Get(saved, CR)) == Word(memory, sp + 0x08)
  {
    SavedAt(memory, sp, PC, 0x40);
    SavedAt(memory, sp, MSR, 0x44);
    SavedAt(memory, sp, CTR, 0x3c);
    SavedAt(memory, sp, XER, 0x38);
    SavedAt(memory, sp, LR, 0x5c);
    SavedAt(memory, sp, CR, 0x08);
  }

  /** A parked thread as the debugger should see it: each register from its place in
      the saved context, the unsaved ones 0. */
  predicate ShowsContext(t: Thread, memory: seq<byte>, sp: int) {
    && ShowsGprs(t.gprs, memory, sp)
    && Ok(t.nip) == Word(memory, sp + 0x40) && Ok(t.msr) == Word(memory, sp + 0x44)
    && Ok(t.ctr) == Word(memory, sp + 0x3c) && Ok(t.xer) == Word(memory, sp + 0x38)
    && Ok(t.link) == Word(memory, sp + 0x5c) && Ok(t.ccr) == Word(memory, sp + 0x08)
  }

  lemma SavedContext(memory: seq<byte>, sp: int, id: u32)
    requires SavedRegisters(memory, sp).Ok?
    ensures ShowsContext(ThreadOf(SavedValues(memory, sp), id), memory, sp)
  {
    SavedFields(memory, sp, id);
    SavedSpecials(memory, sp);
    SavedGprs(memory, sp, ThreadOf(SavedValues(memory, sp), id).gprs);
  }

  // ---------------------------------------------------------------------------
  // Which threads
  // ---------------------------------------------------------------------------

  datatype Tcb = Tcb(priority: u32, address: u32)

  function ReadPriorityMap(memory: seq<byte>, table: int): (r: Result<seq<u32>>)
    ensures r.Ok? ==> |r.value| == PK_THREADS
    ensures r.Err? ==> r.error == OutsidePibmem
  {
    if forall i | 0 <= i < PK_THREADS :: InPibmem(memory, table + 4 * i) then
      Ok(seq(PK_THREADS, i requires 0 <= i < PK_THREADS => Word(memory, table + 4 * i).value))
    else Err(OutsidePibmem)
  }

  /** On a whole image, tables at accepted addresses can always be read. */
  lemma AcceptedTablesRead(memory: seq<byte>, symbols: Symbols)
    requires |memory| == MEM_SIZE
    requires AcceptableAddress(symbols.currentThread, 4) && AcceptableAddress(symbols.priorityMap, 4 * PK_THREADS)
    ensures Word(memory, symbols.currentThread).Ok? && ReadPriorityMap(memory, symbols.priorityMap).Ok?
  {
    AcceptedAddressesNeverFault(memory, symbols);
  }

  /** The nonzero entries of a priority map, by ascending priority. */
  function NonNull(words: seq<u32>): (threads: seq<Tcb>)
    requires |words| <= PK_THREADS
    ensures |threads| <= |words|
  {
    if words == [] then []
    else
      var n := |words| - 1;
      NonNull(words[..n]) + if words[n] != 0 then [Tcb(n, words[n])] else []
  }

  /** The threads whose TCB is not the running one. */
  function Others(threads: seq<Tcb>, current: u32): (others: seq<Tcb>)
    ensures |others| <= |threads|
  {
    if threads == [] then []
    else
      var n := |threads| - 1;
      Others(threads[..n], current) + if threads[n].address != current then [threads[n]] else []
  }

  /** The priority under which the running thread appears first, or 32. */
  function CurrentPriority(threads: seq<Tcb>, current: u32): u32 {
    if threads == [] then PK_THREADS
    else if threads[0].address == current then threads[0].priority
    else CurrentPriority(threads[1..], current)
  }

  lemma {:induction false} NonNullExact(words: seq<u32>)
    requires |words| <= PK_THREADS
    ensures forall t :: t in NonNull(words) <==>
      t.priority < |words| && words[t.priority] == t.address && t.address != 0
    ensures forall i, j | 0 <= i < j < |NonNull(words)| :: NonNull(words)[i].priority < NonNull(words)[j].priority
  {
    if words != [] {
      var n := |words| - 1;
      NonNullExact(words[..n]);
      var before := NonNull(words[..n]);
      forall i | 0 <= i < |before|
        ensures before[i].priority < n
      {
        assert before[i] in before;
      }
      forall t
        ensures t in NonNull(words) <==> t.priority < |words| && words[t.priority] == t.address && t.address != 0
      {
        assert t in NonNull(words) <==> t in before || (words[n] != 0 && t == Tcb(n, words[n]));
      }
    }
  }

  lemma OthersMembers(threads: seq<Tcb>, current: u32, t: Tcb)
    requires threads != []
    ensures
      var init, last := threads[..|threads| - 1], threads[|threads| - 1];
      t in Others(threads, current) <==> t in Others(init, current) || (t == last && t.address != current)
  {
  }

  lemma {:induction false} OthersExact(threads: seq<Tcb>, current: u32)
    requires forall i, j | 0 <= i < j < |threads| :: threads[i].priority < threads[j].priority
    ensures forall t :: t in Others(threads, current) <==> t in threads && t.address != current
    ensures forall i, j | 0 <= i < j < |Others(threads, current)| ::
      Others(threads, current)[i].priority < Others(threads, current)[j].priority
  {
    if threads != [] {
      var init, last := threads[..|threads| - 1], threads[|threads| - 1];
      var before := Others(init, current);
      OthersExact(init, current);
      SnocMembers(threads);
      forall t
        ensures t in Others(threads, current) <==> t in threads && t.address != current
      {
        OthersMembers(threads, current, t);
      }
      forall i | 0 <= i < |before|
        ensures before[i].priority < last.priority
      {
        assert before[i] in init;
      }
    }
  }

  lemma {:induction false} CurrentPriorityExact(threads: seq<Tcb>, current: u32)
    ensures
      var p := CurrentPriority(threads, current);
      (p == PK_THREADS && forall t | t in threads :: t.address != current)
      || exists t :: t in threads && t.address == current && t.priority == p
  {
    if threads != [] && threads[0].address != current {
      CurrentPriorityExact(threads[1..], current);
    }
  }

  /** Of a map read by ascending priority it is the first. */
  lemma {:induction false} CurrentPriorityFirst(threads: seq<Tcb>, current: u32, t: Tcb)
    requires forall i, j | 0 <= i < j < |threads| :: threads[i].priority < threads[j].priority
    requires t in threads && t.address == current
    ensures CurrentPriority(threads, current) <= t.priority
  {
    if threads[0].address != current {
      CurrentPriorityFirst(threads[1..], current, t);
    } else {
      var i :| 0 <= i < |threads| && threads[i] == t;
      assert i == 0 || threads[0].priority < threads[i].priority;
    }
  }

  // ---------------------------------------------------------------------------
  // The capture as a value
  // ---------------------------------------------------------------------------

  /** What make_core finds out before it writes: the map, the running thread's TCB
      address (0 for none) and the stack pointer to report, if it is to change. */
  datatype Capture = Capture(threads: seq<Tcb>, current: u32, faultR1: Option<int>)

  predicate Captured(registers: RegMap, pcSource: RegName) {
    && (pcSource == SRR0 || pcSource == IAR)
    && Gpr(1) in registers && pcSource in registers
  }

  ghost function Survey(memory: seq<byte>, registers: RegMap, pcSource: RegName,
                        symbols: Option<Symbols>, faultR1: Option<int>): Result<Capture>
    requires Captured(registers, pcSource)
  {
    if symbols.None? then Ok(Capture([], 0, faultR1))
    else
      var current :- Word(memory, symbols.value.currentThread);
      var words :- ReadPriorityMap(memory, symbols.value.priorityMap);
      if current != 0 && pcSource == SRR0 && faultR1.None? then
        var limit :- Word(memory, current + 4);
        var base :- Word(memory, current + 8);
        var sp :- FaultStackPointerSpec(memory, registers[Gpr(1)], limit, base);
        Ok(Capture(NonNull(words), current, Some(sp)))
      else Ok(Capture(NonNull(words), current, faultR1))
  }

  /** registers after the stack pointer has been replaced. */
  function LiveRegisters(registers: RegMap, faultR1: Option<int>): RegMap {
    if faultR1.Some? then registers[Gpr(1) := faultR1.value] else registers
  }

  /** The saved registers of a parked thread, through the stack pointer its TCB holds. */
  function Parked(memory: seq<byte>, tcb: Tcb): Result<Values> {
    var sp :- Word(memory, tcb.address);
    var saved :- SavedRegisters(memory, sp);
    Ok(SavedValues(memory, sp))
  }

  /** The status notes of parked threads, or the error of the first that has none. */
  function ParkedItems(memory: seq<byte>, others: seq<Tcb>): (r: Result<seq<Item>>)
    ensures r.Ok? ==> |r.value| == |others|
  {
    if others == [] then Ok([])
    else
      var last := others[|others| - 1];
      var before :- ParkedItems(memory, others[..|others| - 1]);
      var values :- Parked(memory, last);
      Ok(before + [Item(NT_PRSTATUS, StatusBytes(values, last.priority))])
  }

  function AuxItems(entry: Option<u32>): seq<Item> {
    if entry.Some? then [Item(NT_AUXV, PackWords([AT_ENTRY, entry.value, 0, 0]))] else []
  }

  datatype Built = Built(core: seq<byte>, threads: seq<Tcb>, faultR1: Option<int>)

  /** The file for a capture and the live registers. */
  function Written(memory: seq<byte>, live: RegMap, pcSource: RegName, entry: Option<u32>, capture: Capture)
    : Result<seq<byte>>
    requires pcSource in live
  {
    var pc := live[pcSource];
    if !Packable(ThreadValues(live, pc)) then Err(PackRange)
    else
      var parked :- ParkedItems(memory, Others(capture.threads, capture.current));
      PackablePc(live, pc);
      var notes := NoteStream(Items(live, pc, capture, parked, entry));
      if Addressable(notes, memory) then Ok(CoreBytes(pc, notes, memory)) else Err(PackRange)
  }

  /** make_core as a function of what was captured. */
  ghost function Build(memory: seq<byte>, registers: RegMap, pcSource: RegName, entry: Option<u32>,
                       symbols: Option<Symbols>, faultR1: Option<int>): Result<Built>
    requires Captured(registers, pcSource)
  {
    var capture :- Survey(memory, registers, pcSource, symbols, faultR1);
    var core :- Written(memory, LiveRegisters(registers, capture.faultR1), pcSource, entry, capture);
    Ok(Built(core, capture.threads, capture.faultR1))
  }

  lemma PackablePc(registers: RegMap, pc: int)
    requires Packable(ThreadValues(registers, pc))
    ensures IsU32(pc)
  {
    assert ThreadValues(registers, pc)[32] == pc;
  }

  /** The notes of a core: the live CPU, the parked threads, the entry point. */
  function Items(live: RegMap, pc: int, capture: Capture, parked: seq<Item>, entry: Option<u32>): seq<Item>
    requires Packable(ThreadValues(live, pc))
  {
    var id := CurrentPriority(capture.threads, capture.current);
    [Item(NT_PRSTATUS, StatusBytes(Packed(live, pc), id))] + parked + AuxItems(entry)
  }

  // ---------------------------------------------------------------------------
  // make_core
  // ---------------------------------------------------------------------------

  /** The first part of make_core: reads the thread tables, recovers the interrupted
      stack pointer unless one is given. */
  method Explore(memory: seq<byte>, registers: RegMap, pcSource: RegName,
                 symbols: Option<Symbols>, faultR1: Option<int>) returns (r: Result<Capture>)
    requires Captured(registers, pcSource)
    ensures r == Survey(memory, registers, pcSource, symbols, faultR1)
  {
    if symbols.None? {
      return Ok(Capture([], 0, faultR1));
    }
    var current :- Word(memory, symbols.value.currentThread);
    var words :- ReadPriorityMap(memory, symbols.value.priorityMap);
    var recovered := faultR1;
    if current != 0 && pcSource == SRR0 && faultR1.None? {
      var limit :- Word(memory, current as int + 4);
      var base :- Word(memory, current as int + 8);
      var sp :- FaultStackPointer(memory, registers[Gpr(1)], limit, base);
      recovered := Some(sp);
    }
    return Ok(Capture(NonNull(words), current, recovered));
  }

  lemma {:induction false} OthersPrefix(threads: seq<Tcb>, current: u32, i: nat)
    requires i <= |threads|
    ensures Others(threads[..i], current) <= Others(threads, current)
    decreases |threads|
  {
    if i == |threads| {
      assert threads[..i] == threads;
    } else {
      var init := threads[..|threads| - 1];
      OthersPrefix(init, current, i);
      assert init[..i] == threads[..i];
    }
  }

  /** The first parked thread whose context cannot be read decides the error. */
  lemma {:induction false} FirstErrorStays(memory: seq<byte>, p: seq<Tcb>, q: seq<Tcb>)
    requires p <= q && ParkedItems(memory, p).Err?
    ensures ParkedItems(memory, q) == ParkedItems(memory, p)
    decreases |q|
  {
    if |p| == |q| {
      assert p == q;
    } else {
      FirstErrorStays(memory, p, q[..|q| - 1]);
    }
  }

  /** The note of one parked thread. */
  method ParkedNote(memory: seq<byte>, tcb: Tcb) returns (r: Result<seq<byte>>)
    ensures
      var values := Parked(memory, tcb);
      r == if values.Err? then Err(values.error)
           else Ok(MakeNote(NT_PRSTATUS, StatusBytes(values.value, tcb.priority)))
  {
    var sp :- Word(memory, tcb.address);
    var saved :- SavedRegisters(memory, sp);
    SavedPackable(memory, sp);
    r := ThreadNote(saved, saved[PC], tcb.priority);
  }

  lemma OthersStep(threads: seq<Tcb>, current: u32, i: nat)
    requires i < |threads|
    ensures
      Others(threads[..i + 1], current) ==
        if threads[i].address != current then Others(threads[..i], current) + [threads[i]]
        else Others(threads[..i], current)
  {
    assert threads[..i + 1][..i] == threads[..i];
    assert Others(threads[..i], current) + [] == Others(threads[..i], current);
  }

  function ParkedItem(memory: seq<byte>, tcb: Tcb): Item
    requires Parked(memory, tcb).Ok?
  {
    Item(NT_PRSTATUS, StatusBytes(Parked(memory, tcb).value, tcb.priority))
  }

  lemma ParkedAppend(memory: seq<byte>, before: seq<Tcb>, tcb: Tcb)
    requires ParkedItems(memory, before).Ok?
    ensures Parked(memory, tcb).Ok? ==>
      ParkedItems(memory, before + [tcb]) == Ok(ParkedItems(memory, before).value + [ParkedItem(memory, tcb)])
    ensures Parked(memory, tcb).Err? ==> ParkedItems(memory, before + [tcb]) == Err(Parked(memory, tcb).error)
  {
    assert (before + [tcb])[..|before|] == before;
  }

  lemma ParkedFailure(memory: seq<byte>, threads: seq<Tcb>, current: u32, i: nat)
    requires i < |threads| && threads[i].address != current
    requires ParkedItems(memory, Others(threads[..i], current)).Ok? && Parked(memory, threads[i]).Err?
    ensures ParkedItems(memory, Others(threads, current)) == Err(Parked(memory, threads[i]).error)
  {
    OthersStep(threads, current, i);
    ParkedAppend(memory, Others(threads[..i], current), threads[i]);
    OthersPrefix(threads, current, i + 1);
    FirstErrorStays(memory, Others(threads[..i + 1], current), Others(threads, current));
  }

  /** The loop of make_core over all threads: appends the note of each thread that
      is not the running one. */
  method ParkedNotes(memory: seq<byte>, threads: seq<Tcb>, current: u32, live: seq<byte>, ghost first: seq<Item>)
    returns (r: Result<seq<byte>>)
    requires live == NoteStream(first)
    ensures
      var items := ParkedItems(memory, Others(threads, current));
      r == if items.Err? then Err(items.error) else Ok(NoteStream(first + items.value))
  {
    var notes := live;
    ghost var items: seq<Item> := [];
    assert first + items == first;
    for i := 0 to |threads|
      invariant ParkedItems(memory, Others(threads[..i], current)) == Ok(items)
      invariant notes == NoteStream(first + items)
    {
      OthersStep(threads, current, i);
      if threads[i].address != current {
        var note := ParkedNote(memory, threads[i]);
        if note.Err? {
          ParkedFailure(memory, threads, current, i);
          return Err(note.error);
        }
        ParkedAppend(memory, Others(threads[..i], current), threads[i]);
        ghost var item := ParkedItem(memory, threads[i]);
        StreamAppend(first + items, item);
        Assoc(first, items, [item]);
        notes := notes + note.value;
        items := items + [item];
      }
    }
    assert threads[..|threads|] == threads;
    return Ok(notes);
  }

  /** The optional last note. */
  method AppendEntry(notes: seq<byte>, entry: Option<u32>, ghost items: seq<Item>) returns (all: seq<byte>)
    requires notes == NoteStream(items)
    ensures all == NoteStream(items + AuxItems(entry))
  {
    all := notes;
    if entry.Some? {
      var aux := PackWords([AT_ENTRY, entry.value, 0, 0]);
      StreamAppend(items, Item(NT_AUXV, aux));
      all := all + MakeNote(NT_AUXV, aux);
    } else {
      assert items + AuxItems(entry) == items;
    }
  }

  lemma OneItemStream(item: Item)
    ensures NoteStream([item]) == MakeNote(item.kind, item.data)
  {
    StreamAppend([], item);
    assert [] + [item] == [item];
    assert NoteStream([]) == [];
  }

  /** The second part of make_core: the notes of all threads and the file. */
  method WriteCore(memory: seq<byte>, live: RegMap, pcSource: RegName, entry: Option<u32>, capture: Capture)
    returns (r: Result<seq<byte>>)
    requires pcSource in live
    ensures r == Written(memory, live, pcSource, entry, capture)
  {
    var pc := live[pcSource];
    var id := CurrentPriority(capture.threads, capture.current);
    var note :- ThreadNote(live, pc, id);
    PackablePc(live, pc);
    ghost var first := [Item(NT_PRSTATUS, StatusBytes(Packed(live, pc), id))];
    OneItemStream(first[0]);
    var notes :- ParkedNotes(memory, capture.threads, capture.current, note, first);
    ghost var parked := ParkedItems(memory, Others(capture.threads, capture.current)).value;
    notes := AppendEntry(notes, entry, first + parked);
    if !Addressable(notes, memory) {
      return Err(PackRange);
    }
    return Ok(CoreBytes(pc, notes, memory));
  }

  /** make_core: the register dictionary is updated in place as soon as the stack
      pointer to report is known, whether or not the core can then be written. */
  method MakeCore(memory: seq<byte>, registers: RegisterFile, pcSource: RegName, entry: Option<u32>,
                  symbols: Option<Symbols>, faultR1: Option<int>) returns (r: Result<Built>)
    requires Captured(registers.values, pcSource)
    modifies registers
    ensures r == Build(memory, old(registers.values), pcSource, entry, symbols, faultR1)
    ensures
      var survey := Survey(memory, old(registers.values), pcSource, symbols, faultR1);
      registers.values ==
        if survey.Err? then old(registers.values) else LiveRegisters(old(registers.values), survey.value.faultR1)
  {
    var capture :- Explore(memory, registers.values, pcSource, symbols, faultR1);
    if capture.faultR1.Some? {
      registers.values := registers.values[Gpr(1) := capture.faultR1.value];
    }
    var core :- WriteCore(memory, registers.values, pcSource, entry, capture);
    return Ok(Built(core, capture.threads, capture.faultR1));
  }

  // ---------------------------------------------------------------------------
  // What a debugger finds in the file
  // ---------------------------------------------------------------------------

  /** The parked threads as they should appear. */
  function ParkedThreads(memory: seq<byte>, others: seq<Tcb>): (threads: seq<Thread>)
    requires ParkedItems(memory, others).Ok?
    ensures |threads| == |others|
  {
    if others == [] then []
    else
      var last := others[|others| - 1];
      ParkedThreads(memory, others[..|others| - 1]) + [ThreadOf(Parked(memory, last).value, last.priority)]
  }

  lemma {:induction false} ThreadsOfAppend(a: seq<Note>, b: seq<Note>)
    ensures ThreadsOf(a + b) == ThreadsOf(a) + ThreadsOf(b)
  {
    if a == [] {
      assert a + b == b;
    } else {
      assert (a + b)[1..] == a[1..] + b;
      ThreadsOfAppend(a[1..], b);
      Assoc(ThreadOfNote(a[0]), ThreadsOf(a[1..]), ThreadsOf(b));
    }
  }

  lemma {:induction false} EntryOfAppend(a: seq<Note>, b: seq<Note>)
    requires forall i | 0 <= i < |a| :: a[i].kind == NT_PRSTATUS
    ensures EntryOf(a + b) == EntryOf(b)
  {
    if a == [] {
      assert a + b == b;
    } else {
      assert (a + b)[1..] == a[1..] + b;
      EntryOfAppend(a[1..], b);
    }
  }

  lemma OneThread(values: Values, id: u32)
    ensures ThreadsOf(NotesOf([Item(NT_PRSTATUS, StatusBytes(values, id))])) == [ThreadOf(values, id)]
  {
    ThreadRoundTrip(values, id);
    var notes := NotesOf([Item(NT_PRSTATUS, StatusBytes(values, id))]);
    assert ThreadsOf(notes[1..]) == [];
  }

  lemma NotesOfAppend(a: seq<Item>, b: seq<Item>)
    ensures NotesOf(a + b) == NotesOf(a) + NotesOf(b)
  {
  }

  lemma {:induction false} ParkedKinds(memory: seq<byte>, others: seq<Tcb>)
    requires ParkedItems(memory, others).Ok?
    ensures forall i | 0 <= i < |others| :: ParkedItems(memory, others).value[i].kind == NT_PRSTATUS
  {
    if others != [] {
      ParkedKinds(memory, others[..|others| - 1]);
    }
  }

  lemma ThreadsSnoc(before: seq<Item>, values: Values, id: u32)
    ensures ThreadsOf(NotesOf(before + [Item(NT_PRSTATUS, StatusBytes(values, id))]))
         == ThreadsOf(NotesOf(before)) + [ThreadOf(values, id)]
  {
    var item := Item(NT_PRSTATUS, StatusBytes(values, id));
    OneThread(values, id);
    NotesOfAppend(before, [item]);
    ThreadsOfAppend(NotesOf(before), NotesOf([item]));
  }

  lemma {:induction false} ParkedItemsRead(memory: seq<byte>, others: seq<Tcb>)
    requires ParkedItems(memory, others).Ok?
    ensures ThreadsOf(NotesOf(ParkedItems(memory, others).value)) == ParkedThreads(memory, others)
  {
    if others != [] {
      var init, last := others[..|others| - 1], others[|others| - 1];
      ParkedItemsRead(memory, init);
      ThreadsSnoc(ParkedItems(memory, init).value, Parked(memory, last).value, last.priority);
    }
  }

  lemma AuxRead(entry: Option<u32>)
    ensures ThreadsOf(NotesOf(AuxItems(entry))) == []
    ensures EntryOf(NotesOf(AuxItems(entry))) == entry
  {
    if entry.Some? {
      var ws := [AT_ENTRY, entry.value, 0, 0];
      WordAtFront(ws, [], 0);
      WordAtFront(ws, [], 1);
      WordAtFront(ws, [], 2);
      WordAtFront(ws, [], 3);
      assert PackWords(ws) + [] == PackWords(ws);
      var notes := NotesOf(AuxItems(entry));
      assert notes == [Note(CORE_NAME, NT_AUXV, PackWords(ws))];
      assert AuxEnds(PackWords(ws), 8);
      assert AuxEntry(PackWords(ws), 0) == entry;
    }
  }

  lemma ItemsThreads(first: seq<Item>, parked: seq<Item>, entry: Option<u32>)
    requires forall i | 0 <= i < |first| :: first[i].kind == NT_PRSTATUS
    requires forall i | 0 <= i < |parked| :: parked[i].kind == NT_PRSTATUS
    ensures ThreadsOf(NotesOf(first + parked + AuxItems(entry)))
         == ThreadsOf(NotesOf(first)) + ThreadsOf(NotesOf(parked))
    ensures EntryOf(NotesOf(first + parked + AuxItems(entry))) == entry
  {
    AuxRead(entry);
    NotesOfAppend(first, parked);
    NotesOfAppend(first + parked, AuxItems(entry));
    ThreadsOfAppend(NotesOf(first), NotesOf(parked));
    ThreadsOfAppend(NotesOf(first) + NotesOf(parked), NotesOf(AuxItems(entry)));
    EntryOfAppend(NotesOf(first) + NotesOf(parked), NotesOf(AuxItems(entry)));
  }

  lemma LiveAndParkedRead(values: Values, id: u32, parked: seq<Item>, entry: Option<u32>, threads: seq<Thread>)
    requires forall i | 0 <= i < |parked| :: parked[i].kind == NT_PRSTATUS
    requires ThreadsOf(NotesOf(parked)) == threads
    ensures
      var items := [Item(NT_PRSTATUS, StatusBytes(values, id))] + parked + AuxItems(entry);
      ThreadsOf(NotesOf(items)) == [ThreadOf(values, id)] + threads && EntryOf(NotesOf(items)) == entry
  {
    OneThread(values, id);
    ItemsThreads([Item(NT_PRSTATUS, StatusBytes(values, id))], parked, entry);
  }

  /** One status note (1) for each thread, then the auxiliary vector (6) if there is an
      entry point, and no other note. */
  predicate IsKinds(kinds: seq<u32>, threads: nat, entry: Option<u32>) {
    && |kinds| == threads + (if entry.Some? then 1 else 0)
    && forall i | 0 <= i < |kinds| :: kinds[i] == if i < threads then 1 else 6
  }

  /** The notes read back: the live thread, then the parked ones, and the entry. */
  lemma ItemsRead(memory: seq<byte>, live: RegMap, pc: int, capture: Capture, entry: Option<u32>)
    requires Packable(ThreadValues(live, pc))
    requires ParkedItems(memory, Others(capture.threads, capture.current)).Ok?
    ensures
      var others := Others(capture.threads, capture.current);
      var notes := NotesOf(Items(live, pc, capture, ParkedItems(memory, others).value, entry));
      var id := CurrentPriority(capture.threads, capture.current);
      && ThreadsOf(notes) == [ThreadOf(Packed(live, pc), id)] + ParkedThreads(memory, others)
      && EntryOf(notes) == entry && IsKinds(KindsOf(notes), 1 + |others|, entry)
  {
    var others := Others(capture.threads, capture.current);
    ParkedKinds(memory, others);
    ParkedItemsRead(memory, others);
    var parked := ParkedItems(memory, others).value;
    LiveAndParkedRead(Packed(live, pc), CurrentPriority(capture.threads, capture.current),
                      parked, entry, ParkedThreads(memory, others));
    ItemKinds(Item(NT_PRSTATUS, StatusBytes(Packed(live, pc), CurrentPriority(capture.threads, capture.current))),
              parked, entry);
  }

  lemma ItemKinds(first: Item, parked: seq<Item>, entry: Option<u32>)
    requires first.kind == NT_PRSTATUS && forall i | 0 <= i < |parked| :: parked[i].kind == NT_PRSTATUS
    ensures IsKinds(KindsOf(NotesOf([first] + parked + AuxItems(entry))), 1 + |parked|, entry)
  {
  }

  lemma FileRead(pc: u32, items: seq<Item>, memory: seq<byte>)
    requires Addressable(NoteStream(items), memory)
    ensures ReadCore(CoreBytes(pc, NoteStream(items), memory)) ==
      Some(CoreView(pc, ThreadsOf(NotesOf(items)), EntryOf(NotesOf(items)),
                    KindsOf(NotesOf(items)),
                    Segment(PT_LOAD, NOTE_OFFSET + |NoteStream(items)|, MEM_START, memory)))
  {
    NoteStreamRoundTrip(items, 0);
    NotesFound(pc, NoteStream(items), NotesOf(items), memory);
  }

  /** What a debugger should find: the program counter, the current thread's
      registers, each other thread's saved registers in order, the entry point when
      there is one, and every byte of memory at its address. */
  ghost predicate Shows(view: CoreView, memory: seq<byte>, live: RegMap, pcSource: RegName,
                        entry: Option<u32>, capture: Capture)
  {
    var others := Others(capture.threads, capture.current);
    && pcSource in live && Packable(ThreadValues(live, live[pcSource])) && ParkedItems(memory, others).Ok?
    && view.pc == live[pcSource]
    && view.threads == [ThreadOf(Packed(live, live[pcSource]), CurrentPriority(capture.threads, capture.current))]
                       + ParkedThreads(memory, others)
    && view.entry == entry && IsKinds(view.kinds, |view.threads|, entry)
    && ShowsMemory(view, memory)
  }

  /** Every byte of memory at its address, and no other. */
  ghost predicate ShowsMemory(view: CoreView, memory: seq<byte>) {
    forall address :: ByteAt(view, address) ==
      if 0xFFF8_0000 <= address < 0xFFF8_0000 + |memory| then Some(memory[address - 0xFFF8_0000]) else None
  }

  lemma WrittenRoundTrip(memory: seq<byte>, live: RegMap, pcSource: RegName, entry: Option<u32>, capture: Capture)
    requires pcSource in live && Written(memory, live, pcSource, entry, capture).Ok?
    ensures
      var view := ReadCore(Written(memory, live, pcSource, entry, capture).value);
      view.Some? && Shows(view.value, memory, live, pcSource, entry, capture)
  {
    var pc := live[pcSource];
    var parked := ParkedItems(memory, Others(capture.threads, capture.current)).value;
    PackablePc(live, pc);
    ItemsRead(memory, live, pc, capture, entry);
    FileRead(pc, Items(live, pc, capture, parked, entry), memory);
  }

  /** Core file round trip: a reader that follows e_phoff to the two segments of any
      core make_core writes finds everything that was captured. */
  lemma CoreRoundTrip(memory: seq<byte>, registers: RegMap, pcSource: RegName, entry: Option<u32>,
                      symbols: Option<Symbols>, faultR1: Option<int>)
    requires Captured(registers, pcSource)
    requires Build(memory, registers, pcSource, entry, symbols, faultR1).Ok?
    ensures
      var built := Build(memory, registers, pcSource, entry, symbols, faultR1).value;
      var capture := Survey(memory, registers, pcSource, symbols, faultR1).value;
      && built.threads == capture.threads && built.faultR1 == capture.faultR1
      && ReadCore(built.core).Some?
      && Shows(ReadCore(built.core).value, memory, LiveRegisters(registers, built.faultR1), pcSource, entry, capture)
  {
    var capture := Survey(memory, registers, pcSource, symbols, faultR1).value;
    WrittenRoundTrip(memory, LiveRegisters(registers, capture.faultR1), pcSource, entry, capture);
  }

  lemma ParkedSplit(memory: seq<byte>, others: seq<Tcb>)
    requires others != [] && ParkedItems(memory, others).Ok?
    ensures
      var init, last := others[..|others| - 1], others[|others| - 1];
      && ParkedItems(memory, init).Ok? && Parked(memory, last).Ok?
      && ParkedItems(memory, others).value == ParkedItems(memory, init).value + [ParkedItem(memory, last)]
      && ParkedThreads(memory, others)
         == ParkedThreads(memory, init) + [ThreadOf(Parked(memory, last).value, last.priority)]
  {
  }

  function IdsOf(threads: seq<Thread>): seq<u32> {
    seq(|threads|, i requires 0 <= i < |threads| => threads[i].id)
  }

  function Priorities(tcbs: seq<Tcb>): seq<u32> {
    seq(|tcbs|, i requires 0 <= i < |tcbs| => tcbs[i].priority)
  }

  lemma IdsOfAppend(a: seq<Thread>, t: Thread)
    ensures IdsOf(a + [t]) == IdsOf(a) + [t.id]
    ensures IdsOf([t] + a) == [t.id] + IdsOf(a)
  {
  }

  lemma PrioritiesSnoc(a: seq<Tcb>)
    requires a != []
    ensures Priorities(a) == Priorities(a[..|a| - 1]) + [a[|a| - 1].priority]
  {
  }

  lemma {:induction false} ParkedIds(memory: seq<byte>, others: seq<Tcb>)
    requires ParkedItems(memory, others).Ok?
    ensures IdsOf(ParkedThreads(memory, others)) == Priorities(others)
  {
    if others != [] {
      var init, last := others[..|others| - 1], others[|others| - 1];
      ParkedSplit(memory, others);
      ParkedIds(memory, init);
      IdsOfAppend(ParkedThreads(memory, init), ThreadOf(Parked(memory, last).value, last.priority));
      PrioritiesSnoc(others);
    }
  }

  lemma ShownIds(view: CoreView, memory: seq<byte>, live: RegMap, pcSource: RegName,
                 entry: Option<u32>, capture: Capture)
    requires Shows(view, memory, live, pcSource, entry, capture)
    ensures IdsOf(view.threads) == [CurrentPriority(capture.threads, capture.current)]
                                   + Priorities(Others(capture.threads, capture.current))
  {
    var others := Others(capture.threads, capture.current);
    ParkedIds(memory, others);
    IdsOfAppend(ParkedThreads(memory, others),
                ThreadOf(Packed(live, live[pcSource]), CurrentPriority(capture.threads, capture.current)));
  }

  lemma SurveyTables(memory: seq<byte>, registers: RegMap, pcSource: RegName, symbols: Symbols, faultR1: Option<int>)
    requires Captured(registers, pcSource) && Survey(memory, registers, pcSource, Some(symbols), faultR1).Ok?
    ensures
      var capture := Survey(memory, registers, pcSource, Some(symbols), faultR1).value;
      && Word(memory, symbols.currentThread) == Ok(capture.current)
      && ReadPriorityMap(memory, symbols.priorityMap).Ok?
      && capture.threads == NonNull(ReadPriorityMap(memory, symbols.priorityMap).value)
  {
  }

  /** The threads a debugger finds in a core built with PK symbols carry, in order,
      the id of the running thread and the priorities of the parked ones. */
  lemma CoreThreadIds(memory: seq<byte>, registers: RegMap, pcSource: RegName, entry: Option<u32>,
                      symbols: Symbols, faultR1: Option<int>)
    requires Captured(registers, pcSource)
    requires Build(memory, registers, pcSource, entry, Some(symbols), faultR1).Ok?
    ensures Word(memory, symbols.currentThread).Ok? && ReadPriorityMap(memory, symbols.priorityMap).Ok?
    ensures
      var view := ReadCore(Build(memory, registers, pcSource, entry, Some(symbols), faultR1).value.core);
      var threads := NonNull(ReadPriorityMap(memory, symbols.priorityMap).value);
      var current := Word(memory, symbols.currentThread).value;
      && view.Some?
      && IdsOf(view.value.threads) == [CurrentPriority(threads, current)] + Priorities(Others(threads, current))
  {
    CoreRoundTrip(memory, registers, pcSource, entry, Some(symbols), faultR1);
    SurveyTables(memory, registers, pcSource, symbols, faultR1);
    var built := Build(memory, registers, pcSource, entry, Some(symbols), faultR1).value;
    var capture := Survey(memory, registers, pcSource, Some(symbols), faultR1).value;
    ShownIds(ReadCore(built.core).value, memory, LiveRegisters(registers, built.faultR1), pcSource, entry, capture);
  }

  /** Priority p of the map belongs to a parked thread. */
  predicate IsParked(words: seq<u32>, current: u32, p: nat) {
    p < |words| && words[p] != 0 && words[p] != current
  }

  predicate IsRunning(words: seq<u32>, current: u32, p: nat) {
    p < |words| && words[p] != 0 && words[p] == current
  }

  lemma PriorityListed(tcbs: seq<Tcb>, t: Tcb)
    requires t in tcbs
    ensures t.priority in Priorities(tcbs)
  {
    var i :| 0 <= i < |tcbs| && tcbs[i] == t;
    assert Priorities(tcbs)[i] == t.priority;
  }

  lemma ListedPriority(tcbs: seq<Tcb>, p: u32) returns (t: Tcb)
    requires p in Priorities(tcbs)
    ensures t in tcbs && t.priority == p
  {
    var i :| 0 <= i < |tcbs| && Priorities(tcbs)[i] == p;
    t := tcbs[i];
  }

  lemma ParkedListed(words: seq<u32>, current: u32, p: u32)
    requires |words| == PK_THREADS
    ensures p in Priorities(Others(NonNull(words), current)) <==> IsParked(words, current, p)
  {
    var others := Others(NonNull(words), current);
    NonNullExact(words);
    OthersExact(NonNull(words), current);
    if p in Priorities(others) {
      var t := ListedPriority(others, p);
    }
    if IsParked(words, current, p) {
      PriorityListed(others, Tcb(p, words[p]));
    }
  }

  /** The parked threads' ids are the parked priorities, each once, ascending. */
  lemma ParkedIdsExact(words: seq<u32>, current: u32)
    requires |words| == PK_THREADS
    ensures
      var ids := Priorities(Others(NonNull(words), current));
      && (forall i, j | 0 <= i < j < |ids| :: ids[i] < ids[j])
      && (forall p: u32 :: p in ids <==> IsParked(words, current, p))
  {
    forall p: u32
      ensures p in Priorities(Others(NonNull(words), current)) <==> IsParked(words, current, p)
    {
      ParkedListed(words, current, p);
    }
    NonNullExact(words);
    OthersExact(NonNull(words), current);
  }

  lemma RunningListed(words: seq<u32>, current: u32, p: u32)
    requires |words| == PK_THREADS
    ensures IsRunning(words, current, p) <==> current != 0 && Tcb(p, current) in NonNull(words)
  {
    NonNullExact(words);
  }

  /** The live CPU's id is the first priority under which the map lists the running
      thread, or 32 if it lists it nowhere; either way no parked thread has it. */
  lemma LiveIdExact(words: seq<u32>, current: u32)
    requires |words| == PK_THREADS
    ensures
      var id := CurrentPriority(NonNull(words), current);
      && (IsRunning(words, current, id) || (id == 32 && forall p: u32 :: !IsRunning(words, current, p)))
      && (forall p: u32 | IsRunning(words, current, p) :: id <= p)
      && id !in Priorities(Others(NonNull(words), current))
  {
    var threads := NonNull(words);
    var id := CurrentPriority(threads, current);
    LiveIdListed(words, current);
    ParkedListed(words, current, id);
    forall p: u32 | IsRunning(words, current, p)
      ensures id <= p
    {
      LiveIdFirst(words, current, p);
    }
  }

  lemma LiveIdFirst(words: seq<u32>, current: u32, p: u32)
    requires |words| == PK_THREADS && IsRunning(words, current, p)
    ensures CurrentPriority(NonNull(words), current) <= p
  {
    NonNullExact(words);
    CurrentPriorityFirst(NonNull(words), current, Tcb(p, current));
  }

  lemma LiveIdListed(words: seq<u32>, current: u32)
    requires |words| == PK_THREADS
    ensures
      var id := CurrentPriority(NonNull(words), current);
      IsRunning(words, current, id) || (id == 32 && forall p: u32 :: !IsRunning(words, current, p))
  {
    var threads := NonNull(words);
    var id := CurrentPriority(threads, current);
    CurrentPriorityExact(threads, current);
    if t :| t in threads && t.address == current && t.priority == id {
      NonNullExact(words);
    } else {
      forall p: u32
        ensures !IsRunning(words, current, p)
      {
        RunningListed(words, current, p);
      }
    }
  }

  // ---------------------------------------------------------------------------
  // The registers in the file
  // ---------------------------------------------------------------------------

  lemma {:induction false} ParkedThreadAt(memory: seq<byte>, others: seq<Tcb>, i: nat)
    requires ParkedItems(memory, others).Ok? && i < |others|
    ensures Parked(memory, others[i]).Ok?
    ensures ParkedThreads(memory, others)[i] == ThreadOf(Parked(memory, others[i]).value, others[i].priority)
    decreases |others|
  {
    ParkedSplit(memory, others);
    if i < |others| - 1 {
      ParkedThreadAt(memory, others[..|others| - 1], i);
    }
  }

  /** The live thread comes first in the file, the parked ones follow. */
  lemma ShownThreads(view: CoreView, memory: seq<byte>, live: RegMap, pcSource: RegName,
                     entry: Option<u32>, capture: Capture)
    requires Shows(view, memory, live, pcSource, entry, capture)
    ensures
      var parked := ParkedThreads(memory, Others(capture.threads, capture.current));
      && |view.threads| == 1 + |parked|
      && view.threads[0]
         == ThreadOf(Packed(live, live[pcSource]), CurrentPriority(capture.threads, capture.current))
      && forall i | 0 <= i < |parked| :: view.threads[i + 1] == parked[i]
  {
    FirstAndRest(view.threads, ThreadOf(Packed(live, live[pcSource]), CurrentPriority(capture.threads, capture.current)),
                 ParkedThreads(memory, Others(capture.threads, capture.current)));
  }

  lemma FirstAndRest(threads: seq<Thread>, first: Thread, rest: seq<Thread>)
    requires threads == [first] + rest
    ensures |threads| == 1 + |rest| && threads[0] == first
    ensures forall i | 0 <= i < |rest| :: threads[i + 1] == rest[i]
  {
  }

  /** The thread is the one made from the context that this TCB leads to. */
  predicate IsSaved(t: Thread, memory: seq<byte>, tcb: Tcb) {
    Parked(memory, tcb).Ok? && t == ThreadOf(Parked(memory, tcb).value, tcb.priority)
  }

  lemma ParkedIsSaved(view: CoreView, memory: seq<byte>, live: RegMap, pcSource: RegName,
                      entry: Option<u32>, capture: Capture, i: nat)
    requires Shows(view, memory, live, pcSource, entry, capture)
    requires i < |Others(capture.threads, capture.current)|
    ensures |view.threads| > i + 1 && IsSaved(view.threads[i + 1], memory, Others(capture.threads, capture.current)[i])
  {
    var others := Others(capture.threads, capture.current);
    ParkedThreadAt(memory, others, i);
    ShownThreads(view, memory, live, pcSource, entry, capture);
    var parked := ParkedThreads(memory, others);
    assert view.threads[i + 1] == parked[i];
  }

  /** The thread shows the context that the TCB at this address leads to. */
  predicate ShowsTcb(t: Thread, memory: seq<byte>, tcb: int) {
    InPibmem(memory, tcb) && ShowsContext(t, memory, Word(memory, tcb).value)
  }

  /** Each parked thread of a core shows the context saved at the stack pointer its TCB
      holds. */
  lemma ParkedRegisters(view: CoreView, memory: seq<byte>, live: RegMap, pcSource: RegName,
                        entry: Option<u32>, capture: Capture, i: nat)
    requires Shows(view, memory, live, pcSource, entry, capture)
    requires i < |Others(capture.threads, capture.current)|
    ensures
      var tcb := Others(capture.threads, capture.current)[i];
      && |view.threads| > i + 1 && view.threads[i + 1].id == tcb.priority
      && ShowsTcb(view.threads[i + 1], memory, tcb.address)
  {
    ParkedIsSaved(view, memory, live, pcSource, entry, capture, i);
    SavedShows(view.threads[i + 1], memory, Others(capture.threads, capture.current)[i]);
  }

  lemma SavedShows(t: Thread, memory: seq<byte>, tcb: Tcb)
    requires IsSaved(t, memory, tcb)
    ensures t.id == tcb.priority && ShowsTcb(t, memory, tcb.address)
  {
    SavedContext(memory, Word(memory, tcb.address).value, tcb.priority);
  }

  /** make_core searches for the interrupted stack only below a running thread, for
      srr0 and without an override. */
  predicate Recovers(memory: seq<byte>, pcSource: RegName, symbols: Option<Symbols>, faultR1: Option<int>) {
    && symbols.Some? && pcSource == SRR0 && faultR1.None?
    && InPibmem(memory, symbols.value.currentThread)
    && Word(memory, symbols.value.currentThread).value != 0
  }

  /** c is the stack pointer to recover for the thread with this TCB: the least 8-aligned
      address from the live one or the stack limit (second TCB word) up to the stack base
      (third TCB word) that starts a backchain. */
  ghost predicate IsInterruptedStack(memory: seq<byte>, liveSp: int, tcb: int, c: int) {
    && InPibmem(memory, tcb + 4) && InPibmem(memory, tcb + 8)
    && var limit, base := Word(memory, tcb + 4).value, Word(memory, tcb + 8).value;
    && liveSp <= c && limit <= c < base && c % 8 == 0 && Qualifies(memory, base, c)
    && forall d | liveSp <= d && limit <= d < c && d % 8 == 0 :: !Qualifies(memory, base, d)
  }

  lemma SearchFinds(memory: seq<byte>, liveSp: int, limit: int, base: int, c: int)
    requires FaultStackPointerSpec(memory, liveSp, limit, base) == Ok(c)
    ensures liveSp <= c && limit <= c < base && c % 8 == 0 && Qualifies(memory, base, c)
    ensures forall d | liveSp <= d && limit <= d < c && d % 8 == 0 :: !Qualifies(memory, base, d)
  {
    var first := RoundUp8(Higher(liveSp, limit));
    SearchExact(memory, base, first, c);
    assert Candidate(first, base, c);
    forall d | liveSp <= d && limit <= d < c && d % 8 == 0
      ensures !Qualifies(memory, base, d)
    {
      assert Candidate(first, base, d);
    }
  }

  lemma SurveyStack(memory: seq<byte>, registers: RegMap, pcSource: RegName,
                    symbols: Option<Symbols>, faultR1: Option<int>)
    requires Captured(registers, pcSource) && Survey(memory, registers, pcSource, symbols, faultR1).Ok?
    ensures
      var reported := Survey(memory, registers, pcSource, symbols, faultR1).value.faultR1;
      if Recovers(memory, pcSource, symbols, faultR1)
      then reported.Some? && IsInterruptedStack(memory, registers[Gpr(1)],
                                                Word(memory, symbols.value.currentThread).value, reported.value)
      else reported == faultR1
  {
    if Recovers(memory, pcSource, symbols, faultR1) {
      var current: int := Word(memory, symbols.value.currentThread).value;
      var limit, base := Word(memory, current + 4).value, Word(memory, current + 8).value;
      var reported := Survey(memory, registers, pcSource, symbols, faultR1).value.faultR1;
      SearchFinds(memory, registers[Gpr(1)], limit, base, reported.value);
    }
  }

  /** The live thread of a core: every captured register but r1, absent ones as 0, and r1
      as it was left by the search; the program counter twice. */
  predicate ShowsLive(view: CoreView, registers: RegMap, pcSource: RegName, faultR1: Option<int>) {
    && pcSource in registers && |view.threads| > 0
    && var t := view.threads[0];
    && |t.gprs| == 32 && (forall r | 0 <= r < 32 && r != 1 :: t.gprs[r] == Get(registers, Gpr(r)))
    && t.gprs[1] == (if faultR1.Some? then faultR1.value else Get(registers, Gpr(1)))
    && t.nip == registers[pcSource] && view.pc == registers[pcSource]
    && t.msr == Get(registers, MSR) && t.ctr == Get(registers, CTR) && t.link == Get(registers, LR)
    && t.xer == Get(registers, XER) && t.ccr == Get(registers, CR) && t.origR3 == 0
  }

  lemma LiveFields(memory: seq<byte>, registers: RegMap, pcSource: RegName, entry: Option<u32>,
                   symbols: Option<Symbols>, faultR1: Option<int>)
    requires Captured(registers, pcSource)
    requires Build(memory, registers, pcSource, entry, symbols, faultR1).Ok?
    ensures
      var built := Build(memory, registers, pcSource, entry, symbols, faultR1).value;
      && Survey(memory, registers, pcSource, symbols, faultR1).Ok?
      && built.faultR1 == Survey(memory, registers, pcSource, symbols, faultR1).value.faultR1
      && ReadCore(built.core).Some? && ShowsLive(ReadCore(built.core).value, registers, pcSource, built.faultR1)
  {
    CoreRoundTrip(memory, registers, pcSource, entry, symbols, faultR1);
    var built := Build(memory, registers, pcSource, entry, symbols, faultR1).value;
    LiveShown(ReadCore(built.core).value, memory, registers, pcSource, entry,
              Survey(memory, registers, pcSource, symbols, faultR1).value, built.faultR1);
  }

  lemma LiveShown(view: CoreView, memory: seq<byte>, registers: RegMap, pcSource: RegName,
                  entry: Option<u32>, capture: Capture, faultR1: Option<int>)
    requires Captured(registers, pcSource)
    requires Shows(view, memory, LiveRegisters(registers, faultR1), pcSource, entry, capture)
    ensures ShowsLive(view, registers, pcSource, faultR1)
  {
    var live := LiveRegisters(registers, faultR1);
    ShownThreads(view, memory, live, pcSource, entry, capture);
    ThreadFields(live, live[pcSource], CurrentPriority(capture.threads, capture.current));
    LiveKeeps(registers, pcSource, faultR1);
  }

  /** Only r1 is ever replaced. */
  lemma LiveKeeps(registers: RegMap, pcSource: RegName, faultR1: Option<int>)
    requires Captured(registers, pcSource)
    ensures
      var live := LiveRegisters(registers, faultR1);
      && pcSource in live && live[pcSource] == registers[pcSource]
      && (forall name | name != Gpr(1) :: Get(live, name) == Get(registers, name))
      && Get(live, Gpr(1)) == if faultR1.Some? then faultR1.value else Get(registers, Gpr(1))
  {
  }

  /** Without symbols, and without an override of r1, a core holds the captured CPU alone:
      one thread, under id 32, with every register as captured. */
  lemma CoreWithoutSymbols(memory: seq<byte>, registers: RegMap, pcSource: RegName, entry: Option<u32>)
    requires Captured(registers, pcSource)
    requires Build(memory, registers, pcSource, entry, None, None).Ok?
    ensures
      var view := ReadCore(Build(memory, registers, pcSource, entry, None, None).value.core);
      && view.Some? && |view.value.threads| == 1 && view.value.threads[0].id == 32
      && ShowsLive(view.value, registers, pcSource, None)
  {
    CoreRoundTrip(memory, registers, pcSource, entry, None, None);
    LiveFields(memory, registers, pcSource, entry, None, None);
    var built := Build(memory, registers, pcSource, entry, None, None).value;
    ShownIds(ReadCore(built.core).value, memory, LiveRegisters(registers, built.faultR1), pcSource, entry,
             Capture([], 0, None));
    assert Others([], 0) == [] && IdsOf(ReadCore(built.core).value.threads)[0] == 32;
  }

  lemma TcbOfEntry(words: seq<u32>, current: u32, others: seq<Tcb>, i: nat)
    requires |words| == PK_THREADS && others == Others(NonNull(words), current) && i < |others|
    ensures
      var p := others[i].priority;
      p < 32 && IsParked(words, current, p) && words[p] == others[i].address
  {
    InOthers(words, current, others[i]);
  }

  lemma ParkedEntry(memory: seq<byte>, others: seq<Tcb>, words: seq<u32>, current: u32, i: nat, t: Thread)
    requires |words| == PK_THREADS && others == Others(NonNull(words), current)
    requires i < |others| && IsSaved(t, memory, others[i])
    ensures FromMap(t, memory, words, current)
  {
    TcbOfEntry(words, current, others, i);
  }

  /** Entry p of the priority map belongs to a parked thread, told from the image. */
  predicate ParkedInMap(memory: seq<byte>, symbols: Symbols, p: nat) {
    && p < 32 && InPibmem(memory, symbols.currentThread) && InPibmem(memory, symbols.priorityMap + 4 * p)
    && Word(memory, symbols.priorityMap + 4 * p).value != 0
    && Word(memory, symbols.priorityMap + 4 * p).value != Word(memory, symbols.currentThread).value
  }

  /** Thread t shows the context saved at the stack pointer of the TCB listed under its id. */
  predicate ShowsListed(t: Thread, memory: seq<byte>, symbols: Symbols) {
    && ParkedInMap(memory, symbols, t.id)
    && ShowsTcb(t, memory, Word(memory, symbols.priorityMap + 4 * t.id).value)
  }

  lemma MapTells(memory: seq<byte>, symbols: Symbols, p: nat)
    requires InPibmem(memory, symbols.currentThread) && ReadPriorityMap(memory, symbols.priorityMap).Ok?
    ensures
      var words := ReadPriorityMap(memory, symbols.priorityMap).value;
      && (p < 32 ==> Word(memory, symbols.priorityMap + 4 * p) == Ok(words[p]))
      && (ParkedInMap(memory, symbols, p) <==> IsParked(words, Word(memory, symbols.currentThread).value, p))
  {
    if p < 32 {
      MapEntry(memory, symbols.priorityMap, p);
    }
  }

  /** The parked threads in the file: whatever stands behind the live one belongs to a
      priority whose map entry is a TCB other than the running one, and shows the
      context saved at that TCB's stack pointer. */
  lemma ParkedThreadsInFile(memory: seq<byte>, registers: RegMap, pcSource: RegName, entry: Option<u32>,
                            symbols: Symbols, faultR1: Option<int>, n: nat) returns (view: CoreView)
    requires Captured(registers, pcSource)
    requires Build(memory, registers, pcSource, entry, Some(symbols), faultR1).Ok?
    ensures ReadCore(Build(memory, registers, pcSource, entry, Some(symbols), faultR1).value.core) == Some(view)
    ensures 1 <= n < |view.threads| ==> ShowsListed(view.threads[n], memory, symbols)
  {
    var current, words;
    view, current, words := BuiltParked(memory, registers, pcSource, entry, symbols, faultR1, n);
    if 1 <= n < |view.threads| {
      ListedFrom(view.threads[n], memory, symbols, words, current);
    }
  }

  lemma BuiltParked(memory: seq<byte>, registers: RegMap, pcSource: RegName, entry: Option<u32>,
                    symbols: Symbols, faultR1: Option<int>, n: nat)
    returns (view: CoreView, current: u32, words: seq<u32>)
    requires Captured(registers, pcSource)
    requires Build(memory, registers, pcSource, entry, Some(symbols), faultR1).Ok?
    ensures ReadCore(Build(memory, registers, pcSource, entry, Some(symbols), faultR1).value.core) == Some(view)
    ensures Word(memory, symbols.currentThread) == Ok(current)
    ensures |words| == PK_THREADS && ReadPriorityMap(memory, symbols.priorityMap) == Ok(words)
    ensures 1 <= n < |view.threads| ==>
      var t := view.threads[n];
      t.id < 32 && IsParked(words, current, t.id) && ShowsTcb(t, memory, words[t.id])
  {
    var live, capture;
    view, live, capture, words := BuiltView(memory, registers, pcSource, entry, symbols, faultR1);
    current := capture.current;
    if 1 <= n < |view.threads| {
      ParkedShown(view, memory, live, pcSource, entry, capture, words, n);
    }
  }

  lemma ParkedShown(view: CoreView, memory: seq<byte>, live: RegMap, pcSource: RegName,
                    entry: Option<u32>, capture: Capture, words: seq<u32>, n: nat)
    requires Shows(view, memory, live, pcSource, entry, capture)
    requires |words| == PK_THREADS && capture.threads == NonNull(words) && 1 <= n < |view.threads|
    ensures
      var t := view.threads[n];
      t.id < 32 && IsParked(words, capture.current, t.id) && ShowsTcb(t, memory, words[t.id])
  {
    NthParked(view, memory, live, pcSource, entry, capture, n);
    NthShown(view.threads[n], memory, Others(capture.threads, capture.current), words, capture.current, n - 1);
  }

  lemma NthShown(t: Thread, memory: seq<byte>, others: seq<Tcb>, words: seq<u32>, current: u32, k: nat)
    requires |words| == PK_THREADS && others == Others(NonNull(words), current)
    requires ParkedItems(memory, others).Ok? && k < |others| && t == ParkedThreads(memory, others)[k]
    ensures t.id < 32 && IsParked(words, current, t.id) && ShowsTcb(t, memory, words[t.id])
  {
    ParkedFromMap(t, memory, others, words, current, k);
    FromMapShows(t, memory, words, current);
  }

  /** A core built with symbols, what a debugger finds in it, and what it was built from. */
  lemma BuiltView(memory: seq<byte>, registers: RegMap, pcSource: RegName, entry: Option<u32>,
                  symbols: Symbols, faultR1: Option<int>)
    returns (view: CoreView, live: RegMap, capture: Capture, words: seq<u32>)
    requires Captured(registers, pcSource)
    requires Build(memory, registers, pcSource, entry, Some(symbols), faultR1).Ok?
    ensures ReadCore(Build(memory, registers, pcSource, entry, Some(symbols), faultR1).value.core) == Some(view)
    ensures Shows(view, memory, live, pcSource, entry, capture)
    ensures Word(memory, symbols.currentThread) == Ok(capture.current)
    ensures |words| == PK_THREADS && ReadPriorityMap(memory, symbols.priorityMap) == Ok(words)
    ensures capture.threads == NonNull(words)
  {
    CoreRoundTrip(memory, registers, pcSource, entry, Some(symbols), faultR1);
    SurveyTables(memory, registers, pcSource, symbols, faultR1);
    var built := Build(memory, registers, pcSource, entry, Some(symbols), faultR1).value;
    view, live := ReadCore(built.core).value, LiveRegisters(registers, built.faultR1);
    capture := Survey(memory, registers, pcSource, Some(symbols), faultR1).value;
    words := ReadPriorityMap(memory, symbols.priorityMap).value;
  }

  lemma NthParked(view: CoreView, memory: seq<byte>, live: RegMap, pcSource: RegName,
                  entry: Option<u32>, capture: Capture, n: nat)
    requires Shows(view, memory, live, pcSource, entry, capture)
    requires 1 <= n < |view.threads|
    ensures
      var others := Others(capture.threads, capture.current);
      && ParkedItems(memory, others).Ok? && n - 1 < |others|
      && view.threads[n] == ParkedThreads(memory, others)[n - 1]
  {
    ShownThreads(view, memory, live, pcSource, entry, capture);
    assert view.threads[(n - 1) + 1] == ParkedThreads(memory, Others(capture.threads, capture.current))[n - 1];
  }

  /** And none is missing: they ascend by id, and every such priority has its thread. */
  lemma ParkedThreadsComplete(memory: seq<byte>, registers: RegMap, pcSource: RegName, entry: Option<u32>,
                              symbols: Symbols, faultR1: Option<int>) returns (view: CoreView)
    requires Captured(registers, pcSource)
    requires Build(memory, registers, pcSource, entry, Some(symbols), faultR1).Ok?
    ensures ReadCore(Build(memory, registers, pcSource, entry, Some(symbols), faultR1).value.core) == Some(view)
    ensures forall i, j | 1 <= i < j < |view.threads| :: view.threads[i].id < view.threads[j].id
    ensures forall p: nat | ParkedInMap(memory, symbols, p) ::
      exists i :: 1 <= i < |view.threads| && view.threads[i].id == p
  {
    var live, capture, words;
    view, live, capture, words := BuiltView(memory, registers, pcSource, entry, symbols, faultR1);
    ListedIds(view, memory, live, pcSource, entry, capture, words);
    MapInThreads(view.threads, memory, symbols);
  }

  /** Thread t belongs to entry t.id of the map. */
  predicate FromMap(t: Thread, memory: seq<byte>, words: seq<u32>, current: u32)
    requires |words| == PK_THREADS
  {
    t.id < 32 && IsParked(words, current, t.id) && IsSaved(t, memory, Tcb(t.id, words[t.id]))
  }

  lemma ParkedFromMap(t: Thread, memory: seq<byte>, others: seq<Tcb>, words: seq<u32>, current: u32, k: nat)
    requires |words| == PK_THREADS && others == Others(NonNull(words), current)
    requires ParkedItems(memory, others).Ok? && k < |others| && t == ParkedThreads(memory, others)[k]
    ensures FromMap(t, memory, words, current)
  {
    ParkedThreadAt(memory, others, k);
    ParkedEntry(memory, others, words, current, k, t);
  }

  lemma FromMapShows(t: Thread, memory: seq<byte>, words: seq<u32>, current: u32)
    requires |words| == PK_THREADS && FromMap(t, memory, words, current)
    ensures ShowsTcb(t, memory, words[t.id])
  {
    SavedShows(t, memory, Tcb(t.id, words[t.id]));
  }

  lemma MapInThreads(threads: seq<Thread>, memory: seq<byte>, symbols: Symbols)
    requires InPibmem(memory, symbols.currentThread) && ReadPriorityMap(memory, symbols.priorityMap).Ok?
    requires
      var words := ReadPriorityMap(memory, symbols.priorityMap).value;
      forall p: nat | IsParked(words, Word(memory, symbols.currentThread).value, p) ::
        exists i :: 1 <= i < |threads| && threads[i].id == p
    ensures forall p: nat | ParkedInMap(memory, symbols, p) :: exists i :: 1 <= i < |threads| && threads[i].id == p
  {
    forall p: nat | ParkedInMap(memory, symbols, p)
      ensures exists i :: 1 <= i < |threads| && threads[i].id == p
    {
      MapTells(memory, symbols, p);
    }
  }

  lemma IdsBehindFirst(threads: seq<Thread>, first: u32, ids: seq<u32>)
    requires IdsOf(threads) == [first] + ids
    ensures |threads| == 1 + |ids| && forall i | 1 <= i < |threads| :: threads[i].id == ids[i - 1]
  {
    assert |IdsOf(threads)| == |threads|;
    forall i | 1 <= i < |threads|
      ensures threads[i].id == ids[i - 1]
    {
      assert IdsOf(threads)[i] == threads[i].id;
    }
  }

  lemma ListedFrom(t: Thread, memory: seq<byte>, symbols: Symbols, words: seq<u32>, current: u32)
    requires Word(memory, symbols.currentThread) == Ok(current)
    requires ReadPriorityMap(memory, symbols.priorityMap) == Ok(words)
    requires t.id < 32 && IsParked(words, current, t.id) && ShowsTcb(t, memory, words[t.id])
    ensures ShowsListed(t, memory, symbols)
  {
    MapTells(memory, symbols, t.id);
  }

  lemma ListedIds(view: CoreView, memory: seq<byte>, live: RegMap, pcSource: RegName,
                  entry: Option<u32>, capture: Capture, words: seq<u32>)
    requires Shows(view, memory, live, pcSource, entry, capture)
    requires |words| == PK_THREADS && capture.threads == NonNull(words)
    ensures |view.threads| == 1 + |Others(capture.threads, capture.current)|
    ensures forall i, j | 1 <= i < j < |view.threads| :: view.threads[i].id < view.threads[j].id
    ensures forall p: nat | IsParked(words, capture.current, p) ::
      exists i :: 1 <= i < |view.threads| && view.threads[i].id == p
  {
    ShownIds(view, memory, live, pcSource, entry, capture);
    ParkedIdsExact(words, capture.current);
    IdsTell(view.threads, CurrentPriority(capture.threads, capture.current),
            Priorities(Others(capture.threads, capture.current)), words, capture.current);
  }

  lemma IdsTell(threads: seq<Thread>, first: u32, ids: seq<u32>, words: seq<u32>, current: u32)
    requires IdsOf(threads) == [first] + ids
    requires forall i, j | 0 <= i < j < |ids| :: ids[i] < ids[j]
    requires |words| == PK_THREADS && forall p: u32 :: p in ids <==> IsParked(words, current, p)
    ensures |threads| == 1 + |ids|
    ensures forall i, j | 1 <= i < j < |threads| :: threads[i].id < threads[j].id
    ensures forall p: nat | IsParked(words, current, p) :: exists i :: 1 <= i < |threads| && threads[i].id == p
  {
    IdsBehindFirst(threads, first, ids);
    forall p: nat | IsParked(words, current, p)
      ensures exists i :: 1 <= i < |threads| && threads[i].id == p
    {
      assert p in ids;
      var k :| 0 <= k < |ids| && ids[k] == p;
      assert threads[k + 1].id == p;
    }
  }

  /** The stack pointer in the file: the live thread's r1 is the interrupted one where
      make_core recovers it, else the override, else the captured one. */
  lemma LiveStackPointer(memory: seq<byte>, registers: RegMap, pcSource: RegName, entry: Option<u32>,
                         symbols: Option<Symbols>, faultR1: Option<int>)
    requires Captured(registers, pcSource)
    requires Build(memory, registers, pcSource, entry, symbols, faultR1).Ok?
    ensures
      var view := ReadCore(Build(memory, registers, pcSource, entry, symbols, faultR1).value.core);
      && view.Some? && |view.value.threads| > 0 && |view.value.threads[0].gprs| == 32
      && var r1 := view.value.threads[0].gprs[1];
      if Recovers(memory, pcSource, symbols, faultR1)
      then IsInterruptedStack(memory, registers[Gpr(1)], Word(memory, symbols.value.currentThread).value, r1)
      else r1 == if faultR1.Some? then faultR1.value else registers[Gpr(1)]
  {
    SurveyStack(memory, registers, pcSource, symbols, faultR1);
    LiveFields(memory, registers, pcSource, entry, symbols, faultR1);
  }

  /** What main does with a capture: restores the LR, then builds the core. */
  method CaptureCore(memory: seq<byte>, registers: RegisterFile, pcSource: RegName, entry: Option<u32>,
                     symbols: Option<Symbols>, faultR1: Option<int>) returns (r: Result<Built>)
    requires Captured(registers.values, pcSource)
    modifies registers
    ensures r == Build(memory, Restored(memory, old(registers.values), pcSource), pcSource, entry, symbols, faultR1)
  {
    registers.RestoreFaultLr(memory, pcSource);
    r := MakeCore(memory, registers, pcSource, entry, symbols, faultR1);
  }

  lemma RestoredRegisters(memory: seq<byte>, registers: RegMap, pcSource: RegName)
    requires Captured(registers, pcSource)
    ensures
      var given := Restored(memory, registers, pcSource);
      && Captured(given, pcSource) && given[pcSource] == registers[pcSource]
      && if pcSource == SRR0 && FfdcMatches(memory, registers)
         then Word(memory, registers[SPRG0] + 16) == Ok(Get(given, LR))
         else given == registers
  {
  }

  /** The link register in the file: the live thread shows the LR the FFDC saved exactly
      when the FFDC matches the fault, else the captured one; the program counter is the
      captured one either way. */
  lemma LiveLinkRegister(memory: seq<byte>, registers: RegMap, pcSource: RegName, entry: Option<u32>,
                         symbols: Option<Symbols>, faultR1: Option<int>)
    requires Captured(registers, pcSource)
    requires Build(memory, Restored(memory, registers, pcSource), pcSource, entry, symbols, faultR1).Ok?
    ensures
      var built := Build(memory, Restored(memory, registers, pcSource), pcSource, entry, symbols, faultR1).value;
      var view := ReadCore(built.core);
      && view.Some? && |view.value.threads| > 0
      && view.value.threads[0].nip == view.value.pc == registers[pcSource]
      && if pcSource == SRR0 && FfdcMatches(memory, registers)
         then Word(memory, registers[SPRG0] + 16) == Ok(view.value.threads[0].link)
         else view.value.threads[0].link == Get(registers, LR)
  {
    var given := Restored(memory, registers, pcSource);
    LiveFields(memory, given, pcSource, entry, symbols, faultR1);
    RestoredRegisters(memory, registers, pcSource);
  }

  // ---------------------------------------------------------------------------
  // When it succeeds
  // ---------------------------------------------------------------------------

  lemma ParkedOneMore(memory: seq<byte>, others: seq<Tcb>)
    requires others != []
    ensures ParkedItems(memory, others).Ok? <==>
      ParkedItems(memory, others[..|others| - 1]).Ok? && Parked(memory, others[|others| - 1]).Ok?
  {
  }

  lemma {:induction false} ParkedExactly(memory: seq<byte>, others: seq<Tcb>)
    ensures ParkedItems(memory, others).Ok? <==> forall t | t in others :: Parked(memory, t).Ok?
  {
    if others != [] {
      ParkedExactly(memory, others[..|others| - 1]);
      ParkedOneMore(memory, others);
      SnocMembers(others);
    }
  }

  /** No status note is longer than 268 bytes. */
  lemma {:induction false} StreamBound(items: seq<Item>)
    requires forall i | 0 <= i < |items| :: |items[i].data| <= STATUS_SIZE
    ensures |NoteStream(items)| <= 272 * |items|
  {
    if items != [] {
      var last := items[|items| - 1];
      StreamBound(items[..|items| - 1]);
      NoteSize(last.kind, last.data);
    }
  }

  lemma {:induction false} ParkedSizes(memory: seq<byte>, others: seq<Tcb>)
    requires ParkedItems(memory, others).Ok?
    ensures forall i | 0 <= i < |others| :: |ParkedItems(memory, others).value[i].data| <= STATUS_SIZE
  {
    if others != [] {
      ParkedSplit(memory, others);
      ParkedSizes(memory, others[..|others| - 1]);
    }
  }

  lemma ItemsBound(first: Item, parked: seq<Item>, aux: seq<Item>)
    requires |first.data| <= STATUS_SIZE && |parked| <= PK_THREADS && |aux| <= 1
    requires forall i | 0 <= i < |parked| :: |parked[i].data| <= STATUS_SIZE
    requires forall i | 0 <= i < |aux| :: |aux[i].data| <= STATUS_SIZE
    ensures NOTE_OFFSET + |NoteStream([first] + parked + aux)| < TWO32
  {
    StreamBound([first] + parked + aux);
  }

  lemma NotesFit(memory: seq<byte>, live: RegMap, pc: int, capture: Capture, entry: Option<u32>)
    requires Packable(ThreadValues(live, pc)) && |capture.threads| <= PK_THREADS
    requires ParkedItems(memory, Others(capture.threads, capture.current)).Ok?
    ensures
      var items := Items(live, pc, capture, ParkedItems(memory, Others(capture.threads, capture.current)).value, entry);
      NOTE_OFFSET + |NoteStream(items)| < TWO32
  {
    var others := Others(capture.threads, capture.current);
    var id := CurrentPriority(capture.threads, capture.current);
    ParkedSizes(memory, others);
    ItemsBound(Item(NT_PRSTATUS, StatusBytes(Packed(live, pc), id)), ParkedItems(memory, others).value, AuxItems(entry));
  }

  lemma WrittenWhen(memory: seq<byte>, live: RegMap, pcSource: RegName, entry: Option<u32>, capture: Capture)
    requires pcSource in live
    ensures Written(memory, live, pcSource, entry, capture).Ok? <==>
      && Packable(ThreadValues(live, live[pcSource]))
      && var parked := ParkedItems(memory, Others(capture.threads, capture.current));
      parked.Ok? && Addressable(NoteStream(Items(live, live[pcSource], capture, parked.value, entry)), memory)
  {
  }

  lemma WrittenExactly(memory: seq<byte>, live: RegMap, pcSource: RegName, entry: Option<u32>, capture: Capture)
    requires pcSource in live && |capture.threads| <= PK_THREADS
    ensures Written(memory, live, pcSource, entry, capture).Ok? <==>
      && Packable(ThreadValues(live, live[pcSource]))
      && (forall t | t in Others(capture.threads, capture.current) :: Parked(memory, t).Ok?)
      && |memory| < TWO32
  {
    ParkedExactly(memory, Others(capture.threads, capture.current));
    WrittenWhen(memory, live, pcSource, entry, capture);
    if Packable(ThreadValues(live, live[pcSource]))
       && ParkedItems(memory, Others(capture.threads, capture.current)).Ok? {
      NotesFit(memory, live, live[pcSource], capture, entry);
    }
  }

  lemma SurveyBound(memory: seq<byte>, registers: RegMap, pcSource: RegName,
                    symbols: Option<Symbols>, faultR1: Option<int>)
    requires Captured(registers, pcSource) && Survey(memory, registers, pcSource, symbols, faultR1).Ok?
    ensures |Survey(memory, registers, pcSource, symbols, faultR1).value.threads| <= PK_THREADS
  {
  }

  lemma BuildSucceedsWhen(memory: seq<byte>, registers: RegMap, pcSource: RegName, entry: Option<u32>,
                          symbols: Option<Symbols>, faultR1: Option<int>)
    requires Captured(registers, pcSource)
    ensures
      var survey := Survey(memory, registers, pcSource, symbols, faultR1);
      Build(memory, registers, pcSource, entry, symbols, faultR1).Ok? <==>
        && survey.Ok?
        && var live := LiveRegisters(registers, survey.value.faultR1);
        && Packable(ThreadValues(live, live[pcSource]))
        && (forall t | t in Others(survey.value.threads, survey.value.current) :: Parked(memory, t).Ok?)
        && |memory| < TWO32
  {
    var survey := Survey(memory, registers, pcSource, symbols, faultR1);
    if survey.Ok? {
      SurveyBound(memory, registers, pcSource, symbols, faultR1);
      WrittenExactly(memory, LiveRegisters(registers, survey.value.faultR1), pcSource, entry, survey.value);
    }
  }

  /** The running thread's word and all 32 entries of the map lie in the image. */
  predicate TablesReadable(memory: seq<byte>, symbols: Symbols) {
    && InPibmem(memory, symbols.currentThread)
    && forall i | 0 <= i < PK_THREADS :: InPibmem(memory, symbols.priorityMap + 4 * i)
  }

  /** The stack bounds in this TCB lie in the image, and some address between them begins
      a backchain before any address whose chain leaves the image. */
  ghost predicate StackRecoverable(memory: seq<byte>, liveSp: int, tcb: int) {
    && InPibmem(memory, tcb + 4) && InPibmem(memory, tcb + 8)
    && Recoverable(memory, liveSp, Word(memory, tcb + 4).value, Word(memory, tcb + 8).value)
  }

  /** What make_core recovers below the thread with this TCB. */
  ghost function Recovered(memory: seq<byte>, liveSp: int, tcb: int): Result<int> {
    var limit :- Word(memory, tcb + 4);
    var base :- Word(memory, tcb + 8);
    FaultStackPointerSpec(memory, liveSp, limit, base)
  }

  lemma RecoveredWhen(memory: seq<byte>, liveSp: int, tcb: int)
    ensures Recovered(memory, liveSp, tcb).Ok? <==> StackRecoverable(memory, liveSp, tcb)
  {
    if InPibmem(memory, tcb + 4) && InPibmem(memory, tcb + 8) {
      SearchSucceeds(memory, liveSp, Word(memory, tcb + 4).value, Word(memory, tcb + 8).value);
    }
  }

  lemma MapReadable(memory: seq<byte>, table: int)
    ensures ReadPriorityMap(memory, table).Ok? <==> forall i | 0 <= i < PK_THREADS :: InPibmem(memory, table + 4 * i)
  {
  }

  lemma SurveyParts(memory: seq<byte>, registers: RegMap, pcSource: RegName, symbols: Symbols, faultR1: Option<int>)
    requires Captured(registers, pcSource)
    ensures Survey(memory, registers, pcSource, Some(symbols), faultR1).Ok? <==>
      && Word(memory, symbols.currentThread).Ok? && ReadPriorityMap(memory, symbols.priorityMap).Ok?
      && (Recovers(memory, pcSource, Some(symbols), faultR1) ==>
            Recovered(memory, registers[Gpr(1)], Word(memory, symbols.currentThread).value).Ok?)
  {
  }

  /** Exactly when the first part of make_core succeeds. */
  lemma SurveySucceeds(memory: seq<byte>, registers: RegMap, pcSource: RegName,
                       symbols: Option<Symbols>, faultR1: Option<int>)
    requires Captured(registers, pcSource)
    ensures Survey(memory, registers, pcSource, symbols, faultR1).Ok? <==>
      && (symbols.Some? ==> TablesReadable(memory, symbols.value))
      && (Recovers(memory, pcSource, symbols, faultR1) ==>
            StackRecoverable(memory, registers[Gpr(1)], Word(memory, symbols.value.currentThread).value))
  {
    if symbols.Some? {
      SurveyParts(memory, registers, pcSource, symbols.value, faultR1);
      MapReadable(memory, symbols.value.priorityMap);
      if InPibmem(memory, symbols.value.currentThread) {
        RecoveredWhen(memory, registers[Gpr(1)], Word(memory, symbols.value.currentThread).value);
      }
    }
  }

  /** A register that a status note shows. */
  predicate IsNoted(name: RegName) {
    (name.Gpr? && name.index < 32) || name in {MSR, CTR, LR, XER, CR}
  }

  lemma PackableExactly(registers: RegMap, pc: int)
    ensures Packable(ThreadValues(registers, pc)) <==>
      IsU32(pc) && forall name | IsNoted(name) :: IsU32(Get(registers, name))
  {
    var values := ThreadValues(registers, pc);
    assert values[32] == pc && values[33] == Get(registers, MSR) && values[35] == Get(registers, CTR)
      && values[36] == Get(registers, LR) && values[37] == Get(registers, XER) && values[38] == Get(registers, CR);
    if Packable(values) {
      forall name | IsNoted(name)
        ensures IsU32(Get(registers, name))
      {
        assert name.Gpr? ==> values[name.index] == Get(registers, name);
      }
    }
    if IsU32(pc) && forall name | IsNoted(name) :: IsU32(Get(registers, name)) {
      forall i | 0 <= i < 44
        ensures IsU32(values[i])
      {
        assert IsNoted(Gpr(i)) || i >= 32;
        assert i < 32 ==> values[i] == Get(registers, Gpr(i));
      }
    }
  }

  /** The values of the live note fit 32 bits: the program counter and every noted
      register, where r1 is a recovered address, else the override, else as captured. */
  ghost predicate LiveFits(registers: RegMap, pcSource: RegName, recovers: bool, faultR1: Option<int>)
    requires Captured(registers, pcSource)
  {
    && IsU32(registers[pcSource])
    && (forall name | IsNoted(name) && name != Gpr(1) :: IsU32(Get(registers, name)))
    && (recovers || IsU32(if faultR1.Some? then faultR1.value else registers[Gpr(1)]))
  }

  lemma LivePackable(memory: seq<byte>, registers: RegMap, pcSource: RegName,
                     symbols: Option<Symbols>, faultR1: Option<int>)
    requires Captured(registers, pcSource) && Survey(memory, registers, pcSource, symbols, faultR1).Ok?
    ensures
      var live := LiveRegisters(registers, Survey(memory, registers, pcSource, symbols, faultR1).value.faultR1);
      Packable(ThreadValues(live, live[pcSource]))
      <==> LiveFits(registers, pcSource, Recovers(memory, pcSource, symbols, faultR1), faultR1)
  {
    var reported := Survey(memory, registers, pcSource, symbols, faultR1).value.faultR1;
    var live := LiveRegisters(registers, reported);
    PackableExactly(live, live[pcSource]);
    SurveyStack(memory, registers, pcSource, symbols, faultR1);
    assert forall name | name != Gpr(1) :: Get(live, name) == Get(registers, name);
    assert IsNoted(Gpr(1)) && Get(live, Gpr(1)) == if reported.Some? then reported.value else registers[Gpr(1)];
  }

  /** A parked thread's context can be read exactly when its TCB and the 96 bytes
      from the stack pointer it holds lie in the image. */
  lemma ParkedInRange(memory: seq<byte>, tcb: Tcb)
    ensures Parked(memory, tcb).Ok? <==>
      && InPibmem(memory, tcb.address)
      && var sp := Word(memory, tcb.address).value;
      MEM_START <= sp && sp + 0x60 <= MEM_START + |memory|
  {
    if InPibmem(memory, tcb.address) {
      SavedInRange(memory, Word(memory, tcb.address).value);
    }
  }

  /** The 96 bytes a parked thread's context takes, at the stack pointer its TCB holds. */
  predicate ContextReadable(memory: seq<byte>, tcb: int) {
    && InPibmem(memory, tcb)
    && var sp := Word(memory, tcb).value;
    MEM_START <= sp && sp + 0x60 <= MEM_START + |memory|
  }

  /** Every thread the map lists, other than the running one, has a context in the image. */
  predicate ContextsReadable(memory: seq<byte>, symbols: Symbols)
    requires TablesReadable(memory, symbols)
  {
    forall p | 0 <= p < PK_THREADS :: PriorityReadable(memory, symbols, p)
  }

  predicate PriorityReadable(memory: seq<byte>, symbols: Symbols, p: nat)
    requires TablesReadable(memory, symbols) && p < PK_THREADS
  {
    var tcb := Word(memory, symbols.priorityMap + 4 * p).value;
    tcb == 0 || tcb == Word(memory, symbols.currentThread).value || ContextReadable(memory, tcb)
  }

  lemma InOthers(words: seq<u32>, current: u32, t: Tcb)
    requires |words| == PK_THREADS
    ensures t in Others(NonNull(words), current) <==>
      t.priority < PK_THREADS && words[t.priority] == t.address && t.address != 0 && t.address != current
  {
    NonNullExact(words);
    OthersExact(NonNull(words), current);
  }

  /** Entry p of a priority map needs no context, or has one in the image. */
  predicate EntryReadable(memory: seq<byte>, words: seq<u32>, current: u32, p: nat)
    requires p < |words|
  {
    words[p] == 0 || words[p] == current || ContextReadable(memory, words[p])
  }

  lemma OthersReadable(memory: seq<byte>, words: seq<u32>, current: u32)
    requires |words| == PK_THREADS
    ensures (forall t | t in Others(NonNull(words), current) :: Parked(memory, t).Ok?) <==>
      forall p | 0 <= p < PK_THREADS :: EntryReadable(memory, words, current, p)
  {
    var others := Others(NonNull(words), current);
    if forall t | t in others :: Parked(memory, t).Ok? {
      forall p | 0 <= p < PK_THREADS
        ensures EntryReadable(memory, words, current, p)
      {
        InOthers(words, current, Tcb(p, words[p]));
        ParkedInRange(memory, Tcb(p, words[p]));
      }
    }
    if forall p | 0 <= p < PK_THREADS :: EntryReadable(memory, words, current, p) {
      forall t | t in others
        ensures Parked(memory, t).Ok?
      {
        InOthers(words, current, t);
        assert EntryReadable(memory, words, current, t.priority);
        ParkedInRange(memory, t);
      }
    }
  }

  lemma MapEntry(memory: seq<byte>, table: int, p: nat)
    requires ReadPriorityMap(memory, table).Ok? && p < PK_THREADS
    ensures Word(memory, table + 4 * p) == Ok(ReadPriorityMap(memory, table).value[p])
  {
    assert InPibmem(memory, table + 4 * p);
  }

  lemma EntriesReadable(memory: seq<byte>, symbols: Symbols)
    requires TablesReadable(memory, symbols)
    ensures ReadPriorityMap(memory, symbols.priorityMap).Ok?
    ensures
      var words := ReadPriorityMap(memory, symbols.priorityMap).value;
      ContextsReadable(memory, symbols) <==>
      forall p | 0 <= p < PK_THREADS :: EntryReadable(memory, words, Word(memory, symbols.currentThread).value, p)
  {
    var words := ReadPriorityMap(memory, symbols.priorityMap).value;
    var current := Word(memory, symbols.currentThread).value;
    forall p | 0 <= p < PK_THREADS
      ensures PriorityReadable(memory, symbols, p) <==> EntryReadable(memory, words, current, p)
    {
      MapEntry(memory, symbols.priorityMap, p);
    }
  }

  lemma ThreadsReadable(memory: seq<byte>, registers: RegMap, pcSource: RegName,
                        symbols: Symbols, faultR1: Option<int>)
    requires Captured(registers, pcSource) && Survey(memory, registers, pcSource, Some(symbols), faultR1).Ok?
    requires TablesReadable(memory, symbols)
    ensures
      var capture := Survey(memory, registers, pcSource, Some(symbols), faultR1).value;
      (forall t | t in Others(capture.threads, capture.current) :: Parked(memory, t).Ok?)
      <==> ContextsReadable(memory, symbols)
  {
    SurveyTables(memory, registers, pcSource, symbols, faultR1);
    EntriesReadable(memory, symbols);
    OthersReadable(memory, ReadPriorityMap(memory, symbols.priorityMap).value,
                   Word(memory, symbols.currentThread).value);
  }

  lemma {:induction false} ParkedError(memory: seq<byte>, others: seq<Tcb>)
    ensures ParkedItems(memory, others).Err? ==> ParkedItems(memory, others).error == OutsidePibmem
  {
    if others != [] {
      ParkedError(memory, others[..|others| - 1]);
    }
  }

  lemma WrittenError(memory: seq<byte>, live: RegMap, pcSource: RegName, entry: Option<u32>, capture: Capture)
    requires pcSource in live && |capture.threads| <= PK_THREADS
    requires Written(memory, live, pcSource, entry, capture).Err?
    ensures Written(memory, live, pcSource, entry, capture).error ==
      if !Packable(ThreadValues(live, live[pcSource])) then PackRange
      else if forall t | t in Others(capture.threads, capture.current) :: Parked(memory, t).Ok? then PackRange
      else OutsidePibmem
  {
    ParkedExactly(memory, Others(capture.threads, capture.current));
    ParkedError(memory, Others(capture.threads, capture.current));
  }

  lemma SurveyError(memory: seq<byte>, registers: RegMap, pcSource: RegName,
                    symbols: Option<Symbols>, faultR1: Option<int>)
    requires Captured(registers, pcSource)
    requires Survey(memory, registers, pcSource, symbols, faultR1).Err?
    ensures symbols.Some?
    ensures Survey(memory, registers, pcSource, symbols, faultR1).error ==
      if TablesReadable(memory, symbols.value) && Recovers(memory, pcSource, symbols, faultR1)
         && NothingToRecover(memory, registers[Gpr(1)], Word(memory, symbols.value.currentThread).value)
      then NotRecovered else OutsidePibmem
  {
    SurveyParts(memory, registers, pcSource, symbols.value, faultR1);
    MapReadable(memory, symbols.value.priorityMap);
    if TablesReadable(memory, symbols.value) && Recovers(memory, pcSource, symbols, faultR1) {
      RecoveredError(memory, registers[Gpr(1)], Word(memory, symbols.value.currentThread).value);
    }
  }

  /** The stack bounds in this TCB can be read, and no address between them begins a
      backchain or leaves the image on the way. */
  ghost predicate NothingToRecover(memory: seq<byte>, liveSp: int, tcb: int) {
    && InPibmem(memory, tcb + 4) && InPibmem(memory, tcb + 8)
    && var limit, base := Word(memory, tcb + 4).value, Word(memory, tcb + 8).value;
    forall d | Candidate(RoundUp8(Higher(liveSp, limit)), base, d) ::
      !Qualifies(memory, base, d) && !Faults(memory, base, d)
  }

  lemma RecoveredError(memory: seq<byte>, liveSp: int, tcb: int)
    ensures Recovered(memory, liveSp, tcb).Err? ==>
      Recovered(memory, liveSp, tcb).error == if NothingToRecover(memory, liveSp, tcb) then NotRecovered else OutsidePibmem
  {
    if InPibmem(memory, tcb + 4) && InPibmem(memory, tcb + 8) {
      var limit, base := Word(memory, tcb + 4).value, Word(memory, tcb + 8).value;
      SearchExact(memory, base, RoundUp8(Higher(liveSp, limit)), 0);
    }
  }

  /** How make_core fails, when it does: a value that does not fit (struct.error) only once
      everything that is read before could be read, an unrecovered stack when the search
      runs dry, and an address outside the image in every other case. */
  lemma BuildFails(memory: seq<byte>, registers: RegMap, pcSource: RegName, entry: Option<u32>,
                   symbols: Option<Symbols>, faultR1: Option<int>)
    requires Captured(registers, pcSource)
    requires Build(memory, registers, pcSource, entry, symbols, faultR1).Err?
    ensures
      var recovers := Recovers(memory, pcSource, symbols, faultR1);
      var tables := symbols.None? || TablesReadable(memory, symbols.value);
      var stack := if recovers then Word(memory, symbols.value.currentThread).value else 0;
      Build(memory, registers, pcSource, entry, symbols, faultR1).error ==
        if !tables then OutsidePibmem
        else if recovers && !StackRecoverable(memory, registers[Gpr(1)], stack) then
          if NothingToRecover(memory, registers[Gpr(1)], stack) then NotRecovered else OutsidePibmem
        else if !LiveFits(registers, pcSource, recovers, faultR1) then PackRange
        else if symbols.Some? && !ContextsReadable(memory, symbols.value) then OutsidePibmem
        else PackRange
  {
    SurveySucceeds(memory, registers, pcSource, symbols, faultR1);
    if Survey(memory, registers, pcSource, symbols, faultR1).Err? {
      SurveyError(memory, registers, pcSource, symbols, faultR1);
    } else {
      BuildFailsLate(memory, registers, pcSource, entry, symbols, faultR1);
    }
  }

  lemma BuildFailsLate(memory: seq<byte>, registers: RegMap, pcSource: RegName, entry: Option<u32>,
                       symbols: Option<Symbols>, faultR1: Option<int>)
    requires Captured(registers, pcSource)
    requires Build(memory, registers, pcSource, entry, symbols, faultR1).Err?
    requires Survey(memory, registers, pcSource, symbols, faultR1).Ok?
    requires symbols.Some? ==> TablesReadable(memory, symbols.value)
    ensures Build(memory, registers, pcSource, entry, symbols, faultR1).error ==
      if !LiveFits(registers, pcSource, Recovers(memory, pcSource, symbols, faultR1), faultR1) then PackRange
      else if symbols.Some? && !ContextsReadable(memory, symbols.value) then OutsidePibmem
      else PackRange
  {
    var capture := Survey(memory, registers, pcSource, symbols, faultR1).value;
    SurveyBound(memory, registers, pcSource, symbols, faultR1);
    WrittenError(memory, LiveRegisters(registers, capture.faultR1), pcSource, entry, capture);
    LivePackable(memory, registers, pcSource, symbols, faultR1);
    if symbols.Some? {
      ThreadsReadable(memory, registers, pcSource, symbols.value, faultR1);
    }
  }

  /** Exactly when make_core succeeds, told from what it is given: the thread tables lie
      in the image, the interrupted stack can be recovered where it has to be, every
      live value fits 32 bits, every parked thread's context lies in the image, and the
      image itself is below 4 GiB. */
  lemma BuildSucceedsExactly(memory: seq<byte>, registers: RegMap, pcSource: RegName, entry: Option<u32>,
                             symbols: Option<Symbols>, faultR1: Option<int>)
    requires Captured(registers, pcSource)
    ensures
      Build(memory, registers, pcSource, entry, symbols, faultR1).Ok? <==>
        && |memory| < TWO32
        && LiveFits(registers, pcSource, Recovers(memory, pcSource, symbols, faultR1), faultR1)
        && (symbols.Some? ==> TablesReadable(memory, symbols.value) && ContextsReadable(memory, symbols.value))
        && (Recovers(memory, pcSource, symbols, faultR1) ==>
              StackRecoverable(memory, registers[Gpr(1)], Word(memory, symbols.value.currentThread).value))
  {
    BuildSucceedsWhen(memory, registers, pcSource, entry, symbols, faultR1);
    SurveySucceeds(memory, registers, pcSource, symbols, faultR1);
    if Survey(memory, registers, pcSource, symbols, faultR1).Ok? {
      LivePackable(memory, registers, pcSource, symbols, faultR1);
      if symbols.Some? {
        ThreadsReadable(memory, registers, pcSource, symbols.value, faultR1);
      }
    }
  }
}
