/** The captured PIBMEM image and the addresses the capture script reads from it:
    word, pk_symbol_addresses and restore_fault_lr of
    coredump/make_sppe_core_simics.py. */
module PibMemory {
  import opened Words

  const MEM_START: int := 0xFFF8_0000
  const MEM_SIZE: int := 0x8_0000
  const PK_THREADS: nat := 32

  /** Addresses are Python integers: any sign and size. */
  predicate InPibmem(memory: seq<byte>, address: int) {
    MEM_START <= address <= MEM_START + |memory| - 4
  }

  /** word: the big-endian word at an address, or a ValueError. */
  function Word(memory: seq<byte>, address: int): (r: Result<u32>)
    ensures r.Ok? <==> InPibmem(memory, address)
    ensures r.Err? ==> r.error == OutsidePibmem
  {
    var offset := address - MEM_START;
    if offset < 0 || offset + 4 > |memory| then Err(OutsidePibmem) else Ok(Read32(memory, offset))
  }

  /** A word of the image, byte by byte: PIBMEM begins at 0xFFF80000. */
  lemma WordBytes(memory: seq<byte>, address: int)
    ensures Word(memory, address).Ok? <==> 0xFFF8_0000 <= address && address + 4 <= 0xFFF8_0000 + |memory|
    ensures Word(memory, address).Ok? ==>
      var w, at := Word(memory, address).value, address - 0xFFF8_0000;
      && w / 0x100_0000 == memory[at] && w / 0x1_0000 % 0x100 == memory[at + 1]
      && w / 0x100 % 0x100 == memory[at + 2] && w % 0x100 == memory[at + 3]
  {
    if Word(memory, address).Ok? {
      BigEndian(memory, address - 0xFFF8_0000);
    }
  }

  datatype Symbols = Symbols(currentThread: int, priorityMap: int)

  predicate AcceptableAddress(address: int, size: nat) {
    address % 4 == 0 && MEM_START <= address <= MEM_START + MEM_SIZE - size
  }

  /** pk_symbol_addresses on already parsed integers: both addresses or neither. */
  method PkSymbolAddresses(currentThread: Option<int>, priorityMap: Option<int>)
    returns (r: Result<Option<Symbols>>)
    ensures r == Ok(None) <==> currentThread.None? && priorityMap.None?
    ensures r.Ok? && r.value.Some? <==>
              && currentThread.Some? && AcceptableAddress(currentThread.value, 4)
              && priorityMap.Some? && AcceptableAddress(priorityMap.value, 4 * PK_THREADS)
    ensures r.Ok? && r.value.Some? ==> r.value.value == Symbols(currentThread.value, priorityMap.value)
    ensures r.Err? ==> r.error == BadSymbolAddress
  {
    if currentThread.None? != priorityMap.None? {
      return Err(BadSymbolAddress);
    }
    if currentThread.None? {
      return Ok(None);
    }
    var rows := [(currentThread.value, 4), (priorityMap.value, 4 * PK_THREADS)];
    var found: seq<int> := [];
    for i := 0 to |rows|
      invariant |found| == i && forall j | 0 <= j < i :: found[j] == rows[j].0
      invariant forall j | 0 <= j < i :: AcceptableAddress(rows[j].0, rows[j].1)
    {
      var (address, size) := rows[i];
      if address % 4 != 0 || !(MEM_START <= address <= MEM_START + MEM_SIZE - size) {
        assert !AcceptableAddress(rows[i].0, rows[i].1);
        return Err(BadSymbolAddress);
      }
      found := found + [address];
    }
    assert AcceptableAddress(rows[0].0, rows[0].1) && AcceptableAddress(rows[1].0, rows[1].1);
    return Ok(Some(Symbols(found[0], found[1])));
  }

  /** An address is acceptable exactly when it is a multiple of four and its whole table
      lies between 0xFFF80000 and the end of the address space. */
  lemma AcceptableExactly(address: int, size: nat)
    ensures AcceptableAddress(address, size) <==>
      address % 4 == 0 && 0xFFF8_0000 <= address && address + size <= 0x1_0000_0000
  {
  }

  /** Accepted addresses never fault on a whole image: the current-thread read and
      all 32 priority-map reads succeed. The bounds are tight: one word further on
      either side of the accepted range some read would fail. */
  lemma AcceptedAddressesNeverFault(memory: seq<byte>, symbols: Symbols)
    requires |memory| == MEM_SIZE
    ensures MEM_START <= symbols.currentThread <= MEM_START + MEM_SIZE - 4
            <==> Word(memory, symbols.currentThread).Ok?
    ensures MEM_START <= symbols.priorityMap <= MEM_START + MEM_SIZE - 4 * PK_THREADS
            <==> forall i | 0 <= i < PK_THREADS :: Word(memory, symbols.priorityMap + 4 * i).Ok?
  {
    if forall i | 0 <= i < PK_THREADS :: Word(memory, symbols.priorityMap + 4 * i).Ok? {
      assert Word(memory, symbols.priorityMap + 4 * 0).Ok?;
      assert Word(memory, symbols.priorityMap + 4 * 31).Ok?;
    }
  }

  // ---------------------------------------------------------------------------
  // The register dictionary
  // ---------------------------------------------------------------------------

  /** A register name of the capture: the names the script looks up, or any other. */
  datatype RegName =
    | Gpr(index: nat)
    | PC | MSR | CTR | LR | XER | CR | SRR0 | IAR | SPRG0
    | Other(name: string)

  type RegMap = map<RegName, int>

  /** registers.get(name, 0) */
  function Get(registers: RegMap, name: RegName): int {
    if name in registers then registers[name] else 0
  }

  /** Whether the exception FFDC at sprg0 describes the captured fault. */
  predicate FfdcMatches(memory: seq<byte>, registers: RegMap) {
    && SPRG0 in registers && SRR0 in registers
    && MEM_START <= registers[SPRG0] <= MEM_START + |memory| - 20
    && Word(memory, registers[SPRG0]).Ok? && Word(memory, registers[SPRG0]).value % 0x1_0000 == 0xA501
    && Word(memory, registers[SPRG0] + 4) == Ok(registers[SRR0])
  }

  /** The FFDC matches, told from its bytes: it lies whole in the image, bytes 2 and 3
      are the magic number, and the word after them is the captured srr0. */
  lemma FfdcExactly(memory: seq<byte>, registers: RegMap)
    requires SPRG0 in registers && SRR0 in registers
    ensures FfdcMatches(memory, registers) <==>
      var at := registers[SPRG0] - 0xFFF8_0000;
      && 0 <= at && at + 20 <= |memory|
      && memory[at + 2] == 0xA5 && memory[at + 3] == 0x01
      && Word(memory, registers[SPRG0] + 4) == Ok(registers[SRR0])
  {
    var at := registers[SPRG0] - 0xFFF8_0000;
    if 0 <= at && at + 20 <= |memory| {
      BigEndian(memory, at);
      assert Read32(memory, at) % 0x1_0000 == Read16(memory, at + 2);
    }
  }

  /** The dictionary once the LR of the FFDC has been restored, where it matches. */
  function Restored(memory: seq<byte>, registers: RegMap, pcSource: RegName): RegMap {
    if pcSource == SRR0 && FfdcMatches(memory, registers)
    then registers[LR := Word(memory, registers[SPRG0] + 16).value] else registers
  }

  /** The dictionary capture_registers returns, updated in place. */
  class RegisterFile {
    var values: RegMap

    constructor (captured: RegMap)
      ensures values == captured
    {
      values := captured;
    }

    /** restore_fault_lr: the FFDC holds the LR from before the handler changed it.
        Whatever the registers hold, no read of it leaves the image. */
    method RestoreFaultLr(memory: seq<byte>, pcSource: RegName)
      requires pcSource == SRR0 ==> SRR0 in values
      modifies this
      ensures pcSource == SRR0 && FfdcMatches(memory, old(values)) ==>
                && InPibmem(memory, old(values)[SPRG0] + 16)
                && values == old(values)[LR := Word(memory, old(values)[SPRG0] + 16).value]
      ensures !(pcSource == SRR0 && FfdcMatches(memory, old(values))) ==> values == old(values)
      ensures values == Restored(memory, old(values), pcSource)
    {
      if pcSource != SRR0 || SPRG0 !in values {
        return;
      }
      var address := values[SPRG0];
      if !(MEM_START <= address <= MEM_START + |memory| - 20) {
        return;
      }
      var magic, savedPc, savedLr :=
        Word(memory, address + 0).value, Word(memory, address + 4).value, Word(memory, address + 16).value;
      if magic % 0x1_0000 == 0xA501 && savedPc == values[SRR0] {
        values := values[LR := savedLr];
      }
    }
  }
}
