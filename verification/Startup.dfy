/** __runtime_start of firmware/startup.s: forming symbol addresses in two halves,
    clearing memory up to the stack, and the first stack frame, on a small model of
    the instructions it uses. */
module Startup {
  import opened Words

  // firmware/linker
  const SRAM_START: int := 0xFFF8_0000
  const SRAM_LENGTH: int := 0x6_0000
  const STACK_SIZE: int := 1024
  const OUTPUT_BUF_START: int := 0xFFF8_8000

  /** What the linker script's ordering and its assertion say of the symbols. Neither
      bound of the cleared range is aligned by it. */
  predicate LinkedImage(clearStart: u32, stackLimit: u32, stack: u32) {
    && SRAM_START <= clearStart <= stackLimit
    && stack == stackLimit + STACK_SIZE
    && stack <= OUTPUT_BUF_START
  }

  /** sym@ha: the high half, adjusted for the sign of the low one. */
  function Ha(sym: u32): u16 {
    (sym + 0x8000) / 0x1_0000 % 0x1_0000
  }

  /** sym@l as addi sees it: the low half, sign-extended. */
  function Lo(sym: u32): int {
    var low := sym % 0x1_0000;
    if low < 0x8000 then low else low - 0x1_0000
  }

  /** Each lis @ha / addi @l pair yields the symbol, whatever its low half, with an
      operand that addi can take: a signed half word. */
  lemma HighAdjusted(sym: u32)
    ensures -0x8000 <= Lo(sym) < 0x8000
    ensures Wrap(Wrap(Ha(sym) * 0x1_0000) + Lo(sym)) == sym
  {
    HalvesAddUp(sym);
    var up: int := (sym + 0x8000) / 0x1_0000;
    assert up == Ha(sym) || (up == 0x1_0000 && Ha(sym) == 0);
    if up == Ha(sym) {
      FitsIn32(Ha(sym) * 0x1_0000);
    }
  }

  /** The upper half, rounded, and the signed lower half. */
  lemma HalvesAddUp(sym: u32)
    ensures (sym + 0x8000) / 0x1_0000 * 0x1_0000 + Lo(sym) == sym
    ensures 0 <= (sym + 0x8000) / 0x1_0000 <= 0x1_0000
  {
    var high, low := sym / 0x1_0000, sym % 0x1_0000;
    assert sym == high * 0x1_0000 + low;
    assert (sym + 0x8000) / 0x1_0000 == if low < 0x8000 then high else high + 1;
  }

  predicate InSram(address: int) {
    SRAM_START <= address && address + 4 <= SRAM_START + SRAM_LENGTH
  }

  /** Words a cleared range takes: the stores go on while below the limit. */
  function ClearedEnd(clearStart: int, stackLimit: int): (end: int)
    requires clearStart <= stackLimit
    ensures stackLimit <= end < stackLimit + 4
  {
    clearStart + (stackLimit - clearStart + 3) / 4 * 4
  }

  /** A memory with the bytes from lo to hi cleared. */
  function Cleared(memory: seq<byte>, lo: nat, hi: nat): (now: seq<byte>)
    requires lo <= hi <= |memory|
    ensures |now| == |memory|
    ensures forall i | 0 <= i < |memory| :: now[i] == if lo <= i < hi then 0 else memory[i]
  {
    memory[..lo] + Zeros(hi - lo) + memory[hi..]
  }

  /** A memory with a word stored, most significant byte first. */
  function StoreWord(memory: seq<byte>, at: nat, word: u32): seq<byte>
    requires at + 4 <= |memory|
  {
    memory[..at] + PackWords([word]) + memory[at + 4..]
  }

  lemma ClearedNext(memory: seq<byte>, lo: nat, hi: nat)
    requires lo <= hi && hi + 4 <= |memory|
    ensures
      var now := Cleared(memory, lo, hi);
      StoreWord(now, hi, 0) == Cleared(memory, lo, hi + 4)
  {
    assert PackWords([0]) == Zeros(4);
  }

  lemma ClearedNone(memory: seq<byte>, lo: nat)
    requires lo <= |memory|
    ensures Cleared(memory, lo, lo) == memory
  {
  }

  class Cpu {
    var gpr: seq<u32>
    var less: bool             // cr0 after the last logical compare
    const sram: array<byte>

    ghost predicate Valid()
      reads this
    {
      |gpr| == 32 && sram.Length == SRAM_LENGTH
    }

    constructor (registers: seq<u32>, sram: array<byte>)
      requires |registers| == 32 && sram.Length == SRAM_LENGTH
      ensures Valid() && gpr == registers && this.sram == sram
    {
      gpr, less, this.sram := registers, false, sram;
    }

    method Lis(rd: nat, high: u16)
      requires Valid() && rd < 32
      modifies this
      ensures Valid() && gpr == old(gpr)[rd := Wrap(high * 0x1_0000)] && less == old(less)
    {
      gpr := gpr[rd := Wrap(high * 0x1_0000)];
    }

    /** addi rd, ra, value; register 0 reads as zero. */
    method Addi(rd: nat, ra: nat, value: int)
      requires Valid() && rd < 32 && ra < 32
      modifies this
      ensures Valid() && less == old(less)
      ensures gpr == old(gpr)[rd := Wrap((if ra == 0 then 0 else old(gpr)[ra]) + value)]
    {
      gpr := gpr[rd := Wrap((if ra == 0 then 0 else gpr[ra]) + value)];
    }

    /** cmplw ra, rb: an unsigned compare. */
    method Cmplw(ra: nat, rb: nat)
      requires Valid() && ra < 32 && rb < 32
      modifies this
      ensures Valid() && gpr == old(gpr) && less == (gpr[ra] < gpr[rb])
    {
      less := gpr[ra] < gpr[rb];
    }

    /** stw rs, d(ra): four bytes, most significant first, inside the SRAM. */
    method Stw(rs: nat, d: int, ra: nat)
      requires Valid() && rs < 32 && 0 < ra < 32 && InSram(Wrap(gpr[ra] + d))
      modifies sram
      ensures sram[..] == StoreWord(old(sram[..]), Wrap(gpr[ra] + d) - SRAM_START, gpr[rs])
    {
      var at := Wrap(gpr[ra] + d) - SRAM_START;
      sram[at] := ByteOf(gpr[rs], 0);
      sram[at + 1] := ByteOf(gpr[rs], 1);
      sram[at + 2] := ByteOf(gpr[rs], 2);
      sram[at + 3] := ByteOf(gpr[rs], 3);
    }

    /** lis rd, sym@ha; addi rd, rd, sym@l */
    method LoadSymbol(rd: nat, sym: u32)
      requires Valid() && 0 < rd < 32
      modifies this
      ensures Valid() && gpr == old(gpr)[rd := sym] && less == old(less)
    {
      Lis(rd, Ha(sym));
      Addi(rd, rd, Lo(sym));
      HighAdjusted(sym);
    }

    /** The loop at .Lclear_bss, from r3 up to the limit in r4. */
    method ClearLoop(clearStart: u32, stackLimit: u32)
      requires Valid() && gpr[3] == clearStart && gpr[4] == stackLimit
      requires SRAM_START <= clearStart <= stackLimit && stackLimit + 4 <= SRAM_START + SRAM_LENGTH
      modifies this, sram
      ensures Valid()
      ensures sram[..] == Cleared(old(sram[..]), clearStart - SRAM_START,
                                  ClearedEnd(clearStart, stackLimit) - SRAM_START)
    {
      ghost var lo, words := clearStart - SRAM_START, 0;
      ClearedNone(sram[..], lo);
      while true
        invariant Valid() && gpr[3] == clearStart + 4 * words && gpr[4] == stackLimit
        invariant 0 <= words && gpr[3] <= ClearedEnd(clearStart, stackLimit)
        invariant sram[..] == Cleared(old(sram[..]), lo, gpr[3] - SRAM_START)
        decreases TWO32 - gpr[3]
      {
        Cmplw(3, 4);
        LoopStep(clearStart, stackLimit, words);
        if !less {
          break;
        }
        StoreZero(old(sram[..]), lo);
        words := words + 1;
      }
    }

    /** The body of the loop: li 5, 0; stw 5, 0(3); addi 3, 3, 4. */
    method StoreZero(ghost before: seq<byte>, ghost lo: nat)
      requires Valid() && SRAM_START <= gpr[3] && gpr[3] + 4 <= SRAM_START + SRAM_LENGTH
      requires |before| == SRAM_LENGTH && lo <= gpr[3] - SRAM_START
      requires sram[..] == Cleared(before, lo, gpr[3] - SRAM_START)
      modifies this, sram
      ensures Valid() && gpr[3] == old(gpr[3]) + 4 && gpr[4] == old(gpr[4])
      ensures sram[..] == Cleared(before, lo, gpr[3] - SRAM_START)
    {
      ghost var r3 := gpr[3];
      FitsIn32(0);
      FitsIn32(r3);
      FitsIn32(r3 + 4);
      ClearedNext(before, lo, r3 - SRAM_START);
      Addi(5, 0, 0);
      assert gpr[5] == 0 && gpr[3] == r3;
      Stw(5, 0, 3);
      assert sram[..] == Cleared(before, lo, r3 + 4 - SRAM_START);
      Addi(3, 3, 4);
    }

    /** __runtime_start from the address set-up to the call of main: the range from
        clearStart on is cleared, the stack pointer is 8 below the top, and the word
        it points at, the backchain of the first frame, is zero. Nothing else changes. */
    method RuntimeStart(clearStart: u32, stackLimit: u32, stack: u32)
      requires Valid() && LinkedImage(clearStart, stackLimit, stack)
      modifies this, sram
      ensures Valid() && gpr[1] == stack - 8
      ensures sram[..] == AfterStartup(old(sram[..]), clearStart, stackLimit, stack)
    {
      LoadSymbol(3, clearStart);
      LoadSymbol(4, stackLimit);
      ClearLoop(clearStart, stackLimit);
      FirstFrame(stack);
    }

    /** lis/addi 1, _STACK; li 0, 0; stwu 0, -8(1) */
    method FirstFrame(stack: u32)
      requires Valid() && SRAM_START + 8 <= stack && stack <= SRAM_START + SRAM_LENGTH
      modifies this, sram
      ensures Valid() && gpr[1] == stack - 8
      ensures sram[..] == Cleared(old(sram[..]), stack - 8 - SRAM_START, stack - 4 - SRAM_START)
    {
      ghost var frame := stack - 8 - SRAM_START;
      FitsIn32(0);
      FitsIn32(stack - 8);
      ClearedNone(sram[..], frame);
      ClearedNext(sram[..], frame, frame);
      LoadSymbol(1, stack);
      Addi(0, 0, 0);
      assert gpr[0] == 0 && gpr[1] == stack;
      Stwu(0, -8, 1);
    }

    /** stwu rs, d(ra): the store, and ra takes the address. */
    method Stwu(rs: nat, d: int, ra: nat)
      requires Valid() && rs < 32 && 0 < ra < 32 && InSram(Wrap(gpr[ra] + d))
      modifies this, sram
      ensures Valid() && gpr == old(gpr)[ra := Wrap(old(gpr)[ra] + d)] && less == old(less)
      ensures sram[..] == StoreWord(old(sram[..]), Wrap(old(gpr)[ra] + d) - SRAM_START, old(gpr)[rs])
    {
      Stw(rs, d, ra);
      gpr := gpr[ra := Wrap(gpr[ra] + d)];
    }
  }

  /** Below the limit there is room for a word before the cleared end; at or past it
      the loop has reached the cleared end. */
  lemma LoopStep(clearStart: int, stackLimit: int, words: nat)
    requires clearStart <= stackLimit && clearStart + 4 * words <= ClearedEnd(clearStart, stackLimit)
    ensures clearStart + 4 * words < stackLimit ==> clearStart + 4 * words + 4 <= ClearedEnd(clearStart, stackLimit)
    ensures clearStart + 4 * words >= stackLimit ==> clearStart + 4 * words == ClearedEnd(clearStart, stackLimit)
  {
  }

  function AfterStartup(before: seq<byte>, clearStart: u32, stackLimit: u32, stack: u32): seq<byte>
    requires LinkedImage(clearStart, stackLimit, stack) && |before| == SRAM_LENGTH
  {
    var cleared := Cleared(before, clearStart - SRAM_START, ClearedEnd(clearStart, stackLimit) - SRAM_START);
    Cleared(cleared, stack - 8 - SRAM_START, stack - 4 - SRAM_START)
  }

  /** What startup leaves: every byte of [clearStart, stackLimit) is zero and so is the
      backchain word at stack - 8; at most three bytes past the limit are written,
      inside the stack area and below the first frame; every other byte, the whole
      printf output buffer included, is as it was. */
  lemma StartupMemory(before: seq<byte>, clearStart: u32, stackLimit: u32, stack: u32, a: int)
    requires LinkedImage(clearStart, stackLimit, stack) && |before| == SRAM_LENGTH
    requires SRAM_START <= a < SRAM_START + SRAM_LENGTH
    ensures
      var now, was := AfterStartup(before, clearStart, stackLimit, stack)[a - SRAM_START], before[a - SRAM_START];
      && (clearStart <= a < stackLimit ==> now == 0)
      && (stack - 8 <= a < stack - 4 ==> now == 0)
      && (now != was ==> clearStart <= a < stackLimit + 3 || stack - 8 <= a < stack - 4)
      && (now != was ==> a < OUTPUT_BUF_START)
    ensures Read32(AfterStartup(before, clearStart, stackLimit, stack), stack - 8 - SRAM_START) == 0
  {
  }
}
