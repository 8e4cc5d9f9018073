/** The components together: printf's output buffer lies inside the PIBMEM image, so
    the messages of the running firmware can be read off a core file. */
module PostMortem {
  import opened Words
  import opened PibMemory
  import opened CoreFile
  import opened CoreBuilder
  import opened PrintfText
  import opened PrintfLog

  /** OUTPUT_BUF_ADDR of firmware/runtime/printf.c */
  const OUTPUT_BUF_ADDR: int := 0xFFF8_8000

  /** The characters a debugger reads from an address on. */
  function TextAt(view: CoreView, address: int, length: nat): string {
    seq(length, k requires 0 <= k < length =>
      var b := ByteAt(view, address + k);
      if b.Some? then b.value as char else NUL)
  }

  /** The captured image holds the output buffer in the state printf left it. */
  predicate BufferCaptured(memory: seq<byte>, buffer: Image) {
    && OUTPUT_BUF_ADDR - MEM_START + SIZE <= |memory|
    && forall k | 0 <= k < SIZE :: memory[OUTPUT_BUF_ADDR - MEM_START + k] as char == buffer[k]
  }

  lemma BufferInCore(view: CoreView, memory: seq<byte>, buffer: Image)
    requires ShowsMemory(view, memory) && BufferCaptured(memory, buffer)
    ensures TextAt(view, OUTPUT_BUF_ADDR, SIZE) == buffer
  {
    forall k | 0 <= k < SIZE
      ensures TextAt(view, OUTPUT_BUF_ADDR, SIZE)[k] == buffer[k]
    {
      assert ByteAt(view, OUTPUT_BUF_ADDR + k) == Some(memory[OUTPUT_BUF_ADDR - MEM_START + k]);
    }
  }

  /** From any core that make_core writes of an image holding printf's buffer after any
      run of calls, the log reader recovers the messages since the last wrap, exactly
      when none of them contains a NUL. */
  lemma LogSurvivesCoreDump(memory: seq<byte>, registers: RegMap, pcSource: RegName, entry: Option<u32>,
                            symbols: Option<Symbols>, faultR1: Option<int>, initial: Image, history: seq<string>)
    requires Captured(registers, pcSource)
    requires Build(memory, registers, pcSource, entry, symbols, faultR1).Ok?
    requires BufferCaptured(memory, After(initial, history).memory)
    ensures
      var view := ReadCore(Build(memory, registers, pcSource, entry, symbols, faultR1).value.core);
      && view.Some?
      && var log := ReadLog(TextAt(view.value, OUTPUT_BUF_ADDR, SIZE), 0, OffsetAfter(history));
      && log == AllPieces(CurrentLap(history))
      && (log == CurrentLap(history) <==> forall m | m in CurrentLap(history) :: NUL !in m)
  {
    CoreRoundTrip(memory, registers, pcSource, entry, symbols, faultR1);
    var built := Build(memory, registers, pcSource, entry, symbols, faultR1).value;
    BufferInCore(ReadCore(built.core).value, memory, After(initial, history).memory);
    LogReadsPieces(initial, history);
    LogRoundTrip(initial, history);
  }
}
