/** firmware/runtime/printf.c as it runs: the clamped writer, the number
    conversions over a scratch array, the format interpreter and the persistent
    write offset. Each method is proved against PrintfText and PrintfLog. */
module PrintfRuntime {
  import opened Words
  import opened PrintfText
  import opened PrintfLog

  /** The buffer, once as much of the text as leaves room for a terminator has been
      written over its former content. */
  function Overlay(before: seq<char>, start: nat, size: nat, text: string): (now: seq<char>)
    requires 0 < size && start + size == |before|
    ensures |now| == |before|
  {
    var n := if |text| < size then |text| else size - 1;
    before[..start] + text[..n] + before[start + n..]
  }

  lemma OverlayAppend(before: seq<char>, start: nat, size: nat, text: string, value: char)
    requires 0 < size && start + size == |before|
    ensures Overlay(before, start, size, text + [value]) ==
      if |text| + 1 < size then Overlay(before, start, size, text)[start + |text| := value]
      else Overlay(before, start, size, text)
  {
    var n := if |text| < size then |text| else size - 1;
    if |text| + 1 < size {
      assert (text + [value])[..n + 1] == text[..n] + [value];
    } else {
      assert (text + [value])[..size - 1] == text[..size - 1];
    }
  }

  /** The clamping test of append_char, on the 32-bit counter. */
  predicate Clamps(length: u32, size: nat) {
    Wrap(length + 1) < size
  }

  /** What the test protects, exactly: a character let through leaves room for a
      terminator as long as the counter is below 2^32 - 1. There its sum wraps to 0, and
      the character would go to place 2^32 - 1, far outside the room. */
  lemma ClampsExactly(length: u32, size: nat)
    requires 0 < size <= SIZE
    ensures (Clamps(length, size) ==> length + 1 < size) <==> length != TWO32 - 1
  {
    if length == TWO32 - 1 {
      assert Wrap(length + 1) == 0;
    } else {
      FitsIn32(length + 1);
    }
  }

  /** struct output_buffer: the part of the shared buffer from start on, and how
      long the text has become, written or not. */
  class OutputBuffer {
    const memory: array<char>
    const start: nat
    const size: nat
    var length: u32
    ghost const before: seq<char>  // the shared buffer when this call started
    ghost var text: string         // everything appended so far

    ghost predicate Valid()
      reads this, memory
    {
      && 0 < size && start + size == memory.Length == |before| == SIZE
      && length == |text|
      && memory[..] == Overlay(before, start, size, text)
    }

    constructor (memory: array<char>, offset: nat)
      requires memory.Length == SIZE && offset < SIZE
      ensures Valid()
      ensures this.memory == memory && start == offset
      ensures text == "" && before == memory[..]
    {
      this.memory := memory;
      start, size, length := offset, SIZE - offset, 0;
      before, text := memory[..], "";
    }

    /** append_char, in the 32-bit arithmetic of the source. */
    method AppendChar(value: char)
      requires Valid() && |text| + 1 < TWO32
      modifies this, memory
      ensures Valid() && text == old(text) + [value]
    {
      OverlayAppend(before, start, size, text, value);
      ClampsExactly(length, size);
      if Clamps(length, size) {
        memory[start + length] := value;
      }
      length := Wrap(length + 1);
      text := text + [value];
    }

    /** append_string: a null pointer prints as (null). */
    method AppendString(value: Option<CString>)
      requires Valid() && |text| + |PointerText(value)| < TWO32
      modifies this, memory
      ensures Valid() && text == old(text) + PointerText(value)
    {
      var s := if value.None? then "(null)" else value.value;
      var i := 0;
      CharAtEnd(s, i);
      while CharAt(s, i) != NUL
        invariant i <= |s| && (CharAt(s, i) == NUL <==> i == |s|)
        invariant Valid() && text == old(text) + s[..i]
        decreases |s| - i
      {
        AppendChar(CharAt(s, i));
        i := i + 1;
        CharAtEnd(s, i);
      }
    }

    /** append_unsigned: digits are produced backwards into reversed[32]. */
    method AppendUnsigned(value: u32, base: u32, uppercase: bool)
      requires 2 <= base <= 16
      requires Valid() && |text| + |Digits(value, base, uppercase)| < TWO32
      modifies this, memory
      ensures Valid() && text == old(text) + Digits(value, base, uppercase)
    {
      var reversed := new char[32];
      var count := ProduceBackwards(reversed, value, base, uppercase);
      AppendBackwards(reversed, count, Digits(value, base, uppercase));
    }

    /** The dividing loop of append_unsigned, a do-while in the source: the 32 places
        of the scratch array always suffice. */
    static method ProduceBackwards(reversed: array<char>, value: u32, base: u32, uppercase: bool)
      returns (count: nat)
      requires 2 <= base <= 16 && reversed.Length == 32
      modifies reversed
      ensures count == |Digits(value, base, uppercase)| <= 32
      ensures forall k | 0 <= k < count :: reversed[k] == Digits(value, base, uppercase)[count - 1 - k]
    {
      ghost var all := Digits(value, base, uppercase);
      var rest: nat := value;
      count := 0;
      ScratchNeverOverrun(value, base, uppercase);
      while true
        invariant count < |all| <= 32
        invariant Digits(rest, base, uppercase) == all[..|all| - count]
        invariant forall k | 0 <= k < count :: reversed[k] == all[|all| - 1 - k]
        decreases rest
      {
        var digit, quotient := SplitDigit(rest, base, uppercase);
        LastOfPrefix(all, |all| - count);
        reversed[count] := digit;
        count := count + 1;
        rest := quotient;
        if rest == 0 {
          break;
        }
      }
    }

    /** One turn of the dividing loop: takes the last digit off. */
    static method SplitDigit(rest: nat, base: u32, uppercase: bool) returns (digit: char, quotient: nat)
      requires 2 <= base <= 16
      ensures digit == Digits(rest, base, uppercase)[|Digits(rest, base, uppercase)| - 1]
      ensures quotient == 0 <==> |Digits(rest, base, uppercase)| == 1
      ensures quotient != 0 ==>
                && quotient < rest
                && Digits(quotient, base, uppercase)
                   == Digits(rest, base, uppercase)[..|Digits(rest, base, uppercase)| - 1]
    {
      var last: nat := rest % base;
      quotient := rest / base;
      DigitsEnd(rest, base, uppercase, quotient, last);
      digit := DigitTable(uppercase)[last];
    }

    /** The emitting loop of append_unsigned. */
    method AppendBackwards(reversed: array<char>, n: nat, ghost all: string)
      requires n == |all| <= reversed.Length && reversed != memory
      requires forall k | 0 <= k < n :: reversed[k] == all[n - 1 - k]
      requires Valid() && |text| + |all| < TWO32
      modifies this, memory
      ensures Valid() && text == old(text) + all
    {
      var count: nat := n;
      while count != 0
        invariant count <= n
        invariant Valid() && text == old(text) + all[..n - count]
      {
        count := count - 1;
        assert all[..n - count] == all[..n - count - 1] + [reversed[count]];
        AppendChar(reversed[count]);
      }
    }

    /** append_signed: the magnitude is taken modulo 2^32. */
    method AppendSigned(value: int)
      requires -0x8000_0000 <= value < 0x8000_0000
      requires Valid() && |text| + |SignedDigits(value)| < TWO32
      modifies this, memory
      ensures Valid() && text == old(text) + SignedDigits(value)
    {
      var magnitude: u32 := Wrap(value);
      Magnitude(value);
      if value < 0 {
        AppendChar('-');
        magnitude := Wrap(0 - magnitude);
        Assoc(old(text), ['-'], Digits(magnitude, 10, false));
      }
      AppendUnsigned(magnitude, 10, false);
    }

    /** The switch of printf, past the % and the conversion character. Returns the
        advanced va_list position. */
    method AppendConversion(conversion: char, args: seq<Arg>, next: nat) returns (next': nat)
      requires conversion != NUL && next <= |args|
      requires Suits(ConversionToken(conversion), args[next..])
      requires Valid() && |text| + |TokenText(ConversionToken(conversion), args[next..])| < TWO32
      modifies this, memory
      ensures next' == if TakesArg(ConversionToken(conversion)) then next + 1 else next
      ensures Valid() && text == old(text) + TokenText(ConversionToken(conversion), args[next..])
    {
      next' := next;
      match conversion {
        case '%' =>
          AppendChar('%');
        case 'c' =>
          AppendChar((args[next].bits % 0x100) as char);
          next' := next + 1;
        case 'd' =>
          AppendSigned(AsSigned(args[next].bits));
          next' := next + 1;
        case 'i' =>
          AppendSigned(AsSigned(args[next].bits));
          next' := next + 1;
        case 's' =>
          AppendString(args[next].target);
          next' := next + 1;
        case 'u' =>
          AppendUnsigned(args[next].bits, 10, false);
          next' := next + 1;
        case 'x' =>
          AppendUnsigned(args[next].bits, 16, false);
          next' := next + 1;
        case 'X' =>
          AppendUnsigned(args[next].bits, 16, true);
          next' := next + 1;
        case _ =>
          AppendChar('%');
          AppendChar(conversion);
      }
    }

    /** The interpreter loop of printf: appends the ideal rendering. */
    method AppendFormatted(format: CString, args: seq<Arg>)
      requires WellTyped(format, args)
      requires Valid() && |text| + |Render(format, args)| < TWO32
      modifies this, memory
      ensures Valid() && text == old(text) + Render(format, args)
    {
      ghost var whole := old(text) + Render(format, args);
      var i, next := 0, 0;
      assert format[0..] == format && args[0..] == args;
      CharAtEnd(format, i);
      while CharAt(format, i) != NUL
        invariant i <= |format| && next <= |args|
        invariant CharAt(format, i) == NUL <==> i == |format|
        invariant Valid() && WellTyped(format[i..], args[next..])
        invariant text + Render(format[i..], args[next..]) == whole
        decreases |format| - i
      {
        CharAtEnd(format, i + 1);
        if CharAt(format, i) != '%' {
          LiteralStep(format, i, args[next..], text, whole);
          AppendChar(CharAt(format, i));
          i := i + 1;
          continue;
        }
        i := i + 1;
        var conversion := CharAt(format, i);
        if conversion == NUL {
          LoneStep(format, i - 1, args[next..], text, whole);
          AppendChar('%');
          break;
        }
        ConversionStep(format, i - 1, args, next, text, whole);
        i := i + 1;
        next := AppendConversion(conversion, args, next);
        CharAtEnd(format, i);
      }
    }

    /** The end of printf: terminates the slot inside the room and returns the next
        value of the static offset. */
    method Terminate() returns (next: u32)
      requires Valid() && ValidOffset(start)
      modifies memory
      ensures LogState(memory[..], next) == Call(LogState(before, start), text)
    {
      memory[start + if length < size then length else size - 1] := NUL;
      ghost var s := Stored(text, size);
      assert memory[..] == before[..start] + s + before[start + |s|..];
      var bytesUsed := if length < size then length + 1 else size;
      FitsIn32(start + bytesUsed);
      FitsIn32(RoundUp8(start + bytesUsed));
      next := Wrap(start + bytesUsed);
      next := Wrap(RoundUp8(next));
      if next >= SIZE {
        next := 0;
      }
    }
  }

  lemma Magnitude(value: int)
    requires -0x8000_0000 <= value < 0x8000_0000
    ensures 0 <= value ==> SignedDigits(value) == Digits(Wrap(value), 10, false)
    ensures value < 0 ==> SignedDigits(value) == ['-'] + Digits(Wrap(0 - Wrap(value)), 10, false)
  {
    WrapSign(value);
  }

  lemma WrapSign(value: int)
    requires -0x8000_0000 <= value < 0x8000_0000
    ensures 0 <= value ==> Wrap(value) == value
    ensures value < 0 ==> Wrap(0 - Wrap(value)) == -value
  {
    if value < 0 {
      assert Wrap(value) == value + TWO32;
    }
  }

  lemma LastOfPrefix(all: string, n: nat)
    requires 0 < n <= |all|
    ensures all[..n][n - 1] == all[n - 1] && all[..n][..n - 1] == all[..n - 1]
  {
  }

  lemma DigitsEnd(rest: nat, base: nat, upper: bool, quotient: nat, last: nat)
    requires 2 <= base <= 16 && quotient == rest / base && last == rest % base
    ensures last < 16
    ensures
      var s := Digits(rest, base, upper);
      && s[|s| - 1] == DigitTable(upper)[last]
      && (quotient == 0 <==> |s| == 1)
      && (quotient != 0 ==> quotient < rest && Digits(quotient, base, upper) == s[..|s| - 1])
  {
    TableHoldsDigits(last, upper);
    if rest >= base {
      QuotientShrinks(rest, base);
    } else {
      SmallQuotient(rest, base);
    }
  }

  lemma SmallQuotient(v: nat, base: nat)
    requires v < base
    ensures v / base == 0 && v % base == v
  {
  }

  /** The token a % followed by this character makes. */
  function ConversionToken(conversion: char): (t: Token)
    ensures t.WordConv? ==> IsWordKind(t.kind)
  {
    if conversion == '%' then Literal('%')
    else if conversion == 's' then StringConv
    else if IsWordKind(conversion) then WordConv(conversion)
    else Unknown(conversion)
  }

  // Unfolding the rendering by one token at position i of the format, along the
  // branches of the interpreter loop.

  lemma LiteralStep(format: CString, i: nat, args: seq<Arg>, text: string, whole: string)
    requires i < |format| && format[i] != '%' && WellTyped(format[i..], args)
    requires text + Render(format[i..], args) == whole
    ensures WellTyped(format[i + 1..], args)
    ensures text + [format[i]] + Render(format[i + 1..], args) == whole
  {
    var f := format[i..];
    assert FirstToken(f) == (Literal(format[i]), 1);
    assert Rest(f) == format[i + 1..];
    Assoc(text, [format[i]], Render(format[i + 1..], args));
  }

  lemma LoneStep(format: CString, i: nat, args: seq<Arg>, text: string, whole: string)
    requires i + 1 == |format| && format[i] == '%' && WellTyped(format[i..], args)
    requires text + Render(format[i..], args) == whole
    ensures text + ['%'] == whole
  {
    var f := format[i..];
    assert f == "%" && Rest(f) == "";
    assert Render(Rest(f), args) == "";
    assert Render(f, args) == "%" + "";
  }

  lemma ConversionStep(format: CString, i: nat, args: seq<Arg>, next: nat, text: string, whole: string)
    requires i + 1 < |format| && format[i] == '%' && next <= |args|
    requires WellTyped(format[i..], args[next..])
    requires text + Render(format[i..], args[next..]) == whole
    ensures
      var t := ConversionToken(format[i + 1]);
      var next' := if TakesArg(t) then next + 1 else next;
      && Suits(t, args[next..]) && next' <= |args|
      && WellTyped(format[i + 2..], args[next'..])
      && text + TokenText(t, args[next..]) + Render(format[i + 2..], args[next'..]) == whole
  {
    var f, t := format[i..], ConversionToken(format[i + 1]);
    assert FirstToken(f) == (t, 2);
    assert Rest(f) == format[i + 2..];
    assert TakesArg(t) ==> args[next..][1..] == args[next + 1..];
    Assoc(text, TokenText(t, args[next..]), Render(Rest(f), AfterToken(t, args[next..])));
  }

  /** The printf module: the 16 KiB buffer at 0xFFF88000 and the static offset. */
  class Runtime {
    const memory: array<char>
    var offset: u32
    ghost const initial: Image        // what the buffer held at reset
    ghost var history: seq<string>    // the text of every call since then

    ghost predicate Valid()
      reads this, memory
    {
      && memory.Length == SIZE
      && LogState(memory[..], offset) == After(initial, history)
    }

    constructor (memory: array<char>)
      requires memory.Length == SIZE
      ensures Valid() && history == [] && this.memory == memory
      ensures offset == 0
    {
      this.memory := memory;
      offset := 0;
      initial, history := memory[..], [];
    }

    /** The invariant in the reader's terms: after any calls, the buffer decodes to
        the pieces of the messages since the last wrap, which are those messages
        exactly when none of them holds a NUL. */
    lemma Decodes()
      requires Valid()
      ensures ReadLog(memory[..], 0, offset) == AllPieces(CurrentLap(history))
      ensures ReadLog(memory[..], 0, offset) == CurrentLap(history)
              <==> forall m | m in CurrentLap(history) :: NUL !in m
    {
      LogReadsPieces(initial, history);
      LogRoundTrip(initial, history);
    }

    /** printf: the ideal text is stored at the old offset, cut to the room left
        and terminated; no other byte changes; the offset moves on (all of that is
        Call); the returned int is the length of the ideal text. */
    method Printf(format: CString, args: seq<Arg>) returns (printed: int)
      requires Valid()
      requires WellTyped(format, args) && |Render(format, args)| < TWO32
      modifies this, memory
      ensures Valid() && history == old(history) + [Render(format, args)]
      ensures LogState(memory[..], offset) == Call(old(LogState(memory[..], offset)), Render(format, args))
      ensures printed == AsSigned(|Render(format, args)|)
    {
      AfterSnoc(initial, history, Render(format, args));
      printed := Write(format, args);
      history := history + [Render(format, args)];
    }

    /** The body of printf; the history of the run is kept by its caller. */
    method Write(format: CString, args: seq<Arg>) returns (printed: int)
      requires memory.Length == SIZE && ValidOffset(offset)
      requires WellTyped(format, args) && |Render(format, args)| < TWO32
      modifies this`offset, memory
      ensures LogState(memory[..], offset) == Call(old(LogState(memory[..], offset)), Render(format, args))
      ensures printed == AsSigned(|Render(format, args)|)
    {
      var output := new OutputBuffer(memory, offset);
      output.AppendFormatted(format, args);
      assert output.text == Render(format, args);
      offset := output.Terminate();
      printed := AsSigned(output.length);
    }
  }
}
