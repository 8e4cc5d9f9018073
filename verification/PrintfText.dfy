/** The ideal text of a printf call: what firmware/runtime/printf.c would print
    into an unbounded buffer. Everything here is a value; the buffer, its
    clamping and the persistent offset are in PrintfLog and PrintfRuntime. */
module PrintfText {
  import opened Words

  const NUL: char := '\0'

  /** A C string: the characters before its terminator. */
  type CString = s: string | NUL !in s

  /** The character a pointer i places past the start of s points at. */
  function CharAt(s: CString, i: nat): char
    requires i <= |s|
  {
    if i < |s| then s[i] else NUL
  }

  lemma CharAtEnd(s: CString, i: nat)
    requires i <= |s|
    ensures CharAt(s, i) == NUL <==> i == |s|
  {
    if i < |s| {
      assert s[i] in s;
    }
  }

  // ---------------------------------------------------------------------------
  // Integer conversions
  // ---------------------------------------------------------------------------

  function DigitTable(upper: bool): (t: string)
    ensures |t| == 16
  {
    if upper then "0123456789ABCDEF" else "0123456789abcdef"
  }

  /** The character of a digit below 16, by its distance from '0' or from the letter A. */
  function DigitChar(d: nat, upper: bool): char
    requires d < 16
  {
    if d < 10 then ('0' as int + d) as char
    else ((if upper then 'A' as int else 'a' as int) + (d - 10)) as char
  }

  lemma TableHoldsDigits(d: nat, upper: bool)
    requires d < 16
    ensures DigitTable(upper)[d] == DigitChar(d, upper)
  {
  }

  /** Most significant digit first. */
  function Digits(value: nat, base: nat, upper: bool): (s: string)
    requires 2 <= base <= 16
    ensures |s| > 0
    decreases value
  {
    if value < base then [DigitChar(value, upper)]
    else Digits(value / base, base, upper) + [DigitChar(value % base, upper)]
  }

  /** The two's complement reading of a 32-bit word. */
  function AsSigned(w: u32): int {
    if w < 0x8000_0000 then w else w - TWO32
  }

  /** It is the one signed value of 32 bits that converts back to the word. */
  lemma AsSignedExact(w: u32)
    ensures -0x8000_0000 <= AsSigned(w) < 0x8000_0000 && Wrap(AsSigned(w)) == w
  {
    if w >= 0x8000_0000 {
      assert AsSigned(w) + TWO32 == w;
    }
  }

  function SignedDigits(value: int): string {
    if value < 0 then "-" + Digits(-value, 10, false) else Digits(value, 10, false)
  }

  function DigitValue(c: char): Option<nat> {
    if '0' <= c <= '9' then Some(c as int - '0' as int)
    else if 'a' <= c <= 'f' then Some(c as int - 'a' as int + 10)
    else if 'A' <= c <= 'F' then Some(c as int - 'A' as int + 10)
    else None
  }

  /** An independent reader of numerals: Horner's rule from the left. */
  function ParseUnsigned(s: string, base: nat): Option<nat> {
    if s == [] then None
    else
      match DigitValue(s[|s| - 1])
      case None => None
      case Some(d) =>
        if d >= base then None
        else if |s| == 1 then Some(d)
        else
          match ParseUnsigned(s[..|s| - 1], base)
          case None => None
          case Some(high) => Some(high * base + d)
  }

  function ParseSigned(s: string): Option<int> {
    if s != [] && s[0] == '-' then
      match ParseUnsigned(s[1..], 10)
      case None => None
      case Some(n) => Some(0 - n as int)
    else
      match ParseUnsigned(s, 10)
      case None => None
      case Some(n) => Some(n)
  }

  lemma ValueOfDigit(d: nat, upper: bool)
    requires d < 16
    ensures DigitValue(DigitChar(d, upper)) == Some(d)
  {
  }

  lemma ParseSnoc(s: string, c: char, base: nat, high: nat, d: nat)
    requires ParseUnsigned(s, base) == Some(high)
    requires DigitValue(c) == Some(d) && d < base
    ensures ParseUnsigned(s + [c], base) == Some(high * base + d)
  {
    assert (s + [c])[..|s|] == s;
  }

  /** Printed digits parse back, and carry no leading zero except in "0". */
  lemma {:induction false} DigitsRoundTrip(value: nat, base: nat, upper: bool)
    requires 2 <= base <= 16
    ensures ParseUnsigned(Digits(value, base, upper), base) == Some(value)
    ensures Digits(value, base, upper)[0] == '0' <==> value == 0
    ensures Digits(value, base, upper)[0] != '-'
    ensures NUL !in Digits(value, base, upper)
    decreases value
  {
    if value < base {
      ValueOfDigit(value, upper);
    } else {
      var high, d := value / base, value % base;
      assert high * base + d == value;
      QuotientShrinks(value, base);
      DigitsRoundTrip(high, base, upper);
      ValueOfDigit(d, upper);
      ParseSnoc(Digits(high, base, upper), DigitChar(d, upper), base, high, d);
    }
  }

  lemma QuotientShrinks(value: nat, base: nat)
    requires 2 <= base <= value
    ensures 0 < value / base < value
    ensures value / base <= value / 2
  {
    var q, r := value / base, value % base;
    DivisionStep(value, base, q, r);
  }

  lemma DivisionStep(value: nat, base: nat, q: int, r: int)
    requires 2 <= base <= value && q == value / base && r == value % base
    ensures 0 < q < value && q <= value / 2
  {
    assert value == q * base + r && 0 <= r < base;
    WholePart(value, base, q, r);
  }

  lemma WholePart(value: nat, base: nat, q: int, r: int)
    requires 2 <= base <= value && value == q * base + r && 0 <= r < base
    ensures 0 < q && 2 * q <= value
  {
    ProductBounds(q, base);
  }

  lemma ProductBounds(q: int, base: nat)
    requires 2 <= base
    ensures if q <= 0 then q * base <= 0 else 2 * q <= q * base
  {
    assert q * base == 2 * q + q * (base - 2);
  }

  lemma ParseMinus(digits: string, n: nat)
    requires ParseUnsigned(digits, 10) == Some(n)
    ensures ParseSigned("-" + digits) == Some(0 - n)
  {
    assert ("-" + digits)[1..] == digits;
  }

  lemma ParsePlain(digits: string, n: nat)
    requires ParseUnsigned(digits, 10) == Some(n) && digits != "" && digits[0] != '-'
    ensures ParseSigned(digits) == Some(n)
  {
  }

  /** Signed output parses back for every 32-bit integer, -2^31 included. */
  lemma SignedRoundTrip(w: u32)
    ensures ParseSigned(SignedDigits(AsSigned(w))) == Some(AsSigned(w))
    ensures NUL !in SignedDigits(AsSigned(w))
  {
    var value := AsSigned(w);
    if value < 0 {
      DigitsRoundTrip(-value, 10, false);
      ParseMinus(Digits(-value, 10, false), -value);
    } else {
      DigitsRoundTrip(value, 10, false);
      ParsePlain(Digits(value, 10, false), value);
    }
  }

  /** 2^n */
  function Pow2(n: nat): nat {
    if n == 0 then 1 else 2 * Pow2(n - 1)
  }

  /** A value below 2^n has at most n digits, whatever the base. */
  lemma {:induction false} DigitsFit(value: nat, base: nat, upper: bool, n: nat)
    requires 2 <= base <= 16 && n > 0
    requires value < Pow2(n)
    ensures |Digits(value, base, upper)| <= n
    decreases n
  {
    if value >= base {
      QuotientShrinks(value, base);
      assert Pow2(n) == 2 * Pow2(n - 1);
      assert n > 1 by {
        assert Pow2(0) == 1;
      }
      DigitsFit(value / base, base, upper, n - 1);
    }
  }

  /** reversed[32] in append_unsigned is never overrun. */
  lemma ScratchNeverOverrun(value: u32, base: nat, upper: bool)
    requires 2 <= base <= 16
    ensures |Digits(value, base, upper)| <= 32
  {
    Pow2Of32();
    DigitsFit(value, base, upper, 32);
  }

  lemma Pow2Of32()
    ensures Pow2(32) == TWO32
  {
    assert Pow2(4) == 16;
    assert Pow2(8) == 16 * 16 by { Pow2Sum(4, 4); }
    assert Pow2(16) == 256 * 256 by { Pow2Sum(8, 8); }
    Pow2Sum(16, 16);
  }

  lemma {:induction false} Pow2Sum(a: nat, b: nat)
    ensures Pow2(a + b) == Pow2(a) * Pow2(b)
  {
    if a > 0 {
      Pow2Sum(a - 1, b);
      DoubleProduct(Pow2(a - 1), Pow2(b));
      assert Pow2(a + b) == 2 * Pow2((a - 1) + b);
    }
  }

  lemma DoubleProduct(x: nat, y: nat)
    ensures 2 * (x * y) == (2 * x) * y
  {
  }

  // ---------------------------------------------------------------------------
  // The format language
  // ---------------------------------------------------------------------------

  /** One variadic argument: a 32-bit word or a possibly null string pointer. */
  datatype Arg = Word(bits: u32) | Pointer(target: Option<CString>)

  datatype Token =
    | Literal(c: char)      // an ordinary character, or the % of %%
    | WordConv(kind: char)  // one of c d i u x X: takes a word
    | StringConv            // %s: takes a pointer
    | Unknown(kind: char)   // printed as it stands, % included
    | LonePercent           // a trailing %

  predicate IsWordKind(k: char) {
    k in "cdiuxX"
  }

  /** The first token of a nonempty format and the number of characters it spans. */
  function FirstToken(f: CString): (r: (Token, nat))
    requires f != []
    ensures 1 <= r.1 <= |f|
    ensures r.0 == LonePercent <==> f == "%"
  {
    if f[0] != '%' then (Literal(f[0]), 1)
    else if |f| == 1 then (LonePercent, 1)
    else if f[1] == '%' then (Literal('%'), 2)
    else if f[1] == 's' then (StringConv, 2)
    else if IsWordKind(f[1]) then (WordConv(f[1]), 2)
    else (Unknown(f[1]), 2)
  }

  /** The format after its first token. */
  function Rest(f: CString): CString
    requires f != []
  {
    f[FirstToken(f).1..]
  }

  predicate TakesArg(t: Token) {
    t.WordConv? || t.StringConv?
  }

  /** Whether the next arguments suit a token: what C demands of va_arg. */
  predicate Suits(t: Token, args: seq<Arg>) {
    && (t.WordConv? ==> args != [] && args[0].Word?)
    && (t.StringConv? ==> args != [] && args[0].Pointer?)
  }

  function AfterToken(t: Token, args: seq<Arg>): seq<Arg>
    requires Suits(t, args)
  {
    if TakesArg(t) then args[1..] else args
  }

  predicate WellTyped(f: CString, args: seq<Arg>)
    decreases |f|
  {
    f == [] ||
    var t := FirstToken(f).0;
    Suits(t, args) && WellTyped(Rest(f), AfterToken(t, args))
  }

  function WordText(kind: char, w: u32): string
    requires IsWordKind(kind)
  {
    if kind == 'c' then [(w % 0x100) as char]
    else if kind == 'd' || kind == 'i' then SignedDigits(AsSigned(w))
    else if kind == 'u' then Digits(w, 10, false)
    else Digits(w, 16, kind == 'X')
  }

  /** What each word conversion prints, told by reading the text back. */
  lemma WordTextMeaning(kind: char, w: u32)
    requires IsWordKind(kind)
    ensures kind == 'c' ==> WordText(kind, w) == [(w % 0x100) as char]
    ensures kind == 'd' || kind == 'i' ==> ParseSigned(WordText(kind, w)) == Some(AsSigned(w))
    ensures kind == 'u' ==> ParseUnsigned(WordText(kind, w), 10) == Some(w)
    ensures kind == 'x' || kind == 'X' ==> ParseUnsigned(WordText(kind, w), 16) == Some(w)
    ensures kind == 'x' ==> forall c | c in WordText(kind, w) :: !('A' <= c <= 'F')
    ensures kind == 'X' ==> forall c | c in WordText(kind, w) :: !('a' <= c <= 'f')
  {
    SignedRoundTrip(w);
    DigitsRoundTrip(w, 10, false);
    DigitsRoundTrip(w, 16, kind == 'X');
    if kind == 'x' || kind == 'X' {
      DigitsCase(w, 16, kind == 'X');
    }
  }

  lemma {:induction false} DigitsCase(value: nat, base: nat, upper: bool)
    requires 2 <= base <= 16
    ensures forall c | c in Digits(value, base, upper) ::
      if upper then !('a' <= c <= 'f') else !('A' <= c <= 'F')
    decreases value
  {
    if value >= base {
      QuotientShrinks(value, base);
      DigitsCase(value / base, base, upper);
    }
  }

  function PointerText(p: Option<CString>): CString {
    if p.None? then "(null)" else p.value
  }

  function TokenText(t: Token, args: seq<Arg>): string
    requires Suits(t, args)
    requires t.WordConv? ==> IsWordKind(t.kind)
  {
    match t
    case Literal(c) => [c]
    case WordConv(k) => WordText(k, args[0].bits)
    case StringConv => PointerText(args[0].target)
    case Unknown(k) => ['%', k]
    case LonePercent => "%"
  }

  /** The ideal rendering of a whole call. */
  function Render(f: CString, args: seq<Arg>): string
    requires WellTyped(f, args)
    decreases |f|
  {
    if f == [] then ""
    else
      var t := FirstToken(f).0;
      TokenText(t, args) + Render(Rest(f), AfterToken(t, args))
  }

  /** How many arguments a format consumes. */
  function ArgCount(f: CString): nat
    decreases |f|
  {
    if f == [] then 0
    else
      var t := FirstToken(f).0;
      (if TakesArg(t) then 1 else 0) + ArgCount(Rest(f))
  }

  /** A format whose last token is not a dangling %, so that text appended to it
      starts a new token. */
  predicate EndsOnBoundary(f: CString)
    decreases |f|
  {
    f == [] || (f != "%" && EndsOnBoundary(Rest(f)))
  }

  function Join(f: CString, g: CString): CString {
    f + g
  }

  lemma FirstTokenOfJoin(f: CString, g: CString)
    requires f != [] && f != "%"
    ensures Join(f, g) != []
    ensures FirstToken(Join(f, g)) == FirstToken(f)
    ensures Rest(Join(f, g)) == Join(Rest(f), g)
  {
  }

  /** Arguments are consumed left to right, one per conversion: the formats f and
      g side by side take the first ArgCount(f) arguments for f and leave the
      rest to g, and their texts are concatenated. */
  lemma {:induction false} RenderJoin(f: CString, g: CString, args: seq<Arg>)
    requires EndsOnBoundary(f)
    requires WellTyped(Join(f, g), args)
    ensures ArgCount(f) <= |args|
    ensures WellTyped(f, args) && WellTyped(g, args[ArgCount(f)..])
    ensures Render(Join(f, g), args) == Render(f, args) + Render(g, args[ArgCount(f)..])
    decreases |f|
  {
    if f == [] {
      assert Join(f, g) == g;
      assert args[0..] == args;
    } else {
      var t := FirstToken(f).0;
      FirstTokenOfJoin(f, g);
      var rest := AfterToken(t, args);
      RenderJoin(Rest(f), g, rest);
      assert rest[ArgCount(Rest(f))..] == args[ArgCount(f)..];
      Assoc(TokenText(t, args), Render(Rest(f), rest), Render(g, args[ArgCount(f)..]));
    }
  }

  /** Arguments past the ArgCount(f) first are never looked at. */
  lemma {:induction false} RenderIgnoresExtraArgs(f: CString, args: seq<Arg>, more: seq<Arg>)
    requires WellTyped(f, args)
    ensures WellTyped(f, args + more)
    ensures Render(f, args + more) == Render(f, args)
    decreases |f|
  {
    if f != [] {
      var t := FirstToken(f).0;
      RenderIgnoresExtraArgs(Rest(f), AfterToken(t, args), more);
      assert AfterToken(t, args + more) == AfterToken(t, args) + more;
    }
  }

  /** The format without its last character. */
  function Init(f: CString): CString
    requires f != ""
  {
    f[..|f| - 1]
  }

  /** The one way a boundary can be missing: a % that no character follows. */
  lemma {:induction false} DanglingPercent(f: CString)
    ensures !EndsOnBoundary(f) <==> f != "" && EndsOnBoundary(Init(f)) && f[|f| - 1] == '%'
    decreases |f|
  {
    if f != "" {
      if |f| == FirstToken(f).1 {
        assert Rest(f) == "";
      } else {
        DanglingPercent(Rest(f));
        assert FirstToken(Init(f)) == FirstToken(f);
        assert Rest(Init(f)) == Init(Rest(f));
      }
    }
  }

  predicate IsConversion(k: char) {
    k == 's' || IsWordKind(k)
  }

  lemma PercentToken(g: CString)
    requires g != ""
    ensures
      var f := Join("%", g);
      && FirstToken(f).1 == 2 && Rest(f) == g[1..]
      && (IsConversion(g[0]) <==> TakesArg(FirstToken(f).0))
      && (g[0] == '%' ==> FirstToken(f).0 == Literal('%'))
      && (!IsConversion(g[0]) && g[0] != '%' ==> FirstToken(f).0 == Unknown(g[0]))
    ensures g[0] != '%' ==> FirstToken(g) == (Literal(g[0]), 1) && Rest(g) == g[1..]
  {
    assert Join("%", g)[1] == g[0];
  }

  /** What a dangling % takes from the format g put behind it, given the arguments left
      for g: a conversion letter becomes a conversion and takes an argument of its own, a
      % becomes the second half of %%, and any other character is printed as before. */
  lemma PercentTakes(g: CString, args: seq<Arg>)
    requires g != "" && WellTyped(Join("%", g), args)
    ensures WellTyped("%", args)
    ensures IsConversion(g[0]) ==>
      && ArgCount(Join("%", g)) == ArgCount(g) + 1
      && args != [] && WellTyped(g[1..], args[1..])
      && Render(Join("%", g), args) == TokenText(FirstToken(Join("%", g)).0, args) + Render(g[1..], args[1..])
    ensures g[0] == '%' ==>
      && ArgCount(Join("%", g)) == ArgCount(g[1..]) && WellTyped(g[1..], args)
      && Render(Join("%", g), args) == Render("%", args) + Render(g[1..], args)
    ensures !IsConversion(g[0]) && g[0] != '%' ==>
      && ArgCount(Join("%", g)) == ArgCount(g) && WellTyped(g, args)
      && Render(Join("%", g), args) == Render("%", args) + Render(g, args)
  {
    PercentToken(g);
    LoneText(args);
    if !IsConversion(g[0]) && g[0] != '%' {
      Assoc("%", [g[0]], Render(g[1..], args));
      assert "%" + [g[0]] == ['%', g[0]];
    }
  }

  lemma LoneText(args: seq<Arg>)
    ensures WellTyped("%", args) && Render("%", args) == "%" && ArgCount("%") == 0
  {
    assert Rest("%") == "";
    assert Render("%", args) == "%" + "";
  }

  /** A dangling % costs no argument and is printed last. */
  lemma DanglingAlone(h: CString, args: seq<Arg>)
    requires EndsOnBoundary(h) && WellTyped(h, args)
    ensures ArgCount(Join(h, "%")) == ArgCount(h) <= |args|
    ensures WellTyped(Join(h, "%"), args) && Render(Join(h, "%"), args) == Render(h, args) + "%"
  {
    ArgCountJoin(h, "%");
    EnoughArgs(h, args);
    LoneText(args[ArgCount(h)..]);
    WellTypedJoin(h, "%", args);
    RenderJoin(h, "%", args);
  }

  lemma EnoughArgs(h: CString, args: seq<Arg>)
    requires EndsOnBoundary(h) && WellTyped(h, args)
    ensures ArgCount(h) <= |args|
  {
    assert Join(h, "") == h;
    RenderJoin(h, "", args);
  }

  lemma JoinThrough(h: CString, g: CString)
    ensures Join(Join(h, "%"), g) == Join(h, Join("%", g))
  {
  }

  lemma DanglingJoin(h: CString, g: CString, args: seq<Arg>)
    requires EndsOnBoundary(h) && WellTyped(Join(Join(h, "%"), g), args)
    ensures WellTyped(h, args) && ArgCount(h) <= |args|
    ensures
      var rest := args[ArgCount(h)..];
      && WellTyped(Join("%", g), rest)
      && Render(Join(Join(h, "%"), g), args) == Render(h, args) + Render(Join("%", g), rest)
      && ArgCount(Join(Join(h, "%"), g)) == ArgCount(h) + ArgCount(Join("%", g))
  {
    JoinThrough(h, g);
    RenderJoin(h, Join("%", g), args);
    ArgCountJoin(h, Join("%", g));
  }

  lemma DanglingUnknown(h: CString, g: CString, args: seq<Arg>)
    requires EndsOnBoundary(h) && WellTyped(Join(Join(h, "%"), g), args)
    requires g != "" && !IsConversion(g[0]) && g[0] != '%'
    ensures WellTyped(h, args) && ArgCount(h) <= |args| && WellTyped(Join(h, "%"), args)
    ensures WellTyped(g, args[ArgCount(h)..])
    ensures Render(Join(Join(h, "%"), g), args) == Render(Join(h, "%"), args) + Render(g, args[ArgCount(h)..])
  {
    DanglingJoin(h, g, args);
    DanglingAlone(h, args);
    var rest := args[ArgCount(h)..];
    PercentTakes(g, rest);
    LoneText(rest);
    Assoc(Render(h, args), "%", Render(g, rest));
  }

  lemma DanglingSplit(f: CString)
    requires !EndsOnBoundary(f)
    ensures f != "" && EndsOnBoundary(Init(f)) && f == Join(Init(f), "%")
  {
    DanglingPercent(f);
    assert f == f[..|f| - 1] + [f[|f| - 1]];
  }

  /** The law of concatenation past a dangling %: what comes before it is printed as
      before, and it takes what PercentTakes says from g. The texts are concatenated
      all the same where g begins with neither % nor a conversion letter; a conversion
      letter costs an argument more than f and g do apart. */
  lemma DanglingPercentSwallows(f: CString, g: CString, args: seq<Arg>)
    requires !EndsOnBoundary(f) && g != "" && WellTyped(Join(f, g), args)
    ensures f != "" && ArgCount(f) <= |args| && WellTyped(f, args) && WellTyped(Init(f), args)
    ensures Render(f, args) == Render(Init(f), args) + "%"
    ensures WellTyped(Join("%", g), args[ArgCount(f)..])
    ensures Render(Join(f, g), args) == Render(Init(f), args) + Render(Join("%", g), args[ArgCount(f)..])
    ensures IsConversion(g[0]) ==> ArgCount(Join(f, g)) == ArgCount(f) + ArgCount(g) + 1
    ensures !IsConversion(g[0]) && g[0] != '%' ==>
      && WellTyped(g, args[ArgCount(f)..])
      && Render(Join(f, g), args) == Render(f, args) + Render(g, args[ArgCount(f)..])
  {
    DanglingSplit(f);
    DanglingJoin(Init(f), g, args);
    DanglingAlone(Init(f), args);
    if !IsConversion(g[0]) && g[0] != '%' {
      DanglingUnknown(Init(f), g, args);
    } else {
      PercentTakes(g, args[ArgCount(f)..]);
    }
  }

  /** The arguments and texts of f and g add up to those of f and g side by side. */
  predicate Concatenates(f: CString, g: CString, args: seq<Arg>)
    requires WellTyped(Join(f, g), args)
  {
    && ArgCount(Join(f, g)) == ArgCount(f) + ArgCount(g)
    && ArgCount(f) <= |args| && WellTyped(f, args) && WellTyped(g, args[ArgCount(f)..])
    && Render(Join(f, g), args) == Render(f, args) + Render(g, args[ArgCount(f)..])
  }

  /** A format that a % put in front of it leaves as it is: pairs of % and then nothing,
      or a character that no % turns into a conversion. */
  predicate Neutral(g: CString) {
    g == "" || if g[0] != '%' then !IsConversion(g[0]) else |g| >= 2 && g[1] == '%' && Neutral(g[2..])
  }

  lemma ShiftByPercent(a: string, b: string)
    ensures "%" + a == "%" + b <==> a == b
    ensures "%" + a != a
  {
    assert ("%" + a)[1..] == a && ("%" + b)[1..] == b;
    assert |"%" + a| == |a| + 1;
  }

  /** What a pair of % in front of g does: the dangling one is now the second. */
  lemma PercentPair(g: CString, args: seq<Arg>)
    requires g != "" && g[0] == '%' && WellTyped(Join("%", g), args)
    ensures WellTyped(g[1..], args) && ArgCount(Join("%", g)) == ArgCount(g[1..])
    ensures Render(Join("%", g), args) == "%" + Render(g[1..], args)
    ensures g == Join("%", g[1..])
  {
    PercentTakes(g, args);
    LoneText(args);
  }

  /** A lone % in front of g, and in front of %g: exactly the neutral formats keep the
      % they are given. */
  lemma {:induction false} PercentNeutral(g: CString, args: seq<Arg>)
    requires WellTyped(Join("%", g), args)
    ensures Neutral(g) <==>
      ArgCount(Join("%", g)) == ArgCount(g) && WellTyped(g, args)
      && Render(Join("%", g), args) == "%" + Render(g, args)
    decreases |g|
  {
    if g == "" {
      assert Join("%", g) == "%";
      LoneText(args);
    } else if g[0] != '%' {
      PercentTakes(g, args);
      LoneText(args);
    } else {
      PercentPair(g, args);
      if |g| >= 2 && g[1] == '%' {
        PercentTwice(g, args);
      } else {
        if WellTyped(g, args) {
          PercentOnce(g, args);
        }
      }
    }
  }

  lemma {:induction false} PercentTwice(g: CString, args: seq<Arg>)
    requires |g| >= 2 && g[0] == '%' && g[1] == '%' && WellTyped(Join("%", g), args)
    ensures Neutral(g) <==>
      ArgCount(Join("%", g)) == ArgCount(g) && WellTyped(g, args)
      && Render(Join("%", g), args) == "%" + Render(g, args)
    decreases |g|, 0
  {
    var after := g[2..];
    PercentPair(g, args);
    assert g[1..] == Join("%", after);
    PercentNeutral(after, args);
    assert FirstToken(g) == (Literal('%'), 2) && Rest(g) == after;
    if WellTyped(g, args) {
      assert Render(g, args) == "%" + Render(after, args);
      ShiftByPercent(Render(Join("%", after), args), "%" + Render(after, args));
    }
  }

  /** A single % in g is not the character it was once another % stands before it. */
  lemma PercentOnce(g: CString, args: seq<Arg>)
    requires g != "" && g[0] == '%' && (|g| == 1 || g[1] != '%')
    requires WellTyped(Join("%", g), args) && WellTyped(g, args)
    ensures !(ArgCount(Join("%", g)) == ArgCount(g) && Render(Join("%", g), args) == "%" + Render(g, args))
  {
    var after := g[1..];
    PercentPair(g, args);
    if after == "" {
      assert g == "%";
      LoneText(args);
    } else {
      PercentTakes(after, args);
      LoneText(args);
      ShiftByPercent(Render(after, args), "%" + Render(after, args));
      ShiftByPercent(Render(after, args), "");
    }
  }

  lemma SameFront(a: string, b: string, c: string)
    ensures a + b == a + c <==> b == c
  {
    if a + b == a + c {
      assert b == (a + b)[|a|..] && c == (a + c)[|a|..];
    }
  }

  /** When texts concatenate, exactly: side by side f and g take the arguments and print
      the text of the one after the other if and only if f ends on a token boundary, or
      g is one that the dangling % of f takes nothing from. */
  lemma ConcatenatesExactly(f: CString, g: CString, args: seq<Arg>)
    requires WellTyped(Join(f, g), args)
    ensures Concatenates(f, g, args) <==> EndsOnBoundary(f) || Neutral(g)
  {
    if EndsOnBoundary(f) {
      RenderJoin(f, g, args);
      ArgCountJoin(f, g);
    } else {
      DanglingSplit(f);
      DanglingConcatenates(Init(f), g, args);
    }
  }

  lemma DanglingConcatenates(h: CString, g: CString, args: seq<Arg>)
    requires EndsOnBoundary(h) && WellTyped(Join(Join(h, "%"), g), args)
    ensures Concatenates(Join(h, "%"), g, args) <==> Neutral(g)
  {
    DanglingJoin(h, g, args);
    DanglingAlone(h, args);
    var rest := args[ArgCount(h)..];
    PercentNeutral(g, rest);
    if WellTyped(g, rest) {
      Assoc(Render(h, args), "%", Render(g, rest));
      SameFront(Render(h, args), Render(Join("%", g), rest), "%" + Render(g, rest));
    }
  }

  /** Off a boundary both things happen: %%% is % and %%, but %d is not % and d. */
  lemma OffBoundaryExamples()
    ensures !EndsOnBoundary("%") && Neutral("%%") && !Neutral("d")
    ensures WellTyped(Join("%", "%%"), []) && Concatenates("%", "%%", [])
    ensures WellTyped(Join("%", "d"), [Word(7)]) && !Concatenates("%", "d", [Word(7)])
  {
    assert "%%"[2..] == "" && "%"[1..] == "" && "%d"[2..] == "";
    assert Join("%", "%%") == "%%%" && "%%%"[2..] == "%";
    assert Join("%", "d") == "%d";
    ConcatenatesExactly("%", "%%", []);
    ConcatenatesExactly("%", "d", [Word(7)]);
  }

  lemma {:induction false} ArgCountJoin(f: CString, g: CString)
    requires EndsOnBoundary(f)
    ensures ArgCount(Join(f, g)) == ArgCount(f) + ArgCount(g)
    decreases |f|
  {
    if f == [] {
      assert Join(f, g) == g;
    } else {
      FirstTokenOfJoin(f, g);
      ArgCountJoin(Rest(f), g);
    }
  }

  lemma {:induction false} WellTypedJoin(f: CString, g: CString, args: seq<Arg>)
    requires EndsOnBoundary(f) && WellTyped(f, args)
    requires ArgCount(f) <= |args| && WellTyped(g, args[ArgCount(f)..])
    ensures WellTyped(Join(f, g), args)
    decreases |f|
  {
    if f == [] {
      assert Join(f, g) == g && args[0..] == args;
    } else {
      var t := FirstToken(f).0;
      FirstTokenOfJoin(f, g);
      var rest := AfterToken(t, args);
      assert rest[ArgCount(Rest(f))..] == args[ArgCount(f)..];
      WellTypedJoin(Rest(f), g, rest);
    }
  }

  // ---------------------------------------------------------------------------
  // What each conversion shows
  // ---------------------------------------------------------------------------

  /** text is the numeral of value: it reads back and has no superfluous zero. */
  predicate IsNumeral(text: string, base: nat, value: nat) {
    text != "" && (text[0] == '0' ==> |text| == 1) && ParseUnsigned(text, base) == Some(value)
  }

  predicate IsSignedNumeral(text: string, value: int) {
    if value < 0 then text != "" && text[0] == '-' && IsNumeral(text[1..], 10, -value)
    else IsNumeral(text, 10, value)
  }

  /** What a conversion letter promises of its text, for a word and for a string. */
  predicate ShowsWord(k: char, w: u32, text: string) {
    && (k == 'c' ==> text == [(w % 0x100) as char])
    && (k == 'd' || k == 'i' ==> IsSignedNumeral(text, if w < 0x8000_0000 then w else w - 0x1_0000_0000))
    && (k == 'u' ==> IsNumeral(text, 10, w))
    && (k == 'x' ==> IsNumeral(text, 16, w) && forall c | c in text :: '0' <= c <= '9' || 'a' <= c <= 'f')
    && (k == 'X' ==> IsNumeral(text, 16, w) && forall c | c in text :: '0' <= c <= '9' || 'A' <= c <= 'F')
  }

  predicate Shows(k: char, arg: Arg, text: string) {
    match arg
    case Word(w) => k in "cdiuxX" && ShowsWord(k, w, text)
    case Pointer(target) => k == 's' && (match target case None => text == "(null)" case Some(s) => text == s)
  }

  lemma DigitsNumeral(value: nat, base: nat, upper: bool)
    requires 2 <= base <= 16
    ensures IsNumeral(Digits(value, base, upper), base, value)
  {
    DigitsRoundTrip(value, base, upper);
    if value == 0 {
      assert |Digits(value, base, upper)| == 1;
    }
  }

  lemma SignedNumeral(w: u32)
    ensures IsSignedNumeral(SignedDigits(AsSigned(w)), AsSigned(w))
  {
    var value := AsSigned(w);
    if value < 0 {
      DigitsNumeral(-value, 10, false);
      assert SignedDigits(value)[1..] == Digits(-value, 10, false);
    } else {
      DigitsNumeral(value, 10, false);
    }
  }

  lemma {:induction false} HexDigits(value: nat, upper: bool)
    ensures forall c | c in Digits(value, 16, upper) ::
      '0' <= c <= '9' || if upper then 'A' <= c <= 'F' else 'a' <= c <= 'f'
    decreases value
  {
    if value >= 16 {
      HexDigits(value / 16, upper);
    }
  }

  lemma WordShown(k: char, w: u32)
    requires IsWordKind(k)
    ensures ShowsWord(k, w, WordText(k, w))
  {
    SignedNumeral(w);
    DigitsNumeral(w, 10, false);
    DigitsNumeral(w, 16, k == 'X');
    HexDigits(w, k == 'X');
  }

  /** A conversion at the front of a format: the letters c, d, i, s, u, x and X take the
      next argument and show it; %% is a %; any other letter is printed with its %. */
  lemma FrontMeaning(k: char, g: CString, args: seq<Arg>) returns (text: string)
    requires k != NUL && WellTyped(Join(['%', k], g), args)
    ensures k in "cdisuxX" ==>
      && args != [] && Shows(k, args[0], text) && WellTyped(g, args[1..])
      && Render(Join(['%', k], g), args) == text + Render(g, args[1..])
    ensures k !in "cdisuxX" ==>
      && text == (if k == '%' then "%" else ['%', k]) && WellTyped(g, args)
      && Render(Join(['%', k], g), args) == text + Render(g, args)
  {
    var f := Join(['%', k], g);
    assert f[1] == k && Rest(f) == g;
    var t := FirstToken(f).0;
    text := TokenText(t, args);
    if t.WordConv? {
      WordShown(k, args[0].bits);
    }
  }

  /** What a format means, conversion by conversion: behind any format that ends on a
      boundary and before any other, a conversion shows its own argument, the one after
      those of the format before it. */
  lemma FormatMeaning(f: CString, k: char, g: CString, args: seq<Arg>) returns (text: string)
    requires EndsOnBoundary(f) && k != NUL && WellTyped(Join(f, Join(['%', k], g)), args)
    ensures WellTyped(f, args)
    ensures k in "cdisuxX" ==>
      && ArgCount(f) < |args| && Shows(k, args[ArgCount(f)], text) && WellTyped(g, args[ArgCount(f) + 1..])
      && Render(Join(f, Join(['%', k], g)), args) == Render(f, args) + text + Render(g, args[ArgCount(f) + 1..])
    ensures k !in "cdisuxX" ==>
      && text == (if k == '%' then "%" else ['%', k])
      && ArgCount(f) <= |args| && WellTyped(g, args[ArgCount(f)..])
      && Render(Join(f, Join(['%', k], g)), args) == Render(f, args) + text + Render(g, args[ArgCount(f)..])
  {
    RenderJoin(f, Join(['%', k], g), args);
    var rest := args[ArgCount(f)..];
    text := FrontMeaning(k, g, rest);
    if k in "cdisuxX" {
      assert rest[1..] == args[ArgCount(f) + 1..];
      Assoc(Render(f, args), text, Render(g, rest[1..]));
    } else {
      Assoc(Render(f, args), text, Render(g, rest));
    }
  }

  /** %s by itself prints the string, whatever its characters; a null pointer is told. */
  lemma StringMeaning(s: CString)
    ensures WellTyped("%s", [Pointer(Some(s))]) && Render("%s", [Pointer(Some(s))]) == s
    ensures WellTyped("%s", [Pointer(None)]) && Render("%s", [Pointer(None)]) == "(null)"
  {
    assert Join(['%', 's'], "") == "%s" && Rest("%s") == "";
    var text := FrontMeaning('s', "", [Pointer(Some(s))]);
    assert text + "" == text;
    text := FrontMeaning('s', "", [Pointer(None)]);
    assert text + "" == text;
  }

  /** And any other character prints as itself. */
  lemma LiteralMeaning(f: CString, c: char, g: CString, args: seq<Arg>)
    requires EndsOnBoundary(f) && c != NUL && c != '%' && WellTyped(Join(f, Join([c], g)), args)
    ensures WellTyped(f, args) && ArgCount(f) <= |args| && WellTyped(g, args[ArgCount(f)..])
    ensures Render(Join(f, Join([c], g)), args) == Render(f, args) + [c] + Render(g, args[ArgCount(f)..])
  {
    RenderJoin(f, Join([c], g), args);
    assert Rest(Join([c], g)) == g;
    Assoc(Render(f, args), [c], Render(g, args[ArgCount(f)..]));
  }

  /** Which arguments a format demands: a word for each of c, d, i, u, x and X, a pointer
      for each s, in order. */
  lemma DemandsExactly(k: char, g: CString, args: seq<Arg>)
    requires k != NUL
    ensures WellTyped(Join(['%', k], g), args) <==>
      if k in "cdisuxX" then
        && args != [] && (if k == 's' then args[0].Pointer? else args[0].Word?) && WellTyped(g, args[1..])
      else WellTyped(g, args)
  {
    var f := Join(['%', k], g);
    assert f[1] == k && Rest(f) == g;
  }

  /** s with every % doubled. */
  function Quote(s: CString): CString {
    if s == [] then ""
    else (if s[0] == '%' then "%%" else [s[0]]) + Quote(s[1..])
  }

  /** A quoted string prints as itself and takes no argument. */
  lemma {:induction false} RenderQuote(s: CString, args: seq<Arg>)
    ensures WellTyped(Quote(s), args)
    ensures ArgCount(Quote(s)) == 0
    ensures Render(Quote(s), args) == s
  {
    if s != [] {
      RenderQuote(s[1..], args);
      var q := Quote(s);
      assert Rest(q) == Quote(s[1..]);
    }
  }

  /** No argument prints a NUL character: every %c word is nonzero in its low byte. */
  predicate NoNulArgs(f: CString, args: seq<Arg>)
    requires WellTyped(f, args)
    decreases |f|
  {
    f == [] ||
    var t := FirstToken(f).0;
    && (t == WordConv('c') ==> args[0].bits % 0x100 != 0)
    && NoNulArgs(Rest(f), AfterToken(t, args))
  }

  lemma TokenTextNul(f: CString, args: seq<Arg>)
    requires f != [] && Suits(FirstToken(f).0, args)
    ensures
      var t := FirstToken(f).0;
      NUL in TokenText(t, args) <==> t == WordConv('c') && args[0].bits % 0x100 == 0
  {
    var t := FirstToken(f).0;
    if t.WordConv? {
      var w := args[0].bits;
      SignedRoundTrip(w);
      DigitsRoundTrip(w, 10, false);
      DigitsRoundTrip(w, 16, t.kind == 'X');
    }
  }

  /** %c with a zero low byte is the only way to a NUL in the text. */
  lemma {:induction false} NulOnlyFromC(f: CString, args: seq<Arg>)
    requires WellTyped(f, args)
    ensures NUL !in Render(f, args) <==> NoNulArgs(f, args)
    decreases |f|
  {
    if f != [] {
      var t := FirstToken(f).0;
      TokenTextNul(f, args);
      NulOnlyFromC(Rest(f), AfterToken(t, args));
    }
  }
}
