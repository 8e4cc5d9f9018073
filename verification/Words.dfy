/** Machine words shared by every component: bytes, 32-bit unsigned words and
    their big-endian encodings, with the result type used for raised errors. */
module Words {

  const TWO32: int := 0x1_0000_0000

  type byte = x: int | 0 <= x < 0x100
  type u16 = x: int | 0 <= x < 0x1_0000
  type u32 = x: int | 0 <= x < 0x1_0000_0000

  datatype Option<+T> = None | Some(value: T)

  /** The ways an operation of the capture script stops without a result. */
  datatype Error =
    | OutsidePibmem      // ValueError: an address the memory image does not hold
    | NotRecovered       // ValueError: no interrupted backchain on the stack
    | PackRange          // struct.error: a value too wide for its field
    | BadElf             // ValueError: not a 32-bit big-endian PowerPC ELF
    | Truncated          // struct.error: a table reaches past the end of the file
    | BadLink            // IndexError: a string-table link past the section list
    | MissingSymbols     // ValueError: a wanted symbol does not occur
    | BadSymbolAddress   // ValueError: half a pair, misaligned or outside PIBMEM

  datatype Result<+T> = Ok(value: T) | Err(error: Error) {
    predicate IsFailure() {
      Err?
    }

    function PropagateFailure<U>(): Result<U>
      requires Err?
    {
      Err(error)
    }

    function Extract(): T
      requires Ok?
    {
      value
    }
  }

  /** 32-bit arithmetic wraps: a C conversion to unsigned, an address on the machine. */
  function Wrap(value: int): u32 {
    value % TWO32
  }

  lemma FitsIn32(value: int)
    requires 0 <= value < TWO32
    ensures Wrap(value) == value
  {
  }

  /** Byte j (0 is the most significant) of a 32-bit word. */
  function ByteOf(w: u32, j: nat): byte
    requires j < 4
  {
    if j == 0 then w / 0x100_0000
    else if j == 1 then w / 0x1_0000 % 0x100
    else if j == 2 then w / 0x100 % 0x100
    else w % 0x100
  }

  /** The word whose big-endian bytes are a, b, c, d. */
  function FromBytes(a: byte, b: byte, c: byte, d: byte): u32 {
    a * 0x100_0000 + b * 0x1_0000 + c * 0x100 + d
  }

  lemma FromByteOf(w: u32)
    ensures FromBytes(ByteOf(w, 0), ByteOf(w, 1), ByteOf(w, 2), ByteOf(w, 3)) == w
  {
    assert w / 0x1_0000 == w / 0x100_0000 * 0x100 + w / 0x1_0000 % 0x100;
    assert w / 0x100 == w / 0x1_0000 * 0x100 + w / 0x100 % 0x100;
  }

  /** Big-endian unsigned word starting at offset. */
  function Read32(s: seq<byte>, offset: nat): u32
    requires offset + 4 <= |s|
  {
    FromBytes(s[offset], s[offset + 1], s[offset + 2], s[offset + 3])
  }

  /** Big-endian unsigned half word starting at offset. */
  function Read16(s: seq<byte>, offset: nat): u16
    requires offset + 2 <= |s|
  {
    s[offset] as int * 0x100 + s[offset + 1]
  }

  /** Words are big-endian: the byte at the lowest address is the most significant one,
      and a word is its two half words in this order. */
  lemma BigEndian(s: seq<byte>, offset: nat)
    requires offset + 4 <= |s|
    ensures
      var w := Read32(s, offset);
      && w / 0x100_0000 == s[offset] && w / 0x1_0000 % 0x100 == s[offset + 1]
      && w / 0x100 % 0x100 == s[offset + 2] && w % 0x100 == s[offset + 3]
    ensures Read32(s, offset) == Read16(s, offset) * 0x1_0000 + Read16(s, offset + 2)
  {
    var w: int, a: int, b: int, c: int, d: int :=
      Read32(s, offset), s[offset], s[offset + 1], s[offset + 2], s[offset + 3];
    assert w == ((a * 0x100 + b) * 0x100 + c) * 0x100 + d;
    assert w / 0x100 == (a * 0x100 + b) * 0x100 + c;
    assert w / 0x1_0000 == a * 0x100 + b;
  }

  /** struct.pack(">nI", ...): the words in order, four bytes each. */
  function PackWords(ws: seq<u32>): (s: seq<byte>)
    ensures |s| == 4 * |ws|
  {
    seq(4 * |ws|, k requires 0 <= k < 4 * |ws| => ByteOf(ws[k / 4], k % 4))
  }

  /** struct.pack(">nH", ...): the half words in order, two bytes each. */
  function PackHalves(hs: seq<u16>): (s: seq<byte>)
    ensures |s| == 2 * |hs|
  {
    seq(2 * |hs|, k requires 0 <= k < 2 * |hs| => if k % 2 == 0 then hs[k / 2] / 0x100 else hs[k / 2] % 0x100)
  }

  /** Reading field i of a packed group back, wherever the group lies in a file. */
  lemma WordInGroup(pre: seq<byte>, ws: seq<u32>, post: seq<byte>, i: nat)
    requires i < |ws|
    ensures Read32(pre + PackWords(ws) + post, |pre| + 4 * i) == ws[i]
  {
    var s := pre + PackWords(ws) + post;
    assert forall j | 0 <= j < 4 :: s[|pre| + (4 * i + j)] == ByteOf(ws[i], j);
    FromByteOf(ws[i]);
  }

  lemma WordAtFront(ws: seq<u32>, post: seq<byte>, i: nat)
    requires i < |ws|
    ensures Read32(PackWords(ws) + post, 4 * i) == ws[i]
  {
    var s := PackWords(ws);
    assert [] + s == s;
    WordInGroup([], ws, post, i);
  }

  lemma HalfInGroup(pre: seq<byte>, hs: seq<u16>, post: seq<byte>, i: nat)
    requires i < |hs|
    ensures Read16(pre + PackHalves(hs) + post, |pre| + 2 * i) == hs[i]
  {
    var s := pre + PackHalves(hs) + post;
    assert s[|pre| + (2 * i)] == hs[i] / 0x100;
    assert s[|pre| + (2 * i + 1)] == hs[i] % 0x100;
  }

  lemma SliceOfSlice<T>(s: seq<T>, lo: nat, hi: nat, a: nat, b: nat)
    requires a <= b <= hi - lo && hi <= |s|
    ensures s[lo..hi][a..b] == s[lo + a..lo + b]
  {
    var t := s[lo..hi];
    forall i | 0 <= i < b - a
      ensures t[a..b][i] == s[lo + a..lo + b][i]
    {
      assert t[a + i] == s[lo + (a + i)];
      assert t[a..b][i] == t[a + i];
      assert s[lo + a..lo + b][i] == s[(lo + a) + i];
    }
    assert t[a..b] == s[lo + a..lo + b];
  }

  lemma SnocMembers<T>(s: seq<T>)
    requires s != []
    ensures forall t :: t in s <==> t in s[..|s| - 1] || t == s[|s| - 1]
  {
    assert s == s[..|s| - 1] + [s[|s| - 1]];
  }

  lemma Assoc<T>(a: seq<T>, b: seq<T>, c: seq<T>)
    ensures a + (b + c) == (a + b) + c
  {
  }

  function Zeros(n: nat): (s: seq<byte>)
    ensures |s| == n
  {
    seq(n, _ => 0)
  }

  /** (x + 7) & ~7 on any Python integer: the least multiple of 8 not below x. */
  function RoundUp8(x: int): (r: int)
    ensures x <= r < x + 8 && r % 8 == 0
  {
    x + 7 - (x + 7) % 8
  }

  /** (n + 3) & ~3: the note padding. */
  function RoundUp4(n: nat): (r: nat)
    ensures n <= r < n + 4 && r % 4 == 0
  {
    n + 3 - (n + 3) % 4
  }
}
