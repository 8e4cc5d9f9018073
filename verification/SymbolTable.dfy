/** elf_details of coredump/make_sppe_core_simics.py: the entry point and the PK
    symbols of a firmware ELF (System V ABI, chapter 4 "Symbol Table" and
    "String Table"). */
module SymbolTable {
  import opened Words

  const SHT_SYMTAB: u32 := 2
  const WANTED: set<string> := {"__pk_current_thread", "__pk_priority_map"}

  /** The fields of a section header that are looked at. */
  datatype Section = Section(kind: u32, offset: u32, size: u32, link: u32, entrySize: u32)

  predicate IsPpcElf(elf: seq<byte>) {
    |elf| >= 52 && elf[..7] == [0x7f, 0x45, 0x4c, 0x46, 1, 2, 1] && Read16(elf, 18) == 20
  }

  /** Which files are read, byte by byte. */
  lemma PpcElfExactly(elf: seq<byte>)
    ensures IsPpcElf(elf) <==>
      && |elf| >= 52 && elf[0] == 0x7f && elf[1] == 0x45 && elf[2] == 0x4c && elf[3] == 0x46
      && elf[4] == 1 && elf[5] == 2 && elf[6] == 1 && elf[18] == 0 && elf[19] == 20
  {
    if |elf| >= 52 {
      assert elf[..7] == [elf[0], elf[1], elf[2], elf[3], elf[4], elf[5], elf[6]];
    }
  }

  /** Place of section header i: e_shoff + i * e_shentsize. */
  function HeaderAt(elf: seq<byte>, i: nat): nat
    requires |elf| >= 52
  {
    Read32(elf, 32) + i * Read16(elf, 46)
  }

  function SectionCount(elf: seq<byte>): nat
    requires |elf| >= 52
  {
    Read16(elf, 48)
  }

  predicate HeadersInBounds(elf: seq<byte>)
    requires |elf| >= 52
  {
    forall i | 0 <= i < SectionCount(elf) :: HeaderAt(elf, i) + 40 <= |elf|
  }

  function SectionAt(elf: seq<byte>, at: nat): Section
    requires at + 40 <= |elf|
  {
    Section(Read32(elf, at + 4), Read32(elf, at + 16), Read32(elf, at + 20), Read32(elf, at + 24), Read32(elf, at + 36))
  }

  function Sections(elf: seq<byte>): (s: seq<Section>)
    requires |elf| >= 52 && HeadersInBounds(elf)
    ensures |s| == SectionCount(elf)
  {
    seq(SectionCount(elf), i requires 0 <= i < SectionCount(elf) => SectionAt(elf, HeaderAt(elf, i)))
  }

  /** A Python slice with nonnegative bounds: cut to what is there. */
  function Slice(s: seq<byte>, lo: nat, hi: nat): seq<byte> {
    var end := if hi < |s| then hi else |s|;
    if lo < end then s[lo..end] else []
  }

  /** names.find(0, start): the first NUL at or after start, or None for Python's -1. */
  function FindZero(names: seq<byte>, start: nat): (end: Option<nat>)
    requires start <= |names|
    ensures end.Some? ==> start <= end.value < |names| && names[end.value] == 0
                          && forall j | start <= j < end.value :: names[j] != 0
    ensures end.None? ==> forall j | start <= j < |names| :: names[j] != 0
    decreases |names| - start
  {
    if start == |names| then None
    else if names[start] == 0 then Some(start)
    else FindZero(names, start + 1)
  }

  /** decode("ascii", "replace") */
  function Decode(bytes: seq<byte>): string {
    seq(|bytes|, i requires 0 <= i < |bytes| => if bytes[i] < 128 then bytes[i] as char else '\U{FFFD}')
  }

  /** The name at an offset of a string table. Without a terminator Python's end index
      is -1, so the last byte of the table is dropped. */
  function NameAt(names: seq<byte>, start: nat): string
    requires start < |names|
  {
    var end := FindZero(names, start);
    Decode(names[start..if end.Some? then end.value else |names| - 1])
  }

  // ---------------------------------------------------------------------------
  // The declarative lookup
  // ---------------------------------------------------------------------------

  predicate IsSymtab(s: Section) {
    s.kind == SHT_SYMTAB && s.entrySize != 0
  }

  /** Section i is a symbol table with a k-th entry. */
  predicate HasEntry(sections: seq<Section>, i: nat, k: nat) {
    i < |sections| && IsSymtab(sections[i]) && k * sections[i].entrySize < sections[i].size
  }

  function EntryAt(sections: seq<Section>, i: nat, k: nat): nat
    requires i < |sections|
  {
    sections[i].offset + k * sections[i].entrySize
  }

  predicate LinksInBounds(sections: seq<Section>) {
    forall i | 0 <= i < |sections| :: IsSymtab(sections[i]) ==> sections[i].link < |sections|
  }

  /** Every entry of every symbol table lies in the file. */
  ghost predicate EntriesInBounds(elf: seq<byte>, sections: seq<Section>) {
    forall i: nat, k: nat | HasEntry(sections, i, k) :: EntryAt(sections, i, k) + 8 <= |elf|
  }

  function Names(elf: seq<byte>, sections: seq<Section>, i: nat): seq<byte>
    requires i < |sections| && sections[i].link < |sections|
  {
    var strings := sections[sections[i].link];
    Slice(elf, strings.offset, strings.offset + strings.size)
  }

  /** Entry k of symbol table i is a symbol of this name. */
  predicate Occurs(elf: seq<byte>, sections: seq<Section>, name: string, i: nat, k: nat) {
    && HasEntry(sections, i, k) && sections[i].link < |sections|
    && EntryAt(sections, i, k) + 8 <= |elf|
    && var names := Names(elf, sections, i);
    var start := Read32(elf, EntryAt(sections, i, k));
    start < |names| && NameAt(names, start) == name
  }

  function ValueOf(elf: seq<byte>, sections: seq<Section>, i: nat, k: nat): u32
    requires i < |sections| && EntryAt(sections, i, k) + 8 <= |elf|
  {
    Read32(elf, EntryAt(sections, i, k) + 4)
  }

  /** Table order. */
  predicate Before(i: nat, k: nat, j: nat, m: nat) {
    i < j || (i == j && k < m)
  }

  /** value is that of the last symbol of this name that comes before (j, m). */
  ghost predicate LastBefore(elf: seq<byte>, sections: seq<Section>, name: string, j: nat, m: nat, value: u32) {
    exists i: nat, k: nat ::
      && Occurs(elf, sections, name, i, k) && Before(i, k, j, m)
      && ValueOf(elf, sections, i, k) == value
      && NoneBetween(elf, sections, name, i, k, j, m)
  }

  ghost predicate NoneBetween(elf: seq<byte>, sections: seq<Section>, name: string, i: nat, k: nat, j: nat, m: nat) {
    forall i': nat, k': nat | Occurs(elf, sections, name, i', k') && Before(i', k', j, m) :: !Before(i, k, i', k')
  }

  ghost predicate NoneBefore(elf: seq<byte>, sections: seq<Section>, name: string, j: nat, m: nat) {
    forall i: nat, k: nat | Occurs(elf, sections, name, i, k) :: !Before(i, k, j, m)
  }

  /** The value of the last symbol of this name in the file. */
  ghost predicate IsLastValue(elf: seq<byte>, sections: seq<Section>, name: string, value: u32) {
    LastBefore(elf, sections, name, |sections|, 0, value)
  }

  ghost predicate Exists(elf: seq<byte>, sections: seq<Section>, name: string) {
    exists i: nat, k: nat :: Occurs(elf, sections, name, i, k)
  }

  /** What the dictionary must hold when the loops have reached (j, m). */
  ghost predicate FoundSoFar(elf: seq<byte>, sections: seq<Section>, found: map<string, u32>, j: nat, m: nat) {
    && found.Keys <= WANTED
    && (forall name | name in found :: LastBefore(elf, sections, name, j, m, found[name]))
    && (forall name | name in WANTED && name !in found :: NoneBefore(elf, sections, name, j, m))
  }

  /** Last values are unique, so the declaration determines the result. */
  lemma LastValueUnique(elf: seq<byte>, sections: seq<Section>, name: string, v: u32, w: u32)
    requires IsLastValue(elf, sections, name, v) && IsLastValue(elf, sections, name, w)
    ensures v == w
  {
    var n := |sections|;
    var i: nat, k: nat :| Occurs(elf, sections, name, i, k) && Before(i, k, n, 0)
      && ValueOf(elf, sections, i, k) == v && NoneBetween(elf, sections, name, i, k, n, 0);
    var i': nat, k': nat :| Occurs(elf, sections, name, i', k') && Before(i', k', n, 0)
      && ValueOf(elf, sections, i', k') == w && NoneBetween(elf, sections, name, i', k', n, 0);
    assert !Before(i, k, i', k') && !Before(i', k', i, k);
  }

  /** With a terminator in the table, a name is the characters up to it. */
  lemma TerminatedName(names: seq<byte>, start: nat, end: nat)
    requires start <= end < |names| && names[end] == 0 && forall j | start <= j < end :: names[j] != 0
    ensures NameAt(names, start) == Decode(names[start..end])
  {
    assert FindZero(names, start) == Some(end);
  }

  /** Without one it loses the last byte of the table: Python's -1 as a slice end. */
  lemma UnterminatedName(names: seq<byte>, start: nat)
    requires start < |names| && forall j | start <= j < |names| :: names[j] != 0
    ensures NameAt(names, start) == Decode(names[start..|names| - 1])
  {
    assert FindZero(names, start) == None;
  }

  // ---------------------------------------------------------------------------
  // The loops
  // ---------------------------------------------------------------------------

  lemma StepMiss(elf: seq<byte>, sections: seq<Section>, name: string, j: nat, m: nat)
    requires !Occurs(elf, sections, name, j, m)
    ensures NoneBefore(elf, sections, name, j, m) ==> NoneBefore(elf, sections, name, j, m + 1)
    ensures forall v: u32 | LastBefore(elf, sections, name, j, m, v) :: LastBefore(elf, sections, name, j, m + 1, v)
  {
    forall v: u32 | LastBefore(elf, sections, name, j, m, v)
      ensures LastBefore(elf, sections, name, j, m + 1, v)
    {
      var i: nat, k: nat :| Occurs(elf, sections, name, i, k) && Before(i, k, j, m)
        && ValueOf(elf, sections, i, k) == v && NoneBetween(elf, sections, name, i, k, j, m);
      assert NoneBetween(elf, sections, name, i, k, j, m + 1);
    }
  }

  lemma StepHit(elf: seq<byte>, sections: seq<Section>, name: string, j: nat, m: nat)
    requires Occurs(elf, sections, name, j, m)
    ensures LastBefore(elf, sections, name, j, m + 1, ValueOf(elf, sections, j, m))
  {
    assert Before(j, m, j, m + 1);
    assert NoneBetween(elf, sections, name, j, m, j, m + 1);
  }

  lemma CarryOver(elf: seq<byte>, sections: seq<Section>, name: string, j: nat, m: nat, v: u32)
    requires forall k: nat | k >= m :: !HasEntry(sections, j, k)
    requires LastBefore(elf, sections, name, j, m, v)
    ensures LastBefore(elf, sections, name, j + 1, 0, v)
  {
    var i: nat, k: nat :| Occurs(elf, sections, name, i, k) && Before(i, k, j, m)
      && ValueOf(elf, sections, i, k) == v && NoneBetween(elf, sections, name, i, k, j, m);
    assert NoneBetween(elf, sections, name, i, k, j + 1, 0);
  }

  lemma CarryNone(elf: seq<byte>, sections: seq<Section>, name: string, j: nat, m: nat)
    requires forall k: nat | k >= m :: !HasEntry(sections, j, k)
    requires NoneBefore(elf, sections, name, j, m)
    ensures NoneBefore(elf, sections, name, j + 1, 0)
  {
  }

  /** Moving on to the next section when this one has no entry from m on. */
  lemma NextSection(elf: seq<byte>, sections: seq<Section>, found: map<string, u32>, j: nat, m: nat)
    requires FoundSoFar(elf, sections, found, j, m)
    requires forall k: nat | k >= m :: !HasEntry(sections, j, k)
    ensures FoundSoFar(elf, sections, found, j + 1, 0)
  {
    forall name | name in found
      ensures LastBefore(elf, sections, name, j + 1, 0, found[name])
    {
      CarryOver(elf, sections, name, j, m, found[name]);
    }
    forall name | name in WANTED && name !in found
      ensures NoneBefore(elf, sections, name, j + 1, 0)
    {
      CarryNone(elf, sections, name, j, m);
    }
  }

  /** The first m entries of section j lie in the file. */
  ghost predicate ReadUpTo(elf: seq<byte>, sections: seq<Section>, j: nat, m: nat) {
    forall k: nat | k < m && HasEntry(sections, j, k) :: EntryAt(sections, j, k) + 8 <= |elf|
  }

  lemma NextEntry(elf: seq<byte>, sections: seq<Section>, j: nat, k: nat)
    requires HasEntry(sections, j, k)
    ensures EntryAt(sections, j, k + 1) == EntryAt(sections, j, k) + sections[j].entrySize
    ensures ReadUpTo(elf, sections, j, k) && EntryAt(sections, j, k) + 8 <= |elf| ==> ReadUpTo(elf, sections, j, k + 1)
  {
    assert (k + 1) * sections[j].entrySize == k * sections[j].entrySize + sections[j].entrySize;
  }

  /** One entry: its value is stored under its name if that is wanted. */
  method StoreEntry(elf: seq<byte>, sections: seq<Section>, names: seq<byte>, offset: nat, found: map<string, u32>,
                    ghost j: nat, ghost k: nat)
    returns (now: map<string, u32>)
    requires HasEntry(sections, j, k) && sections[j].link < |sections| && names == Names(elf, sections, j)
    requires offset == EntryAt(sections, j, k) && offset + 8 <= |elf|
    requires FoundSoFar(elf, sections, found, j, k)
    ensures FoundSoFar(elf, sections, now, j, k + 1)
  {
    var start: u32, value: u32 := Read32(elf, offset), Read32(elf, offset + 4);
    now := found;
    if start < |names| && NameAt(names, start) in WANTED {
      now := found[NameAt(names, start) := value];
    }
    assert now == StoredIn(found, names, start, value);
    assert Updated(elf, sections, found, now, j, k);
    FoundStep(elf, sections, found, now, j, k);
  }

  /** The inner loop over the entries of one symbol table. */
  method ScanTable(elf: seq<byte>, sections: seq<Section>, j: nat, before: map<string, u32>)
    returns (r: Result<map<string, u32>>)
    requires j < |sections| && IsSymtab(sections[j]) && sections[j].link < |sections|
    requires FoundSoFar(elf, sections, before, j, 0)
    ensures r.Ok? ==> FoundSoFar(elf, sections, r.value, j + 1, 0)
    ensures r.Ok? ==> forall k: nat | HasEntry(sections, j, k) :: EntryAt(sections, j, k) + 8 <= |elf|
    ensures r.Err? ==> r.error == Truncated && !EntriesInBounds(elf, sections)
  {
    var names := Names(elf, sections, j);
    var found: map<string, u32> := before;
    var offset: nat := sections[j].offset;
    ghost var k: nat := 0;
    while offset < sections[j].offset + sections[j].size
      invariant offset == EntryAt(sections, j, k)
      invariant FoundSoFar(elf, sections, found, j, k)
      invariant ReadUpTo(elf, sections, j, k)
      decreases sections[j].offset + sections[j].size - offset
    {
      assert HasEntry(sections, j, k);
      if offset + 8 > |elf| {
        return Err(Truncated);
      }
      found := StoreEntry(elf, sections, names, offset, found, j, k);
      NextEntry(elf, sections, j, k);
      offset := offset + sections[j].entrySize;
      k := k + 1;
    }
    NoEntryFrom(sections, j, k);
    NextSection(elf, sections, found, j, k);
    return Ok(found);
  }

  lemma NoEntryFrom(sections: seq<Section>, j: nat, m: nat)
    requires j < |sections| && sections[j].size <= m * sections[j].entrySize
    ensures forall k: nat | k >= m :: !HasEntry(sections, j, k)
  {
    forall k: nat | k >= m
      ensures k * sections[j].entrySize >= m * sections[j].entrySize
    {
    }
  }

  /** One entry: the dictionary is updated exactly when the entry names a wanted symbol. */
  ghost predicate Updated(elf: seq<byte>, sections: seq<Section>, was: map<string, u32>, found: map<string, u32>,
                          j: nat, k: nat)
    requires j < |sections| && sections[j].link < |sections| && EntryAt(sections, j, k) + 8 <= |elf|
  {
    var names, start := Names(elf, sections, j), Read32(elf, EntryAt(sections, j, k));
    found == StoredIn(was, names, start, ValueOf(elf, sections, j, k))
  }

  function StoredIn(was: map<string, u32>, names: seq<byte>, start: nat, value: u32): map<string, u32> {
    if start < |names| && NameAt(names, start) in WANTED then was[NameAt(names, start) := value] else was
  }

  lemma UpdatedFor(elf: seq<byte>, sections: seq<Section>, was: map<string, u32>, found: map<string, u32>,
                   j: nat, k: nat, name: string)
    requires HasEntry(sections, j, k) && sections[j].link < |sections| && EntryAt(sections, j, k) + 8 <= |elf|
    requires Updated(elf, sections, was, found, j, k)
    ensures name in WANTED && Occurs(elf, sections, name, j, k) ==>
      name in found && found[name] == ValueOf(elf, sections, j, k)
    ensures !(name in WANTED && Occurs(elf, sections, name, j, k)) ==>
      (name in found <==> name in was) && (name in was ==> found[name] == was[name])
  {
  }

  lemma FoundStep(elf: seq<byte>, sections: seq<Section>, was: map<string, u32>, found: map<string, u32>, j: nat, k: nat)
    requires FoundSoFar(elf, sections, was, j, k)
    requires HasEntry(sections, j, k) && sections[j].link < |sections| && EntryAt(sections, j, k) + 8 <= |elf|
    requires Updated(elf, sections, was, found, j, k)
    ensures FoundSoFar(elf, sections, found, j, k + 1)
  {
    forall name: string
      ensures name in found ==> name in WANTED && LastBefore(elf, sections, name, j, k + 1, found[name])
      ensures name in WANTED && name !in found ==> NoneBefore(elf, sections, name, j, k + 1)
    {
      UpdatedFor(elf, sections, was, found, j, k, name);
      if Occurs(elf, sections, name, j, k) {
        StepHit(elf, sections, name, j, k);
      } else {
        StepMiss(elf, sections, name, j, k);
      }
    }
  }

  /** The section list, or struct.error when a header is cut short. */
  method ReadSections(elf: seq<byte>) returns (r: Result<seq<Section>>)
    requires |elf| >= 52
    ensures r.Ok? <==> HeadersInBounds(elf)
    ensures r.Ok? ==> r.value == Sections(elf)
    ensures r.Err? ==> r.error == Truncated
  {
    var sectionOffset: u32, sectionSize: u16, sectionCount: u16 := Read32(elf, 32), Read16(elf, 46), Read16(elf, 48);
    var sections: seq<Section> := [];
    for i := 0 to sectionCount
      invariant |sections| == i
      invariant forall j | 0 <= j < i ::
        HeaderAt(elf, j) + 40 <= |elf| && sections[j] == SectionAt(elf, HeaderAt(elf, j))
    {
      assert HeaderAt(elf, i) == sectionOffset + i * sectionSize;
      if sectionOffset as int + i * sectionSize + 40 > |elf| {
        return Err(Truncated);
      }
      sections := sections + [SectionAt(elf, sectionOffset as int + i * sectionSize)];
    }
    return Ok(sections);
  }

  /** Every link and every entry of the first n sections is in bounds. */
  ghost predicate CheckedUpTo(elf: seq<byte>, sections: seq<Section>, n: nat) {
    && (forall j | 0 <= j < n && j < |sections| && IsSymtab(sections[j]) :: sections[j].link < |sections|)
    && forall j: nat, k: nat | j < n && HasEntry(sections, j, k) :: EntryAt(sections, j, k) + 8 <= |elf|
  }

  lemma CheckedNext(elf: seq<byte>, sections: seq<Section>, n: nat)
    requires CheckedUpTo(elf, sections, n) && n < |sections|
    requires IsSymtab(sections[n]) ==>
      && sections[n].link < |sections|
      && forall k: nat | HasEntry(sections, n, k) :: EntryAt(sections, n, k) + 8 <= |elf|
    ensures CheckedUpTo(elf, sections, n + 1)
  {
  }

  /** The loop over the sections that fills the dictionary. */
  method ScanTables(elf: seq<byte>, sections: seq<Section>) returns (r: Result<map<string, u32>>)
    ensures r.Ok? <==> LinksInBounds(sections) && EntriesInBounds(elf, sections)
    ensures r.Ok? ==> FoundSoFar(elf, sections, r.value, |sections|, 0)
    ensures r.Err? ==> r.error == Truncated || r.error == BadLink
  {
    var found: map<string, u32> := map[];
    for i := 0 to |sections|
      invariant FoundSoFar(elf, sections, found, i, 0)
      invariant CheckedUpTo(elf, sections, i)
    {
      if sections[i].kind != SHT_SYMTAB || sections[i].entrySize == 0 {
        NextSection(elf, sections, found, i, 0);
        CheckedNext(elf, sections, i);
        continue;
      }
      if sections[i].link >= |sections| {
        return Err(BadLink);
      }
      found :- ScanTable(elf, sections, i, found);
      CheckedNext(elf, sections, i);
    }
    return Ok(found);
  }

  /** All offsets the script follows stay inside the file and the section list. */
  ghost predicate TablesInBounds(elf: seq<byte>)
    requires |elf| >= 52
  {
    && HeadersInBounds(elf)
    && LinksInBounds(Sections(elf))
    && EntriesInBounds(elf, Sections(elf))
  }

  lemma FoundAtEnd(elf: seq<byte>, sections: seq<Section>, found: map<string, u32>, name: string)
    requires FoundSoFar(elf, sections, found, |sections|, 0) && name in WANTED
    ensures name in found <==> Exists(elf, sections, name)
    ensures name in found ==> IsLastValue(elf, sections, name, found[name])
  {
    if Exists(elf, sections, name) {
      var i: nat, k: nat :| Occurs(elf, sections, name, i, k);
      assert Before(i, k, |sections|, 0);
    }
  }

  lemma FoundSummary(elf: seq<byte>, sections: seq<Section>, found: map<string, u32>)
    requires FoundSoFar(elf, sections, found, |sections|, 0)
    ensures WANTED - found.Keys != {} <==> exists name :: name in WANTED && !Exists(elf, sections, name)
    ensures WANTED - found.Keys == {} ==>
      found.Keys == WANTED && forall name | name in WANTED :: IsLastValue(elf, sections, name, found[name])
  {
    forall name | name in WANTED
      ensures name in found <==> Exists(elf, sections, name)
      ensures name in found ==> IsLastValue(elf, sections, name, found[name])
    {
      FoundAtEnd(elf, sections, found, name);
    }
    MissingNames(found);
  }

  lemma MissingNames(found: map<string, u32>)
    requires found.Keys <= WANTED
    ensures WANTED - found.Keys != {} <==> exists name :: name in WANTED && name !in found
    ensures WANTED - found.Keys == {} ==> found.Keys == WANTED
  {
    if WANTED - found.Keys != {} {
      var name :| name in WANTED - found.Keys;
      assert name in WANTED && name !in found;
    }
    forall name | name in WANTED && name !in found
      ensures name in WANTED - found.Keys
    {
    }
  }

  // ---------------------------------------------------------------------------
  // Files as a linker lays them out
  // ---------------------------------------------------------------------------

  /** A symbol: where its name stands in the string table, the name, and st_value. */
  datatype Symbol = Symbol(nameAt: u32, name: string, value: u32)

  /** A firmware image: its entry point, where its section headers lie and how far apart,
      the ten words of each header, and the symbols of each symbol table. */
  datatype Firmware = Firmware(entry: u32, headersAt: u32, headerSize: u16, headers: seq<seq<u32>>,
                               symbols: seq<seq<Symbol>>)

  predicate HoldsBytes(file: seq<byte>, at: nat, bytes: seq<byte>) {
    at + |bytes| <= |file| && file[at..at + |bytes|] == bytes
  }

  /** ASCII text without a NUL. */
  predicate IsText(name: string) {
    forall i | 0 <= i < |name| :: '\0' < name[i] < '\U{80}'
  }

  function Ascii(name: string): (bytes: seq<byte>)
    requires IsText(name)
    ensures |bytes| == |name|
  {
    seq(|name|, i requires 0 <= i < |name| => name[i] as int)
  }

  /** A symbol in the file: its two first words packed at its place, its name terminated
      inside the string table with this header. */
  predicate SymbolHeld(elf: seq<byte>, at: nat, symbol: Symbol, strings: seq<u32>)
    requires |strings| == 10
  {
    && HoldsBytes(elf, at, PackWords([symbol.nameAt, symbol.value]))
    && NameInFile(elf, strings[4], strings[5], symbol.nameAt, symbol.name)
  }

  /** A terminated name at a place of a string table that lies in the file. */
  predicate NameInFile(elf: seq<byte>, offset: nat, size: nat, at: nat, name: string) {
    IsText(name) && at + |name| + 1 <= size && HoldsBytes(elf, offset + at, Ascii(name) + [0])
  }

  predicate HeadersHeld(elf: seq<byte>, fw: Firmware) {
    forall i | 0 <= i < |fw.headers| ::
      |fw.headers[i]| == 10 && HoldsBytes(elf, fw.headersAt + i * fw.headerSize, PackWords(fw.headers[i]))
  }

  /** Section i is a symbol table (sh_type 2 with a nonzero sh_entsize): its entries lie
      sh_entsize apart from sh_offset on and fill sh_size; sh_link names its strings. */
  predicate TableHeld(elf: seq<byte>, fw: Firmware, i: nat)
    requires i < |fw.headers| == |fw.symbols| && forall j | 0 <= j < |fw.headers| :: |fw.headers[j]| == 10
  {
    var h := fw.headers[i];
    if h[1] == 2 && h[9] != 0 then
      && h[6] < |fw.headers| && h[5] == |fw.symbols[i]| * h[9]
      && forall k | 0 <= k < |fw.symbols[i]| ::
           SymbolHeld(elf, h[4] + k * h[9], fw.symbols[i][k], fw.headers[h[6]])
    else fw.symbols[i] == []
  }

  /** A 32-bit big-endian PowerPC ELF that holds this image, wherever its parts lie. */
  predicate Assembled(elf: seq<byte>, fw: Firmware) {
    && |elf| >= 52 && |fw.headers| == |fw.symbols| < 0x1_0000
    && HoldsBytes(elf, 0, [0x7f, 0x45, 0x4c, 0x46, 1, 2, 1]) && HoldsBytes(elf, 18, PackHalves([20]))
    && HoldsBytes(elf, 24, PackWords([fw.entry])) && HoldsBytes(elf, 32, PackWords([fw.headersAt]))
    && HoldsBytes(elf, 46, PackHalves([fw.headerSize, |fw.headers|]))
    && HeadersHeld(elf, fw)
    && forall i | 0 <= i < |fw.headers| :: TableHeld(elf, fw, i)
  }

  function LastOf(table: seq<Symbol>, name: string): Option<u32> {
    if table == [] then None
    else if table[|table| - 1].name == name then Some(table[|table| - 1].value)
    else LastOf(table[..|table| - 1], name)
  }

  /** The value of the last symbol of this name over all tables in order. */
  function LastNamed(tables: seq<seq<Symbol>>, name: string): Option<u32> {
    if tables == [] then None
    else if LastOf(tables[|tables| - 1], name).Some? then LastOf(tables[|tables| - 1], name)
    else LastNamed(tables[..|tables| - 1], name)
  }

  /** What the lookup should give for an image. */
  function LookUp(fw: Firmware): Result<(u32, map<string, u32>)> {
    var thread, table := LastNamed(fw.symbols, "__pk_current_thread"), LastNamed(fw.symbols, "__pk_priority_map");
    if thread.None? || table.None? then Err(MissingSymbols)
    else Ok((fw.entry, map["__pk_current_thread" := thread.value, "__pk_priority_map" := table.value]))
  }

  /** A file around the bytes it holds at a place. */
  lemma SplitAround(file: seq<byte>, at: nat, bytes: seq<byte>) returns (pre: seq<byte>, post: seq<byte>)
    requires HoldsBytes(file, at, bytes)
    ensures |pre| == at && file == pre + bytes + post
  {
    pre, post := file[..at], file[at + |bytes|..];
  }

  lemma PackedWord(file: seq<byte>, at: nat, ws: seq<u32>, i: nat)
    requires HoldsBytes(file, at, PackWords(ws)) && i < |ws|
    ensures at + 4 * i + 4 <= |file| && Read32(file, at + 4 * i) == ws[i]
  {
    var pre, post := SplitAround(file, at, PackWords(ws));
    WordBetween(file, pre, ws, post, i);
  }

  lemma WordBetween(file: seq<byte>, pre: seq<byte>, ws: seq<u32>, post: seq<byte>, i: nat)
    requires file == pre + PackWords(ws) + post && i < |ws|
    ensures |pre| + 4 * i + 4 <= |file| && Read32(file, |pre| + 4 * i) == ws[i]
  {
    WordInGroup(pre, ws, post, i);
  }

  lemma PackedHalf(file: seq<byte>, at: nat, hs: seq<u16>, i: nat)
    requires HoldsBytes(file, at, PackHalves(hs)) && i < |hs|
    ensures at + 2 * i + 2 <= |file| && Read16(file, at + 2 * i) == hs[i]
  {
    var pre, post := SplitAround(file, at, PackHalves(hs));
    HalfInGroup(pre, hs, post, i);
  }

  /** The section headers are found again. */
  lemma AssembledHeader(elf: seq<byte>, fw: Firmware)
    requires Assembled(elf, fw)
    ensures IsPpcElf(elf) && Read32(elf, 24) == fw.entry && SectionCount(elf) == |fw.headers|
    ensures forall i: nat :: HeaderAt(elf, i) == fw.headersAt + i * fw.headerSize
  {
    PackedHalf(elf, 18, [20], 0);
    PackedWord(elf, 24, [fw.entry], 0);
    PackedWord(elf, 32, [fw.headersAt], 0);
    PackedHalf(elf, 46, [fw.headerSize, |fw.headers|], 0);
    PackedHalf(elf, 46, [fw.headerSize, |fw.headers|], 1);
  }

  lemma SectionOf(elf: seq<byte>, at: nat, h: seq<u32>)
    requires |h| == 10 && HoldsBytes(elf, at, PackWords(h))
    ensures at + 40 <= |elf| && SectionAt(elf, at) == Section(h[1], h[4], h[5], h[6], h[9])
  {
    PackedWord(elf, at, h, 1);
    PackedWord(elf, at, h, 4);
    PackedWord(elf, at, h, 5);
    PackedWord(elf, at, h, 6);
    PackedWord(elf, at, h, 9);
  }

  /** What the script keeps of a header. */
  function SectionFrom(h: seq<u32>): Section
    requires |h| == 10
  {
    Section(h[1], h[4], h[5], h[6], h[9])
  }

  lemma AssembledSection(elf: seq<byte>, fw: Firmware, i: nat)
    requires Assembled(elf, fw) && i < |fw.headers|
    ensures |fw.headers[i]| == 10 && HeaderAt(elf, i) + 40 <= |elf|
    ensures SectionAt(elf, HeaderAt(elf, i)) == SectionFrom(fw.headers[i])
  {
    AssembledHeader(elf, fw);
    SectionOf(elf, fw.headersAt + i * fw.headerSize, fw.headers[i]);
  }

  lemma AssembledSections(elf: seq<byte>, fw: Firmware)
    requires Assembled(elf, fw)
    ensures HeadersInBounds(elf) && |Sections(elf)| == |fw.headers|
    ensures forall i | 0 <= i < |fw.headers| ::
      |fw.headers[i]| == 10 && Sections(elf)[i] == SectionFrom(fw.headers[i])
  {
    AssembledHeader(elf, fw);
    forall i | 0 <= i < |fw.headers|
      ensures HeaderAt(elf, i) + 40 <= |elf|
      ensures SectionAt(elf, HeaderAt(elf, i)) == SectionFrom(fw.headers[i])
    {
      AssembledSection(elf, fw, i);
    }
  }

  lemma Distribute(a: nat, b: nat, size: nat)
    ensures (a + b) * size == a * size + b * size
  {
  }

  lemma EntryCount(k: nat, n: nat, size: nat)
    requires size > 0
    ensures k * size < n * size <==> k < n
  {
    if k < n {
      Distribute(k, n - k, size);
      PositiveProduct(n - k, size);
    } else {
      Distribute(n, k - n, size);
    }
  }

  lemma PositiveProduct(a: nat, b: nat)
    requires a > 0 && b > 0
    ensures a * b > 0
  {
  }

  /** A name is read from its table up to the terminator. */
  lemma NameHeld(elf: seq<byte>, offset: nat, size: nat, at: nat, name: string)
    requires NameInFile(elf, offset, size, at, name)
    ensures
      var names := Slice(elf, offset, offset + size);
      at < |names| && NameAt(names, at) == name
  {
    NameBytes(elf, offset, size, at, Ascii(name) + [0]);
    NameInTable(Slice(elf, offset, offset + size), at, name);
  }

  lemma NameInTable(names: seq<byte>, at: nat, name: string)
    requires IsText(name) && at + |name| + 1 <= |names| && names[at..at + |name| + 1] == Ascii(name) + [0]
    ensures NameAt(names, at) == name
  {
    var held, n := names[at..at + |name| + 1], |name|;
    forall j | at <= j < at + n
      ensures names[j] != 0
    {
      assert names[j] == held[j - at] == Ascii(name)[j - at];
    }
    assert names[at + n] == held[n] == 0;
    TerminatedName(names, at, at + n);
    SliceOfSlice(names, at, at + n + 1, 0, n);
    assert held[0..n] == Ascii(name);
    assert Decode(Ascii(name)) == name;
  }

  /** Bytes of the file that lie in a slice of it. */
  lemma NameBytes(elf: seq<byte>, offset: nat, size: nat, at: nat, bytes: seq<byte>)
    requires at + |bytes| <= size && HoldsBytes(elf, offset + at, bytes) && bytes != []
    ensures
      var names := Slice(elf, offset, offset + size);
      at + |bytes| <= |names| && names[at..at + |bytes|] == bytes
  {
    var end := if offset + size < |elf| then offset + size else |elf|;
    SliceOfSlice(elf, offset, end, at, at + |bytes|);
    assert offset + (at + |bytes|) == offset + at + |bytes|;
  }

  /** The entries of an assembled file are its symbols. */
  lemma AssembledEntry(elf: seq<byte>, fw: Firmware, i: nat, k: nat)
    requires Assembled(elf, fw)
    ensures HeadersInBounds(elf)
    ensures HasEntry(Sections(elf), i, k) <==> i < |fw.symbols| && k < |fw.symbols[i]|
    ensures HasEntry(Sections(elf), i, k) ==> EntryHeld(elf, Sections(elf), i, k, fw.symbols[i][k])
  {
    AssembledSections(elf, fw);
    if i < |fw.symbols| {
      assert TableHeld(elf, fw, i);
      AssembledTable(elf, Sections(elf), fw, i, k);
    }
  }

  lemma AssembledTable(elf: seq<byte>, sections: seq<Section>, fw: Firmware, i: nat, k: nat)
    requires i < |fw.headers| == |fw.symbols| == |sections|
    requires forall j | 0 <= j < |fw.headers| :: |fw.headers[j]| == 10 && sections[j] == SectionFrom(fw.headers[j])
    requires TableHeld(elf, fw, i)
    ensures HasEntry(sections, i, k) <==> k < |fw.symbols[i]|
    ensures HasEntry(sections, i, k) ==> EntryHeld(elf, sections, i, k, fw.symbols[i][k])
  {
    var h := fw.headers[i];
    if h[1] == 2 && h[9] != 0 {
      EntryCount(k, |fw.symbols[i]|, h[9]);
      if k < |fw.symbols[i]| {
        AssembledSymbol(elf, sections, i, k, fw.symbols[i][k], fw.headers[h[6]]);
      }
    }
  }

  lemma AssembledSymbol(elf: seq<byte>, sections: seq<Section>, i: nat, k: nat, symbol: Symbol, strings: seq<u32>)
    requires HasEntry(sections, i, k) && sections[i].link < |sections|
    requires |strings| == 10 && sections[sections[i].link] == SectionFrom(strings)
    requires SymbolHeld(elf, EntryAt(sections, i, k), symbol, strings)
    ensures EntryHeld(elf, sections, i, k, symbol)
  {
    var at := EntryAt(sections, i, k);
    SymbolWords(elf, at, symbol, strings);
    SymbolName(elf, at, symbol, strings);
    NamesFrom(elf, sections, i, strings);
    EntryFound(elf, sections, i, k, symbol);
  }

  lemma NamesFrom(elf: seq<byte>, sections: seq<Section>, i: nat, strings: seq<u32>)
    requires i < |sections| && sections[i].link < |sections|
    requires |strings| == 10 && sections[sections[i].link] == SectionFrom(strings)
    ensures Names(elf, sections, i) == Slice(elf, strings[4], strings[4] as int + strings[5])
  {
  }

  /** Entry k of table i can be read, and is this symbol. */
  ghost predicate EntryHeld(elf: seq<byte>, sections: seq<Section>, i: nat, k: nat, symbol: Symbol) {
    && i < |sections| && sections[i].link < |sections| && EntryAt(sections, i, k) + 8 <= |elf|
    && ValueOf(elf, sections, i, k) == symbol.value
    && forall name :: Occurs(elf, sections, name, i, k) <==> symbol.name == name
  }

  lemma EntryFound(elf: seq<byte>, sections: seq<Section>, i: nat, k: nat, symbol: Symbol)
    requires HasEntry(sections, i, k) && sections[i].link < |sections| && EntryAt(sections, i, k) + 8 <= |elf|
    requires Read32(elf, EntryAt(sections, i, k)) == symbol.nameAt
    requires Read32(elf, EntryAt(sections, i, k) + 4) == symbol.value
    requires symbol.nameAt < |Names(elf, sections, i)| && NameAt(Names(elf, sections, i), symbol.nameAt) == symbol.name
    ensures EntryHeld(elf, sections, i, k, symbol)
  {
  }

  lemma SymbolWords(elf: seq<byte>, at: nat, symbol: Symbol, strings: seq<u32>)
    requires |strings| == 10 && SymbolHeld(elf, at, symbol, strings)
    ensures at + 8 <= |elf| && Read32(elf, at) == symbol.nameAt && Read32(elf, at + 4) == symbol.value
  {
    var ws := [symbol.nameAt, symbol.value];
    PackedWord(elf, at, ws, 0);
    PackedWord(elf, at, ws, 1);
  }

  lemma SymbolName(elf: seq<byte>, at: nat, symbol: Symbol, strings: seq<u32>)
    requires |strings| == 10 && SymbolHeld(elf, at, symbol, strings)
    ensures
      var names := Slice(elf, strings[4], strings[4] as int + strings[5]);
      symbol.nameAt < |names| && NameAt(names, symbol.nameAt) == symbol.name
  {
    NameHeld(elf, strings[4], strings[5], symbol.nameAt, symbol.name);
  }

  /** The symbol LastOf takes its value from. */
  predicate IsLastOf(table: seq<Symbol>, name: string, k: nat, value: u32) {
    && k < |table| && table[k].name == name && table[k].value == value
    && forall k' | k < k' < |table| :: table[k'].name != name
  }

  lemma {:induction false} LastOfExact(table: seq<Symbol>, name: string) returns (k: nat)
    ensures LastOf(table, name).Some? ==> IsLastOf(table, name, k, LastOf(table, name).value)
    ensures LastOf(table, name).None? ==> forall k' | 0 <= k' < |table| :: table[k'].name != name
  {
    k := 0;
    if table != [] {
      if table[|table| - 1].name == name {
        k := |table| - 1;
      } else {
        k := LastOfExact(table[..|table| - 1], name);
      }
    }
  }

  predicate IsLastNamed(tables: seq<seq<Symbol>>, name: string, i: nat, k: nat, value: u32) {
    && i < |tables| && IsLastOf(tables[i], name, k, value)
    && forall i', k' | i < i' < |tables| && 0 <= k' < |tables[i']| :: tables[i'][k'].name != name
  }

  lemma {:induction false} LastNamedExact(tables: seq<seq<Symbol>>, name: string) returns (i: nat, k: nat)
    ensures LastNamed(tables, name).Some? ==> IsLastNamed(tables, name, i, k, LastNamed(tables, name).value)
    ensures LastNamed(tables, name).None? ==>
      forall i', k' | 0 <= i' < |tables| && 0 <= k' < |tables[i']| :: tables[i'][k'].name != name
  {
    i, k := 0, 0;
    if tables != [] {
      var n := |tables| - 1;
      var last := LastOfExact(tables[n], name);
      if LastOf(tables[n], name).Some? {
        i, k := n, last;
      } else {
        i, k := LastNamedExact(tables[..n], name);
      }
    }
  }

  lemma AssembledInBounds(elf: seq<byte>, fw: Firmware)
    requires Assembled(elf, fw)
    ensures IsPpcElf(elf) && TablesInBounds(elf)
  {
    AssembledHeader(elf, fw);
    AssembledSections(elf, fw);
    forall i | 0 <= i < |Sections(elf)| && IsSymtab(Sections(elf)[i])
      ensures Sections(elf)[i].link < |Sections(elf)|
    {
      assert TableHeld(elf, fw, i);
    }
    forall i: nat, k: nat | HasEntry(Sections(elf), i, k)
      ensures EntryAt(Sections(elf), i, k) + 8 <= |elf|
    {
      AssembledEntry(elf, fw, i, k);
    }
  }

  /** The declared lookup of an assembled file is the one of its image. */
  lemma AssembledLookUp(elf: seq<byte>, fw: Firmware, name: string)
    requires Assembled(elf, fw)
    ensures HeadersInBounds(elf)
    ensures Exists(elf, Sections(elf), name) <==> LastNamed(fw.symbols, name).Some?
    ensures forall v: u32 | IsLastValue(elf, Sections(elf), name, v) :: LastNamed(fw.symbols, name) == Some(v)
  {
    AssembledSections(elf, fw);
    var sections := Sections(elf);
    var i, k := LastNamedExact(fw.symbols, name);
    forall i': nat, k': nat
      ensures Occurs(elf, sections, name, i', k')
              <==> i' < |fw.symbols| && k' < |fw.symbols[i']| && fw.symbols[i'][k'].name == name
    {
      AssembledEntry(elf, fw, i', k');
    }
    if LastNamed(fw.symbols, name).Some? {
      assert Occurs(elf, sections, name, i, k);
      AssembledEntry(elf, fw, i, k);
      forall v: u32 | IsLastValue(elf, sections, name, v)
        ensures LastNamed(fw.symbols, name) == Some(v)
      {
        LastAgrees(elf, fw, name, i, k, v);
      }
    }
  }

  lemma LastAgrees(elf: seq<byte>, fw: Firmware, name: string, i: nat, k: nat, v: u32)
    requires Assembled(elf, fw) && HeadersInBounds(elf) && IsLastValue(elf, Sections(elf), name, v)
    requires LastNamed(fw.symbols, name).Some?
    requires IsLastNamed(fw.symbols, name, i, k, LastNamed(fw.symbols, name).value)
    ensures LastNamed(fw.symbols, name) == Some(v)
  {
    var sections := Sections(elf);
    var n := |sections|;
    var i': nat, k': nat :| Occurs(elf, sections, name, i', k') && Before(i', k', n, 0)
      && ValueOf(elf, sections, i', k') == v && NoneBetween(elf, sections, name, i', k', n, 0);
    AssembledSections(elf, fw);
    AssembledEntry(elf, fw, i, k);
    AssembledEntry(elf, fw, i', k');
    assert Occurs(elf, sections, name, i, k);
    assert !Before(i', k', i, k) && !Before(i, k, i', k');
  }

  lemma AssembledRefuted(elf: seq<byte>)
    ensures forall fw: Firmware | Assembled(elf, fw) :: IsPpcElf(elf) && TablesInBounds(elf)
  {
    forall fw: Firmware | Assembled(elf, fw)
      ensures IsPpcElf(elf) && TablesInBounds(elf)
    {
      AssembledInBounds(elf, fw);
    }
  }

  lemma PairMap(found: map<string, u32>, a: string, b: string)
    requires found.Keys == {a, b}
    ensures found == map[a := found[a], b := found[b]]
  {
  }

  lemma ValueInImage(elf: seq<byte>, fw: Firmware, name: string, v: u32)
    requires Assembled(elf, fw) && HeadersInBounds(elf) && IsLastValue(elf, Sections(elf), name, v)
    ensures LastNamed(fw.symbols, name) == Some(v)
  {
    AssembledLookUp(elf, fw, name);
  }

  /** The dictionary the loops leave is the image's. */
  lemma FoundInImage(elf: seq<byte>, fw: Firmware, found: map<string, u32>)
    requires Assembled(elf, fw) && HeadersInBounds(elf)
    requires found.Keys == WANTED && forall name | name in WANTED :: IsLastValue(elf, Sections(elf), name, found[name])
    ensures LookUp(fw) == Ok((fw.entry, found))
  {
    var thread, table := "__pk_current_thread", "__pk_priority_map";
    assert thread in WANTED && table in WANTED;
    ValueInImage(elf, fw, thread, found[thread]);
    ValueInImage(elf, fw, table, found[table]);
    PairMap(found, thread, table);
  }

  lemma MissingInImage(elf: seq<byte>, fw: Firmware, name: string)
    requires Assembled(elf, fw) && HeadersInBounds(elf) && name in WANTED && !Exists(elf, Sections(elf), name)
    ensures LookUp(fw) == Err(MissingSymbols)
  {
    AssembledLookUp(elf, fw, name);
  }

  lemma FoundIsLookUp(elf: seq<byte>, found: map<string, u32>)
    requires IsPpcElf(elf) && TablesInBounds(elf)
    requires WANTED - found.Keys != {} <==> exists name :: name in WANTED && !Exists(elf, Sections(elf), name)
    requires WANTED - found.Keys == {} ==>
      found.Keys == WANTED && forall name | name in WANTED :: IsLastValue(elf, Sections(elf), name, found[name])
    ensures forall fw: Firmware | Assembled(elf, fw) ::
      LookUp(fw) == if WANTED - found.Keys != {} then Err(MissingSymbols) else Ok((Read32(elf, 24), found))
  {
    forall fw: Firmware | Assembled(elf, fw)
      ensures LookUp(fw) == if WANTED - found.Keys != {} then Err(MissingSymbols) else Ok((Read32(elf, 24), found))
    {
      if WANTED - found.Keys != {} {
        var name :| name in WANTED && !Exists(elf, Sections(elf), name);
        MissingInImage(elf, fw, name);
      } else {
        AssembledHeader(elf, fw);
        FoundInImage(elf, fw, found);
      }
    }
  }

  /** elf_details: the lookup is the declarative one. For each wanted name the value
      is that of the last symbol of that name across all symbol tables; the call
      fails for want of symbols exactly when the tables are in bounds and a wanted
      name never occurs, and for bounds exactly when some table is not. On a file that
      holds a firmware image it looks the names up in that image. */
  method ElfDetails(elf: seq<byte>) returns (r: Result<(u32, map<string, u32>)>)
    ensures r == Err(BadElf) <==> !IsPpcElf(elf)
    ensures r == Err(Truncated) || r == Err(BadLink) <==> IsPpcElf(elf) && !TablesInBounds(elf)
    ensures r == Err(MissingSymbols) <==>
              && IsPpcElf(elf) && TablesInBounds(elf)
              && exists name :: name in WANTED && !Exists(elf, Sections(elf), name)
    ensures r.Ok? ==>
              && IsPpcElf(elf) && TablesInBounds(elf)
              && r.value.0 == Read32(elf, 24) && r.value.1.Keys == WANTED
              && forall name | name in WANTED :: IsLastValue(elf, Sections(elf), name, r.value.1[name])
    ensures forall fw: Firmware | Assembled(elf, fw) :: r == LookUp(fw)
  {
    AssembledRefuted(elf);
    if |elf| < 52 || elf[..7] != [0x7f, 0x45, 0x4c, 0x46, 1, 2, 1] || Read16(elf, 18) != 20 {
      return Err(BadElf);
    }
    var entry := Read32(elf, 24);
    var sections :- ReadSections(elf);
    var found :- ScanTables(elf, sections);
    FoundSummary(elf, sections, found);
    FoundIsLookUp(elf, found);
    if WANTED - found.Keys != {} {
      return Err(MissingSymbols);
    }
    return Ok((entry, found));
  }
}
