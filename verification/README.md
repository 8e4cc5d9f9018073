# SBE Forge: a verified model

SBE Forge is the workspace around the PPE42 toolchain: a small firmware runtime, a script that
turns a stopped SPPE into an ELF core file, a report generator for compiler dumps and a checker
for disassemblies. This project models the code of those parts that carries real obligations and
proves, for all inputs, what it is for.

| file | what it models |
|---|---|
| `Words.dfy` | bytes, 32-bit words, big-endian packing, the errors the scripts raise |
| `PrintfText.dfy` | the ideal text of a `printf` call: number conversion and the format language |
| `PrintfLog.dfy` | the shared 16 KiB output buffer as a log over whole runs of calls, and a reader for it |
| `PrintfRuntime.dfy` | `printf` as it runs: the clamped writer, the scratch array, the static offset |
| `PibMemory.dfy` | reads from the captured PIBMEM image, PK symbol addresses, the register dictionary |
| `Backchain.dfy` | the search for the interrupted stack |
| `CoreNotes.dfy`, `CoreFile.dfy`, `CoreBuilder.dfy` | the core file: notes, headers, threads, and an independent ELF reader |
| `SymbolTable.dfy` | looking PK symbols up in a firmware ELF |
| `PostMortem.dfy` | the printf log read off a core file |
| `Lines.dfy`, `Stages.dfy`, `Normalise.dfy`, `Diff.dfy`, `Report.dfy` | cutting a compiler dump into stages, normalising and diffing them |
| `IsaCheck.dfy` | the disassembly checker |
| `Startup.dfy` | the reset code that clears memory and makes the first frame |

`dafny verify dfyconfig.toml` checks everything.

Conventions. Code that updates state step by step is a method or a class (`OutputBuffer`, `Runtime`,
`RegisterFile`, `Cpu`) proved equal to a function of the old state; what the source promises is then
proved of that function, usually against a separately written reader or a declarative definition.
`struct.error`, `ValueError` and `IndexError` are the `Err` cases of `Result`; the wording of messages
is not modelled. C arithmetic is written out modulo 2^32, Python integers are unbounded.

Five promises do not hold on all inputs, and are stated with their exact condition:

- the log reader recovers the printed messages if and only if none of the current lap contains a NUL
  (`%c` with a zero low byte is the only source of one); what it reads in general is the pieces of each
  message, and no message disturbs another;
- the arguments and texts of two formats add up when the formats are put side by side if and only if the
  first ends on a token boundary, or the second begins, behind any number of `%%`, with nothing or with a
  character that is neither `%` nor a conversion letter: a dangling `%` then takes nothing from it;
- dropping the added lines of a unified diff gives the previous stage if and only if both stages are
  empty or both are not, because an empty side is shown without its counterpart
  (`tools/format_llvm_debug_html.py:116-119`);
- "no changes" is shown between equal stages and also whenever one of the two is empty, so the badge is
  right if and only if both stages are empty or both are not;
- slot-index prefixes are invisible, as the comment on `_strip_slot_index` promises, if and only if none
  was put on a header or footer line of the dump or on a line that already had a prefix, and the dump is
  still recognised as machine code: by an unindexed "# Machine code" head, or an unindexed `bb.` label
  among its first eight lines.

Recognition looks at the first eight lines with blank ones counted, so that a blank line more can show in
the comparison (`BlankLineShows`).

`__runtime_start` stores whole words, and the linker script aligns neither end of the cleared range: up to
three bytes past `_STACK_LIMIT` are cleared too. They belong to the stack area.

`printf` is modelled for calls whose ideal text is shorter than 2^32 characters: the length counter is a
32-bit word, and at 2^32 - 1 the sum in the clamping test wraps to 0 and lets a write outside the room
through (`ClampsExactly`). The returned `int` is the two's complement reading of that counter, which is the
length below 2^31.

## Model

| member | source | states |
|---|---|---|
| PrintfText.DigitsRoundTrip | firmware/runtime/printf.c:46-60 | printed digits parse back to the value in base 2 to 16, with no leading zero except in "0", no sign and no NUL |
| PrintfText.SignedRoundTrip | firmware/runtime/printf.c:62-72 | signed output parses back for every 32-bit int, -2^31 included |
| PrintfText.ScratchNeverOverrun | firmware/runtime/printf.c:50-56 | no 32-bit value needs more than the 32 scratch places |
| PrintfText.WordTextMeaning | firmware/runtime/printf.c:101-123 | each word conversion prints what its letter says, told by reading the text back, in the right letter case |
| PrintfText.FormatMeaning | firmware/runtime/printf.c:86-129 | behind any format on a boundary and before any other, each of c d i s u x X shows the next argument: a character, a numeral that reads back and has no superfluous zero, or the string itself, (null) for none; %% is a %, any other letter is printed with its % |
| PrintfText.StringMeaning | firmware/runtime/printf.c:37-44 | %s prints exactly the string, whatever its characters, and (null) for a null pointer |
| PrintfText.LiteralMeaning | firmware/runtime/printf.c:89-92 | any other character prints as itself and takes no argument |
| PrintfText.DemandsExactly | firmware/runtime/printf.c:105-123 | the arguments a format demands: a pointer for s, a word for the other conversion letters, in order |
| PrintfText.AsSignedExact | firmware/runtime/printf.c:141 | the signed reading of a word is the one value in the range of int that converts back to it |
| PrintfText.RenderJoin | firmware/runtime/printf.c:86-129 | at a token boundary rendering is concatenation; the left format takes its ArgCount arguments first, one per conversion |
| PrintfText.RenderIgnoresExtraArgs | firmware/runtime/printf.c:85-130 | arguments past the last conversion do not matter |
| PrintfText.DanglingPercent | firmware/runtime/printf.c:94-98 | a format is off a boundary exactly when it is a format on one followed by a single % |
| PrintfText.ConcatenatesExactly | firmware/runtime/printf.c:86-129 | rendering two formats side by side is rendering the one and then the other with the arguments left, exactly when the first ends on a boundary or the second is neutral to a % in front |
| PrintfText.OffBoundaryExamples | firmware/runtime/printf.c:94-98 | off a boundary both happen: %%% is % and %%, %d is not % and d |
| PrintfText.DanglingPercentSwallows | firmware/runtime/printf.c:94-98 | what comes before a dangling % is printed as before, and the rest as PercentTakes says; a conversion letter takes an argument more than both formats do apart |
| PrintfText.PercentTakes | firmware/runtime/printf.c:94-128 | what the dangling % makes of the text behind it, in the three cases |
| PrintfText.RenderQuote | firmware/runtime/printf.c:89-104 | a string with every % doubled prints as itself and takes no argument |
| PrintfText.NulOnlyFromC | firmware/runtime/printf.c:105-107 | the text holds a NUL exactly when some %c word has a zero low byte |
| PrintfLog.WrapExactly | firmware/runtime/printf.c:135-139 | the offset moves to the first multiple of 8 behind the slot, and to 0 exactly when the slot reaches into the last eight bytes; truncation always forces it |
| PrintfLog.CallExactly | firmware/runtime/printf.c:132-139 | byte by byte over the 16 KiB: the text from the offset on, cut so that the terminator fits, the terminator, and every other byte as it was |
| PrintfLog.LapStartIsLastWrap | firmware/runtime/printf.c:27-28 | the current lap begins at the last return of the offset to 0 |
| PrintfLog.CurrentLapTiles | firmware/runtime/printf.c:132-139 | no message of the current lap is truncated, and its aligned slots follow each other without gap |
| PrintfLog.CurrentLapHeld | firmware/runtime/printf.c:74-142 | the slots of the current lap tile the buffer from 0 to the offset and hold their terminated messages |
| PrintfLog.PreviousStartIsWrapBefore | firmware/runtime/printf.c:27-28 | the previous lap begins at the last return to 0 before the current one |
| PrintfLog.WrapSafety | firmware/runtime/printf.c:74-142 | in every reachable state the slots of the current lap, and those of the previous lap at or after the offset, hold the bytes their calls stored |
| PrintfLog.LogRoundTrip | firmware/runtime/printf.c:74-142 | over any run of calls on any initial buffer, the reader from 0 to the offset returns exactly the messages since the last wrap, if and only if none of them contains a NUL |
| PrintfLog.LogReadsPieces | firmware/runtime/printf.c:74-142 | in every reachable state, NULs or not, the reader returns the pieces of each message since the last wrap, in order, as if each had been read alone |
| PrintfLog.NulHidesText | firmware/runtime/printf.c:105-107 | the first piece of a message is its text up to the first NUL, and it reads back as itself exactly when it holds none |
| PrintfRuntime.OutputBuffer.AppendChar | firmware/runtime/printf.c:30-35 | appends one character to the text, written only while a terminator still fits |
| PrintfRuntime.OutputBuffer.AppendString | firmware/runtime/printf.c:37-44 | appends a C string, or (null) |
| PrintfRuntime.OutputBuffer.AppendUnsigned | firmware/runtime/printf.c:46-60 | appends the digits of the value, most significant first |
| PrintfRuntime.OutputBuffer.AppendSigned | firmware/runtime/printf.c:62-72 | appends the signed numeral, with the magnitude taken modulo 2^32 |
| PrintfRuntime.OutputBuffer.ProduceBackwards | firmware/runtime/printf.c:50-56 | the dividing loop leaves the digits in reverse inside 32 places |
| PrintfRuntime.OutputBuffer.AppendConversion | firmware/runtime/printf.c:100-128 | one conversion appends its token's text and takes an argument exactly when the token does |
| PrintfRuntime.OutputBuffer.AppendFormatted | firmware/runtime/printf.c:85-130 | the interpreter loop appends the ideal rendering of any format, and terminates |
| PrintfRuntime.OutputBuffer.Terminate | firmware/runtime/printf.c:132-139 | the slot ends in a NUL inside the room, no other byte changes, and the next offset is aligned or 0 |
| PrintfRuntime.Runtime.Printf | firmware/runtime/printf.c:74-142 | a call refines the ideal rendering: it stores the text cut to the room, changes no other byte, moves the offset and returns the text's length; the object stays in a state reached by its history |
| PrintfRuntime.Runtime.Decodes | firmware/runtime/printf.c:74-142 | after any calls the module's buffer decodes to the pieces of the messages since the last wrap, which are those messages exactly when none holds a NUL |
| PrintfRuntime.ClampsExactly | firmware/runtime/printf.c:32-34 | the clamping test keeps every write inside the room exactly while the counter is not 2^32 - 1 |
| PibMemory.PkSymbolAddresses | coredump/make_sppe_core_simics.py:234-246 | accepts no pair, or a pair of word-aligned addresses whose tables lie inside PIBMEM; anything else is an error |
| PibMemory.AcceptedAddressesNeverFault | coredump/make_sppe_core_simics.py:71-75 | on a whole image the address ranges accepted are exactly those whose reads all succeed |
| Words.BigEndian | coredump/make_sppe_core_simics.py:71-75 | words and half words are read most significant byte first |
| PibMemory.WordBytes | coredump/make_sppe_core_simics.py:71-75 | a word can be read exactly when its four bytes lie in the image from 0xFFF80000 on, and is these bytes, most significant first |
| PibMemory.AcceptableExactly | coredump/make_sppe_core_simics.py:241-246 | acceptable are the multiples of four whose table lies between 0xFFF80000 and the end of the address space |
| PibMemory.FfdcExactly | coredump/make_sppe_core_simics.py:132-138 | the FFDC matches exactly when it lies whole in the image, holds the magic number in its bytes 2 and 3, and the captured srr0 in the next word |
| PibMemory.RegisterFile.RestoreFaultLr | coredump/make_sppe_core_simics.py:128-139 | replaces LR exactly when the FFDC matches the fault; no read of it can leave the image |
| Backchain.SearchExact | coredump/make_sppe_core_simics.py:142-160 | on any memory the search returns the least qualifying candidate before which none faults, and fails as not recovered exactly when no candidate qualifies or faults |
| Backchain.InRangeNeverFaults | coredump/make_sppe_core_simics.py:145-157 | a walk starting in the image and bounded by a stack base inside it never reads outside |
| Backchain.ExactInRange | coredump/make_sppe_core_simics.py:142-160 | with the stack in the image, c is returned exactly when it is the least aligned address whose walk has three links and a code return; an error exactly when there is none |
| Backchain.SearchSucceeds | coredump/make_sppe_core_simics.py:142-160 | on any memory the search succeeds exactly when some candidate qualifies before any candidate whose chain leaves the image |
| Backchain.QualifiesByFrames | coredump/make_sppe_core_simics.py:146-158 | following the words of the image frame by frame: a candidate qualifies exactly with three frames above it and a code address above one of the first eight |
| Backchain.FaultsByFrames | coredump/make_sppe_core_simics.py:146-158 | and faults exactly when one of the frames looked at, or the word above it, cannot be read |
| Backchain.CompleteDecides | coredump/make_sppe_core_simics.py:146-158 | the walk the loop follows decides its candidate: any other walk is a prefix of it |
| Backchain.Probe | coredump/make_sppe_core_simics.py:146-158 | the inner loop answers whether a candidate qualifies, or reports the fault |
| Backchain.FaultStackPointer | coredump/make_sppe_core_simics.py:142-160 | the outer loop returns what the search defines |
| CoreNotes.NoteStreamRoundTrip | coredump/make_sppe_core_simics.py:163-167 | any list of notes parses back from its concatenation, and every prefix keeps the next note aligned |
| CoreNotes.NotePadding | coredump/make_sppe_core_simics.py:163-167 | name and descriptor are padded with zero bytes |
| CoreNotes.ThreadRoundTrip | coredump/make_sppe_core_simics.py:170-180 | a status descriptor reads back as the thread it was packed from |
| CoreNotes.ThreadFields | coredump/make_sppe_core_simics.py:171-176 | the fields of that thread are the captured registers, absent ones 0 |
| CoreNotes.StatusRest | coredump/make_sppe_core_simics.py:173-180 | every byte of a status descriptor that shows no register or id is zero |
| CoreNotes.ThreadNote | coredump/make_sppe_core_simics.py:170-180 | produces the status note, and fails exactly when some value does not fit 32 bits |
| CoreFile.HeadersExact | coredump/make_sppe_core_simics.py:221-231 | every field of the file header and of both program headers, at its place |
| CoreFile.LayoutRoundTrip | coredump/make_sppe_core_simics.py:221-231 | headers, notes and memory tile the file, and following e_phoff finds both segments again |
| CoreBuilder.SavedInRange | coredump/make_sppe_core_simics.py:183-193 | a saved context can be read exactly when its 96 bytes lie in the image |
| CoreBuilder.SavedContext | coredump/make_sppe_core_simics.py:183-193 | a parked thread shows r0 from 0x10, r1 from the stack pointer itself, r3 to r10 from 0x18 on, r28 to r31 from 0x48 on, the special registers from their places, and 0 for the rest |
| CoreBuilder.AcceptedTablesRead | coredump/make_sppe_core_simics.py:196-200 | with accepted addresses the current-thread read and all 32 map reads succeed |
| CoreBuilder.Explore | coredump/make_sppe_core_simics.py:197-206 | reads the thread tables and recovers the stack pointer only for a running thread, srr0 and no override |
| CoreBuilder.ParkedNotes | coredump/make_sppe_core_simics.py:213-216 | appends one note per thread that is not the running one, in order, or stops with the first error |
| CoreBuilder.MakeCore | coredump/make_sppe_core_simics.py:196-231 | returns the built core or its error, and updates r1 in the dictionary exactly when a stack pointer was found or given |
| CoreBuilder.CoreRoundTrip | coredump/make_sppe_core_simics.py:196-231 | a reader of any core written finds the program counter, the live thread, the parked threads in order, the entry point, and every byte of memory at its address |
| CoreBuilder.ParkedRegisters | coredump/make_sppe_core_simics.py:213-216 | each parked thread read from the file shows the registers saved at the stack pointer its TCB holds |
| CoreBuilder.ParkedThreadsInFile | coredump/make_sppe_core_simics.py:198-216 | told from the image: every thread behind the live one belongs to a map entry whose TCB is not the running one, and shows that context |
| CoreBuilder.ParkedThreadsComplete | coredump/make_sppe_core_simics.py:198-216 | they ascend by id, and each of the 32 priorities with such an entry has its thread |
| CoreBuilder.LiveFields | coredump/make_sppe_core_simics.py:206-212 | the live thread shows every captured register but r1, absent ones as 0, and r1 as the search or the override left it |
| CoreBuilder.CoreWithoutSymbols | coredump/make_sppe_core_simics.py:197-212 | without symbols and override the file holds the captured CPU alone, under id 32 |
| CoreBuilder.LiveStackPointer | coredump/make_sppe_core_simics.py:202-208 | r1 of the live thread in the file is the least address from the live stack pointer and the limit up to the base that starts a backchain, exactly when it is recovered; else the override, else the captured r1 |
| CoreBuilder.CoreThreadIds | coredump/make_sppe_core_simics.py:210-216 | the threads in the file carry the running thread's id and then the parked priorities |
| CoreBuilder.ParkedIdsExact | coredump/make_sppe_core_simics.py:198-216 | the parked ids are exactly the priorities of nonzero entries with another TCB, each once, ascending |
| CoreBuilder.LiveIdExact | coredump/make_sppe_core_simics.py:210-212 | the live id is the first priority listing the running thread, or 32 if none does, and no parked thread shares it |
| CoreBuilder.BuildSucceedsExactly | coredump/make_sppe_core_simics.py:196-231 | a core is written exactly when the thread tables lie in the image, a backchain can be reached where one has to be recovered, live values fit 32 bits, every parked context lies in the image and the image is below 4 GiB |
| CoreBuilder.BuildFails | coredump/make_sppe_core_simics.py:196-231 | and otherwise which error: a value that does not fit only after all that is read before could be read, an unrecovered stack when the search runs dry, an address outside the image in every other case |
| CoreBuilder.SurveySucceeds | coredump/make_sppe_core_simics.py:197-206 | the reads before anything is written succeed exactly under the first two of these conditions |
| CoreBuilder.CaptureCore | coredump/make_sppe_core_simics.py:291-298 | main restores the LR and then builds the core |
| CoreBuilder.LiveLinkRegister | coredump/make_sppe_core_simics.py:128-139 | the live thread in the file shows the LR saved by the FFDC exactly when that matches the fault, else the captured one, and the captured program counter |
| CoreBuilder.ParkedInRange | coredump/make_sppe_core_simics.py:213-216 | a parked thread can be recorded exactly when its TCB and the context it points at lie in the image |
| PostMortem.LogSurvivesCoreDump | coredump/make_sppe_core_simics.py:229-231 | from a core of an image holding printf's buffer the log reader recovers the pieces of the messages since the last wrap, and those messages exactly when none holds a NUL |
| SymbolTable.ElfDetails | coredump/make_sppe_core_simics.py:78-108 | returns for each wanted name the value of its last symbol over all symbol tables; fails for a missing name exactly when it never occurs, and for bounds exactly when a table leaves the file; on any file that holds a firmware image, packed field by field wherever its parts lie, it returns the image's entry point and the last packed st_value of each name |
| SymbolTable.AssembledLookUp | coredump/make_sppe_core_simics.py:87-103 | the headers, entries and names of an assembled file are found again, so that the lookup in it is the one in the image |
| SymbolTable.PpcElfExactly | coredump/make_sppe_core_simics.py:81-83 | the files that are read, by their first seven bytes and their machine |
| SymbolTable.LastValueUnique | coredump/make_sppe_core_simics.py:96-103 | that declaration determines the value |
| SymbolTable.TerminatedName | coredump/make_sppe_core_simics.py:100-101 | in a terminated string table a name is the text up to its NUL |
| SymbolTable.UnterminatedName | coredump/make_sppe_core_simics.py:100-101 | without a terminator it loses the last byte of the table |
| SymbolTable.ScanTable | coredump/make_sppe_core_simics.py:94-103 | the entry loop keeps the dictionary at the last value seen of each wanted name |
| Stages.HeaderExactly | tools/format_llvm_debug_html.py:21-50 | a line is a header exactly when, between spaces, it spells a legacy or new-pass-manager header whose names can be told; every other line is content without the spaces at its end |
| Stages.LegacyHeaderRoundTrip | tools/format_llvm_debug_html.py:21-46 | a legacy header line in any of its four spellings, with spaces around it, is classified under a pass name and id exactly when these are trimmed names the pattern gives back |
| Stages.LegacyGroupsExactly | tools/format_llvm_debug_html.py:22 | the greedy pattern gives back a name and an id from their header exactly when the name is a nonempty line, the id nonempty without ")", and no later " (" could open it again |
| Stages.NewPmGroupsExactly | tools/format_llvm_debug_html.py:25 | the lazy pattern gives back name and unit exactly when both are nonempty lines and no " on " begins earlier in the name |
| Stages.NewPmHeaderRoundTrip | tools/format_llvm_debug_html.py:24-46 | a new-pass-manager header line, with or without its colon, is classified under name and unit exactly when these are trimmed names the pattern gives back |
| Lines.StripExact | tools/format_llvm_debug_html.py:38-46 | strip takes the spaces off both ends and nothing else |
| Stages.ExtractStages | tools/format_llvm_debug_html.py:29-55 | the state machine cuts the dump at its header lines |
| Stages.ExtractPartitions | tools/format_llvm_debug_html.py:37-55 | from the first header on, every line is in exactly one stage, in order, and there is one stage per header |
| Stages.CutFlatten | tools/format_llvm_debug_html.py:37-55 | stages are determined by their lines |
| Stages.ClassifyStable | tools/format_llvm_debug_html.py:38-50 | a kept line is classified as it was the first time |
| Stages.ExtractIdempotent | tools/format_llvm_debug_html.py:29-55 | extracting again from the extracted stages gives the same stages |
| Normalise.NormaliseContent | tools/format_llvm_debug_html.py:81-105 | the loop computes the normal form of a stage |
| Normalise.IrKeepsExactly | tools/format_llvm_debug_html.py:93-104 | outside machine dumps a line is dropped exactly when it is blank or begins, behind spaces, with one of the listed words or a metadata definition; else it is kept as it stands |
| Normalise.MachineKeepsExactly | tools/format_llvm_debug_html.py:89-92 | inside them exactly when it is blank or one of the two frame lines; else it is kept without its prefix |
| Normalise.StripSlotExactly | tools/format_llvm_debug_html.py:66-78 | the prefix is digits, B and tab, else a tab before a space or semicolon, else nothing |
| Normalise.MachineExactly | tools/format_llvm_debug_html.py:82-84 | a machine dump has "# Machine code" at the head of its first line with text, or a label among its first eight lines |
| Normalise.SkippedInvisible | tools/format_llvm_debug_html.py:81-105 | a line can be added anywhere without effect exactly when the mode of the longer dump skips it and the mode is as before, or every other line reads the same in both modes |
| Normalise.BlankLineShows | tools/format_llvm_debug_html.py:83-84 | a blank line in front shows when it pushes the only label past the eighth line of an indexed dump |
| Normalise.DecoratedEmits | tools/format_llvm_debug_html.py:66-78 | on one line a slot index or tab is undone exactly under the stated condition |
| Normalise.SlotIndexInvisible | tools/format_llvm_debug_html.py:66-105 | a machine dump and its form with slot prefixes have one normal form exactly when it is still recognised and every index is on an unprefixed body line |
| Normalise.DecoratedIsMachine | tools/format_llvm_debug_html.py:82-84 | it is still recognised exactly by an unindexed "# Machine code" head or an unindexed label among the first eight lines |
| Normalise.IrDumpShowsPrefixes | tools/format_llvm_debug_html.py:93-104 | in a dump that is not machine code a prefix is invisible exactly when it is a tab before a line that is not compared |
| Normalise.HeadedDumpInvisible | tools/format_llvm_debug_html.py:82-93 | the same for any dump headed by a plain "# Machine code" line |
| Normalise.UnheadedIsExposed | tools/format_llvm_debug_html.py:83-84 | witness of lost recognition: a single block line known only by its label keeps its index and no longer matches |
| Diff.ComputeUnifiedDiff | tools/format_llvm_debug_html.py:113-139 | the loop builds the flat view and its change count from any valid script |
| Diff.ComputeSbsDiff | tools/format_llvm_debug_html.py:151-196 | its own loop builds the paired rows and their change count from the same script |
| Diff.Reconstruction | tools/format_llvm_debug_html.py:113-196 | both views give back both stages, with the exact conditions for empty sides; the counts agree and count the marked lines |
| Diff.ViewsExact | tools/format_llvm_debug_html.py:113-196 | both views line by line: removed before added lines in the flat one, old and new lines of an opcode paired in order with empty cells for the missing ones in the other, each under its own mark |
| Diff.ViewsMarkAlike | tools/format_llvm_debug_html.py:113-196 | every row is well marked, unchanged cells stand in equal pairs, and the removed and added cells are in order the removed and added lines of the flat view, as many as the count |
| Diff.ZeroExactly | tools/format_llvm_debug_html.py:205-209 | "no changes" is shown exactly when the stages are equal or one of them is empty |
| Diff.BadgeIsRight | tools/format_llvm_debug_html.py:116-119 | the badge tells equality exactly when both stages are empty or both are not |
| Diff.ContractSatisfiable | tools/format_llvm_debug_html.py:123-124 | a script meeting what is asked of the differ always exists |
| Report.PairStages | tools/format_llvm_debug_html.py:575-588 | every entry holds both views of the comparison with the stage before, and the one count kept is right for both |
| Report.ReportShowsEveryStage | tools/format_llvm_debug_html.py:575-588 | every stage's normal form can be read off either report |
| Report.ReportComparesNeighbours | tools/format_llvm_debug_html.py:575-588 | every entry compares a stage with the one right before it, the first with nothing |
| Report.SlotIndexStageShowsNoChange | tools/format_llvm_debug_html.py:575-588 | a stage that only adds slot prefixes to a machine dump shows no change exactly when the dump is still recognised and every index is undone, or nothing of the dump is compared |
| Report.HeadedStageShowsNoChange | tools/format_llvm_debug_html.py:575-588 | the same under a plain "# Machine code" head, where recognition is never lost |
| IsaCheck.ShiftTests | tools/check_ppe42_disassembly.py:124-150 | for all words, bits 11:13 are zero exactly when BI is below 4, and the shifted bit 11 is the masked one |
| IsaCheck.TestsExact | tools/check_ppe42_disassembly.py:119-151 | the three encoding tests are disjoint, and one fires exactly when a word names a field other than CR0 |
| IsaCheck.EncodedBc | tools/check_ppe42_disassembly.py:119-126 | a bc word assembled from its fields is good exactly when BI is below 4 |
| IsaCheck.EncodedBclr | tools/check_ppe42_disassembly.py:119-126 | so is a bclr or bcctr word |
| IsaCheck.EncodedCmpi | tools/check_ppe42_disassembly.py:134-140 | a cmplwi or cmpwi word is good exactly when BF is 0 |
| IsaCheck.EncodedCmp | tools/check_ppe42_disassembly.py:134-140 | so is a cmpw or cmplw word |
| IsaCheck.EncodedMtcrf | tools/check_ppe42_disassembly.py:147-151 | an mtcrf word is good exactly with bit 11 clear and FXM 128 |
| IsaCheck.EncodedOther | tools/check_ppe42_disassembly.py:119-149 | a word of any other form is good whatever its fields |
| IsaCheck.RowViolations | tools/check_ppe42_disassembly.py:106-156 | a row counts once if its mnemonic or encoding is bad, else not at all |
| IsaCheck.CheckFile | tools/check_ppe42_disassembly.py:94-160 | counts exactly the bad rows; an unreadable or empty listing counts one |
| IsaCheck.CountExactly | tools/check_ppe42_disassembly.py:101-160 | the count is the number of lines whose row is bad |
| IsaCheck.ConformsExactly | tools/check_ppe42_disassembly.py:101-160 | a listing conforms exactly when some line is a row and every line that is one is good |
| IsaCheck.AllowedForVariant | tools/check_ppe42_disassembly.py:85-91 | the base list with the additions of the variant |
| IsaCheck.VariantsAccept | tools/check_ppe42_disassembly.py:85-91 | each variant accepts exactly the mnemonics of its own lists |
| IsaCheck.CheckAll | tools/check_ppe42_disassembly.py:163-179 | the status is 0 exactly when every listing can be read, holds a row and has no bad row |
| IsaCheck.PassingIsMonotone | tools/check_ppe42_disassembly.py:85-91 | what passes for a smaller variant passes for a larger one |
| Startup.HighAdjusted | firmware/startup.s:18-21 | every lis @ha and addi @l pair yields its 32-bit symbol, with a low half that fits the signed operand |
| Startup.Cpu.LoadSymbol | firmware/startup.s:18-21 | the two instructions load the symbol and change nothing else |
| Startup.Cpu.ClearLoop | firmware/startup.s:22-28 | the loop ends with the words from the start up to the limit cleared and no other byte changed |
| Startup.Cpu.RuntimeStart | firmware/startup.s:18-34 | for any linked image startup leaves the cleared range, the stack pointer at _STACK-8 and a zero backchain there |
| Startup.StartupMemory | firmware/startup.s:18-33 | every byte up to _STACK_LIMIT is zero, at most three past it are written, and nothing at or above the output buffer changes |

## Left out

- Simics, files, environment variables, command lines and register-text capture: memory bytes, registers, the PC source, parsed addresses and an override of r1 are inputs.
- `symbol_details` of the capture script and the row pattern of the disassembly checker: pattern matching per line; `IsaCheck` starts from recognised rows, so nothing is said about record-form mnemonics that end in a dot.
- The mnemonic lists and denylist messages of the checker: the verdict is proved for any three lists.
- `difflib.SequenceMatcher`: library code; everything holds for any opcode list that covers both stages without gap, and `DifferContract` adds only that equal stages are found equal.
- Report.PairStages: takes one script per stage as a parameter instead of calling the differ, and stops before the HTML is rendered.
- Normalise.NormaliseContent: digits and word characters of the patterns are the ASCII ones, while Python's also match other alphabets.
- PibMemory.RegisterFile.RestoreFaultLr: requires srr0 to be captured when it is the PC source, which the register capture enforces before.
- PrintfRuntime.OutputBuffer.AppendString: a `%s` argument is a value; one that points into the output buffer itself, and changes while it is printed, is not modelled.
- CoreBuilder.MakeCore: requires r1 and the PC source to be captured, which the register capture enforces before.
- Startup.Cpu.RuntimeStart: starts after the vector-base store and the small-data registers, and ends at the call of main; alignment interrupts are not modelled.
- Error messages, HTML, styles and the table of contents: presentation.
- The PPE42 compiler backend: its code is not part of this model.
