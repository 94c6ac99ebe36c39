# Bender, verified

Bender is a freestanding Multiboot chainloader for 32-bit x86. It finds a serial controller on the
PCI bus, moves the boot modules to high memory, takes the first one as kernel, builds a Multiboot 2
boot information for it when it asks for one, and starts it through generated machine code. This
project models that behaviour in Dafny and proves what it does, from the digits of its 64-bit
division to the memory a started kernel finds.

Physical memory is one array of bytes, read as little-endian words; the specifications speak about
sequences of bytes. Machine words are integers with their range, and every place where the code
relies on 32-bit or 64-bit wrap-around says so (`Wrap`, `WrapQuad`). Bitwise operators are defined
bit by bit in `Bits`, and the arithmetic they stand for is proved. Where the code updates something
in place, so do the methods here: the digit arrays of the division, the modules and their records
in memory, the builder, the PCI iterator, the tokenizer's buffer.

| files | subject |
|---|---|
| `Bits`, `HalfWords`, `Digits` | words, bit operators, digit sequences and their values |
| `DigitShift`, `KnuthD`, `TrialQuotient`, `DivisionStep`, `ProgramD`, `LongDivision`, `QDivRem` | the 64-bit division: Algorithm D of Knuth, The Art of Computer Programming, volume 2, section 4.3.1, in base 2^16, proved for any n >= 2 and m >= 0 |
| `Memory`, `X86`, `Trampoline`, `ElfLoader`, `BootImage`, `Image` | a processor that fetches the generated code from the memory it writes, the code generator, and the meaning of PT_LOAD (System V ABI, chapter 5) |
| `MemoryMap`, `Relocate` | the search for high memory (section 3.3 of the Multiboot Specification 0.6.96) and the module relocator |
| `Mbi2`, `Convert`, `StartModule`, `Kernel` | the Multiboot 2 information (section 3.6 of its specification), the conversion, starting the first module, and the end-to-end result |
| `Pci` | the PCI enumeration (PCI Local Bus Specification 3.0, sections 3.2.2.3.2 and 6.2.1) |
| `Strtoull`, `Printf` | number parsing and printing, on top of the division |
| `Strtok`, `Cmdline` | the tokenizer and the loader's command line |

`dafny verify dfyconfig.toml` checks the whole project.

A failed assertion of the code stops the machine; here it is a result of its own (`false`, `null`,
`Stopped`, `Halted`), and the contracts say exactly when it happens.

Some places where the code does not always do what one might expect are stated as results, with the
exact condition under which it does:

- The free-memory search can miss the highest place when map entries overlap
  (`MemoryMap.OverlapMissesHighest`); it finds it in every order of the entries if and only if every
  lower place is at or below the base of an entry that offers the highest one
  (`MemoryMap.HighestInEveryOrder`).
- It keeps places in 32-bit pointers, which is harmless if and only if the limit less the length is
  below 4 GiB (`MemoryMap.PointersSuffice`).
- The relocator's accounting closes if and only if the extra space is a whole number of pages
  (`Relocate.ExtraSpaceLeft`). It recognises its own layout if and only if there is no extra space
  and the first module is not empty (`Relocate.OwnLayoutRecognised`).
- When a module already lies at the block, the kernel is started in place. If the kernel is that
  module, this works if and only if it is not a Multiboot 2 kernel: its information would be built
  over its own image, and the machine stops. If it is a later module, the information of a
  Multiboot 2 kernel overwrites the start of that module (`StartModule.AlreadyThereBoots`).
- A revision-0 root pointer, and no other, gets the tag of version 2 with the length of version 1
  (`Mbi2.RsdpKindMatchesLength`).
- The readers do not test the first tag and the first map entry: they see an end instead if and
  only if there is none (`Mbi2.FirstTagIsEnd`, `Mbi2.FirstEntryInside`).

## Model

| member | source | states |
|---|---|---|
| HalfWords.LHalfIsMask | standalone/qdivrem.c:89 | the low-half mask keeps the remainder modulo 2^16 |
| HalfWords.CombineIsOr | standalone/qdivrem.c:95 | shift and bitwise or of two digits is high * 2^16 + low, because the bits do not meet |
| HalfWords.ShiftParts | standalone/qdivrem.c:112-114 | one digit of the left shift, with its masking and or, is the arithmetic digit of the scaled number |
| HalfWords.UnshiftParts | standalone/qdivrem.c:306-307 | one digit of the right shift, with its masking and or, is the arithmetic digit of the quotient |
| HalfWords.ProductFits | standalone/qdivrem.c:120-124 | the product of two digits fits 32 bits |
| DigitShift.ShiftedLeftValue | standalone/qdivrem.c:109-115 | shifting a digit sequence left digit by digit multiplies its value, up to what falls out on the left |
| DigitShift.ShiftedRightValue | standalone/qdivrem.c:306-308 | shifting right digit by digit divides a multiple exactly |
| DigitShift.Shl | standalone/qdivrem.c:109-115 | the in-place loop of len + 1 digits leaves the sequence scaled by 2^sh and touches nothing else |
| DigitShift.Unshift | standalone/qdivrem.c:304-309 | the in-place loop divides the remainder digits by 2^d and clears the digit in front |
| KnuthD.TrialIsUpperBound | standalone/qdivrem.c:245-248 | min((u0 B + u1) / v1, B - 1) is never below the true digit, for any base B and a divisor of any length |
| KnuthD.TrialTooBig | standalone/qdivrem.c:262-267 | when v2 * qhat exceeds rhat * B + u2, the trial digit is above the true digit |
| KnuthD.TrialIsClose | standalone/qdivrem.c:262-267 | when that test fails, the trial digit is at most one above the true digit |
| KnuthD.TheoremB | standalone/qdivrem.c:224-228 | Knuth's Theorem B: with v1 at least B/2 the first trial digit is at most two above the true digit, for any base and divisor length |
| TrialQuotient.TrialTest | standalone/qdivrem.c:262 | the loop test in 32 bits is the unbounded test: neither the product nor COMBINE wraps |
| TrialQuotient.FirstTrial | standalone/qdivrem.c:258-260 | with u[j] below v1, COMBINE and the two divisions give a first trial digit and remainder that are digits or fit the loop |
| TrialQuotient.TrialDigit | standalone/qdivrem.c:242-267 | step D3 terminates after at most two corrections with a digit below B for which the test fails or rhat has reached B |
| TrialQuotient.TrialDigitBounds | standalone/qdivrem.c:242-267 | the digit D3 settles on is the true digit or one more, for windows and divisors of any length n >= 2 |
| DivisionStep.BorrowDigit | standalone/qdivrem.c:275-277 | one wrapping step of multiply and subtract is exact modulo B, with the borrow as its carry |
| DivisionStep.SubtractedStep | standalone/qdivrem.c:274-278 | the invariant of the subtract loop over one more digit: the digits done hold the difference so far, up to the borrow |
| DivisionStep.MultiplySubtract | standalone/qdivrem.c:274-280 | the whole loop is exact modulo B^(n+1): window minus qhat times divisor, plus B^(n+1) exactly when HHALF of the last t is nonzero |
| DivisionStep.AddBack | standalone/qdivrem.c:289-294 | the add-back loop adds the divisor to the window modulo B^(n+1) |
| ProgramD.WindowFits | standalone/qdivrem.c:253-256 | a window whose leading n digits are below the divisor is below B divisors, and u[j] is at most v1, so the only special case is equality |
| ProgramD.FirstTrialIsClose | standalone/qdivrem.c:242-260 | Theorem B on the digits of the code: for a whole window and a normalised divisor the first trial digit, with its middle entry, is at most the true digit + 2 |
| ProgramD.TrialForWindow | standalone/qdivrem.c:242-267 | the bounds of D3 in terms of the whole window and divisor: true digit <= qhat <= true digit + 1, and the first trial digit <= true digit + 2 |
| ProgramD.BorrowMeansOneTooLarge | standalone/qdivrem.c:281-286 | there is a borrow exactly when qhat is one too large; otherwise the window already holds the remainder |
| ProgramD.Estimate | standalone/qdivrem.c:250-267 | D3 on the arrays: quotient digit and remainder of the window, with qhat equal to the digit or one more, and the first trial digit at most two more |
| ProgramD.TakeDigit | standalone/qdivrem.c:274-296 | D4 to D6: the digit returned is the true one, a single add-back repairs the window, and digits outside the window stay |
| ProgramD.DivideStep | standalone/qdivrem.c:239-297 | one round of the main loop divides the window by the divisor and leaves the remainder in it |
| LongDivision.DividedStep | standalone/qdivrem.c:239-297 | the invariant of D7 over one round: digits so far times divisor, scaled, plus what is left of the dividend, is the dividend |
| LongDivision.DivideRound | standalone/qdivrem.c:239-297 | the loop body keeps that invariant |
| LongDivision.DigitLoop | standalone/qdivrem.c:236-297 | the loop over j keeps that invariant up to the last digit, for any n >= 2 and m |
| LongDivision.DivideDigits | standalone/qdivrem.c:236-297 | D2 to D7 for any n >= 2 and m >= 0: dividend = quotient digits * divisor + remainder, remainder below the divisor, in the last n digits |
| QDivRem.LoadDigits | standalone/qdivrem.c:169-179 | the four half words are the base 2^16 digits of the number |
| QDivRem.StoreDigits | standalone/qdivrem.c:310-317 | two COMBINEs and the union give the number of four digits |
| QDivRem.ShortDivide | standalone/qdivrem.c:193-205 | exercise 16, unrolled: quotient and remainder by one digit, each partial quotient a digit, no COMBINE overflows |
| QDivRem.NormalisingShift | standalone/qdivrem.c:226-228 | the shift count is below 16 and brings the leading digit to at least B/2 without overflow |
| QDivRem.SkipDivisorZeros | standalone/qdivrem.c:180-207 | the moving divisor pointer stops at a nonzero digit, or with one digit left |
| QDivRem.SkipDividendZeros | standalone/qdivrem.c:214-215 | the moving dividend pointer stops at a nonzero digit with m >= 0 |
| QDivRem.ScaledDivisor | standalone/qdivrem.c:229-232 | shifting the divisor loses no bit and makes its leading digit at least B/2 |
| QDivRem.ScaledDividendFits | standalone/qdivrem.c:229-232 | after the shift the leading n digits of the dividend are below the divisor, which starts the loop invariant |
| QDivRem.Unscale | standalone/qdivrem.c:299-303 | dividing scaled numbers gives the quotient and the scaled remainder |
| QDivRem.Normalise | standalone/qdivrem.c:224-232 | D1 on both arrays: dividend and divisor scaled by the same power of two, the divisor normalised |
| QDivRem.Denormalise | standalone/qdivrem.c:304-313 | the unshifted digits of uspace are the remainder |
| QDivRem.DivideStage | standalone/qdivrem.c:216-317 | normalise, divide and collect: the quotient, and the scaled remainder in the last digits |
| QDivRem.LongRoute | standalone/qdivrem.c:209-317 | the Program D route gives quotient and remainder |
| QDivRem.QDivRem | standalone/qdivrem.c:125-318 | for every 64-bit dividend and nonzero divisor, on all three routes, quotient and remainder are those of unbounded division |
| QDivRem.UModDi3 | standalone/qdivrem.c:323-330 | the remainder of unbounded division |
| QDivRem.UDivDi3 | standalone/qdivrem.c:357-359 | the quotient of unbounded division |
| QDivRem.DivDi3 | standalone/qdivrem.c:336-352 | signed division rounds toward zero, wrapping to 64 bits |
| QDivRem.TruncationMeans | standalone/qdivrem.c:336-352 | the quotient is rounded toward zero: what is left over is smaller than the divisor and has the sign of the dividend |
| QDivRem.SignedQuotientExact | standalone/qdivrem.c:336-352 | the wrapped result is the true quotient for every pair except the least number divided by -1 |
| X86.DecodeEncoded | standalone/elf.c:29-51 | an encoded instruction decodes to itself, immediate operands included, whatever follows it |
| X86.EncodingUnique | standalone/elf.c:29-51 | two instruction lists with the same bytes are the same list |
| X86.MovOpcodes | standalone/elf.c:21-33 | which register each of the opcodes 0xB8 to 0xBF loads with the four bytes behind it, least significant first |
| X86.PairOpcodes | standalone/elf.c:35-50 | what one step of the bytes F3 A4, F3 AA and FF E2 does to registers and memory |
| Trampoline.RunMovsb | standalone/elf.c:45-46 | REP MOVSB started with ECX = n copies n bytes forward and leaves EDI behind the target, as long as it overwrites neither its source nor itself |
| Trampoline.RunStosb | standalone/elf.c:48-50 | REP STOSB with EAX = 0 writes ECX zero bytes from EDI on |
| Trampoline.RunSegment | standalone/elf.c:40-51 | the code of one segment copies and zero-fills its target; EAX stays 0 and EDI carries over from the copy to the fill |
| Trampoline.RunSegments | standalone/elf.c:137-146 | the code of any number of segments, fetched from the memory it writes, loads them in order and stays intact |
| Trampoline.ProgramBytes | standalone/elf.c:40-51 | the program, byte by byte: for each segment BF target BE source B9 length F3 A4 B9 fill F3 AA, then BA entry B8 magic FF E2 |
| Trampoline.TrampolineLength | standalone/elf.c:137-162 | k segments take 24 k + 12 bytes |
| Trampoline.TrampolineRuns | standalone/elf.c:127-168 | started with EAX = 0 the code reaches the entry point with the magic number in EAX and EBX unchanged, memory loaded segment by segment |
| Trampoline.LoadedBytes | standalone/elf.c:137-146 | loading in order is the same as letting the last covering segment decide each byte |
| ElfLoader.EhdrLayout32 | standalone/include/elf.h:86-101 | where a 32-bit ELF header holds its fields, in bytes |
| ElfLoader.EhdrLayout64 | standalone/include/elf.h:103-118 | where a 64-bit ELF header holds its fields, in bytes |
| ElfLoader.PhdrLayout32 | standalone/include/elf.h:122-131 | where a 32-bit program header holds its fields, in bytes; the virtual address is in front of the physical one, which is used |
| ElfLoader.PhdrLayout64 | standalone/include/elf.h:133-142 | where a 64-bit program header holds its fields, in bytes; the flags are behind the type |
| ElfLoader.AcceptedMeans | standalone/elf.c:120-156 | what the loader accepts, byte by byte: ELF magic, class 1 or 2, type 2, machine 3 or 62, version 1, and program headers at least as large as their class asks for |
| ElfLoader.GenMov | standalone/elf.c:29-33 | opcode or register number, then the little-endian immediate, are the encoding of MOV r32, imm32 |
| ElfLoader.GenJmpEdx | standalone/elf.c:35-38 | the encoding of JMP EDX is appended at the cursor |
| ElfLoader.GenElfSegment | standalone/elf.c:40-51 | 24 bytes: the intended six instructions, appended to what was emitted before |
| ElfLoader.HeaderUntouched | standalone/elf.c:137-146 | the code stays inside its room, so the ELF header and the next program header are read as they were before any code was written |
| ElfLoader.Loader | standalone/elf.c:137-146 | the loop over the program headers, which reads the ELF header again in every round, emits the code of the PT_LOAD ones, in order, from the headers as they were |
| ElfLoader.GenerateTrampoline | standalone/elf.c:119-162 | an image that fails a check stops the machine and nothing is written; otherwise exactly the intended program, byte by byte, is at 0x7C00 and all other memory stays |
| BootImage.OperandsExact | standalone/elf.c:143-145 | for well-placed headers, truncating addresses and lengths to 32 bits loses nothing |
| BootImage.FinalIsPtLoad | standalone/elf.c:137-146 | what the segments make of a byte is what the PT_LOAD headers of the original image ask for |
| BootImage.BootRuns | standalone/elf.c:117-168 | executing the generated bytes from 0x7C00 reaches the ELF entry with the magic in EAX and EBX unchanged; every byte outside the code is as the program headers ask, the code is intact |
| Image.ElfHeadersAt | standalone/elf.c:137-139 | there are e_phnum program headers, the first at e_phoff and each e_phentsize bytes behind the one before |
| Image.PhdrsMove | standalone/elf.c:127-146 | program headers read the same wherever the relocator has put the image |
| Image.FitsAt | standalone/elf.c:119-162 | an image clear of the code can be started from any address, with the same headers |
| Image.PtLoadIsImageByte | standalone/elf.c:143-145 | the bytes that are loaded are those of the module's own image, wherever it lies |
| Image.LastHeaderDecides | standalone/elf.c:137-146 | the last PT_LOAD header whose range holds an address decides its byte: from the image up to p_filesz, zero up to p_memsz |
| Image.ImageRuns | standalone/elf.c:117-168 | running the trampoline of a relocated image: each byte is the image's, zero, or unchanged, as its own program headers say |
| Image.SegmentLoaded | standalone/elf.c:137-146 | after the run a PT_LOAD segment that no later one overlaps holds its p_filesz bytes of the image from p_offset on and zeros up to p_memsz, at its physical address |
| MemoryMap.RegionsAreTheWalk | standalone/include/mbi.h:73-79 | entry i is read from the address the walk has reached, and there is another one, size + 4 bytes on, exactly when that starts before the end of the map |
| MemoryMap.MapReadBack | standalone/include/mbi.h:56-79 | a map laid out in memory entry by entry, with any padding, is read back as exactly its regions: size, base, length and type where the structure has them, least significant byte first |
| MemoryMap.PageDownIsMask | standalone/mbi.c:26-30 | masking with ~0xFFF in 64 bits rounds down to a page |
| MemoryMap.Trim | standalone/mbi.c:21-31 | an entry is trimmed to whole pages inside it, or skipped when there is none |
| MemoryMap.Candidate | standalone/mbi.c:21-47 | for any 64-bit limit, an entry fits exactly when it is available, its whole pages hold len bytes and they start low enough; its place is the region's end or the limit, less len, as 32-bit pointer, although the top may wrap to zero first |
| MemoryMap.GreatestPlace | standalone/mbi.c:21-47 | an entry can hold the bytes if and only if there is a place for them in whole pages of it below the limit, and the place it offers is the greatest such place |
| MemoryMap.SelectIsGreatest | standalone/mbi.c:9-56 | in terms of the map alone: a place is found exactly when some entry has one, it is a place in some entry, and with disjoint regions, or reachable tops, no place in any entry is greater |
| MemoryMap.SelectSound | standalone/mbi.c:33-55 | whatever the map, a place is found exactly when some entry fits, and it is a place in such an entry |
| MemoryMap.HighestInEveryOrder | standalone/mbi.c:33-55 | exactly when the search is right: it finds the highest place in every order of the entries if and only if every lower place is at or below the trimmed base of some entry that offers the highest one |
| MemoryMap.ReachableIsFound | standalone/mbi.c:33-55 | under that condition the search finds the highest place in the order in which it reads the entries |
| MemoryMap.DisjointIsReachable | standalone/mbi.c:33-55 | a map with disjoint available regions meets that condition |
| MemoryMap.SelectHighest | standalone/mbi.c:33-55 | with disjoint regions the place found is the greatest one, although it is only compared with raw region bases |
| MemoryMap.HigherBaseWins | standalone/mbi.c:36-37 | of two disjoint regions, comparing one's base with the other's place orders their places |
| MemoryMap.OverlapMissesHighest | standalone/mbi.c:36-37 | with overlapping regions the search can miss the greatest place: two entries for which it does |
| MemoryMap.ChosenInside | standalone/mbi.c:41-46 | the chosen bytes lie in the region, page-trimmed, below the limit |
| MemoryMap.PlaceExact | standalone/mbi.c:45 | a 32-bit pointer holds a place exactly if and only if the place is below 4 GiB |
| MemoryMap.PointersSuffice | standalone/mbi.c:33-47 | keeping places in 32-bit pointers changes the choice on no map if and only if limit - len is below 4 GiB |
| MemoryMap.FirstFitMeans | standalone/mbi.c:49-51 | without highest: the greatest place in the first entry that has any |
| MemoryMap.FindMemory | standalone/mbi.c:9-56 | for any 64-bit limit, the loop finds memory exactly when the limit exceeds len and the map offers a place, and returns that place as 32-bit pointer; below 4 GiB it is a place in some entry, and with disjoint regions the greatest of all; without highest, the first one |
| Relocate.RecordLayout | standalone/include/mbi.h:49-54 | where a 16-byte module record holds start, end and string, in bytes |
| Relocate.PassesAgree | standalone/mbi.c:65-83 | for any number of modules, the sizing pass asks for the slots of the copying pass plus the extra space, rounded up once behind the first module |
| Relocate.ExtraSpaceLeft | standalone/mbi.c:134-135 | exactly the extra space is left in front of the modules if and only if it is a whole number of pages |
| Relocate.SlotSize | standalone/mbi.c:110 | a slot is the least number of whole pages that holds module and string, and the last one ends with the block |
| Relocate.OffsetOrder | standalone/mbi.c:108-122 | slots are in order, disjoint, large enough, and end with the block |
| Relocate.OffsetAligned | standalone/mbi.c:110 | slots start at page boundaries when the block size is page-aligned |
| Relocate.Sizes | standalone/mbi.c:65-83 | the sizing loop in 32 bits gives the lengths of all bodies and strings and the unbounded block size |
| Relocate.PlaceModule | standalone/mbi.c:109-122 | one module: body and string are in the slot, the record points to them, and only slot and record have changed |
| Relocate.StillThere | standalone/mbi.c:88-101 | while later modules are in place, an earlier one is still where it was and can be copied: the overlap check puts all sources below the block |
| Relocate.MovedStep | standalone/mbi.c:108-123 | copying one more module keeps all modules copied before intact |
| Relocate.CopyAll | standalone/mbi.c:108-123 | the downward loop: every module and string is intact in its slot, only slots and records have changed, and what is left in front is the size minus the slots |
| Relocate.CheckOverlap | standalone/mbi.c:90-101 | finds the first module that ends above the block, if there is one |
| Relocate.RelocateModules | standalone/mbi.c:63-140 | for any 64-bit limit, how relocation ends is the planned outcome, except that it stops when too little space is left; on the relocating path every module is moved intact, on the others memory is unchanged |
| Relocate.RelocatedModules | standalone/mbi.c:88-140 | with page-multiple extra space: modules and NUL-terminated strings equal the originals at their new addresses, slots page-aligned, ordered and disjoint, and the front extra bytes never written |
| Relocate.SecondRelocationStops | standalone/mbi.c:90-101 | after a relocation with extra space the overlap check does not recognise its own layout: the modules start behind the extra space, so relocating them again into that block stops the machine |
| Relocate.OwnLayoutRecognised | standalone/mbi.c:90-101 | when the same block is found again, the check recognises the layout of an earlier relocation if and only if there is no extra space and the first module is not empty |
| Relocate.BlockAligned | standalone/mbi.c:41-46 | the block is page-aligned when its size and the limit are, even where its pointer wraps |
| Relocate.PopModule | standalone/mbi.c:146-154 | returns the first record; the list loses it and the other records keep their order |
| Mbi2.Builder.AddBlob | standalone/mbi2.c:32-48 | fails exactly when size + align exceeds the space left; otherwise the bytes are at the aligned cursor and the cursor is behind them |
| Mbi2.Build | standalone/mbi2.c:50-75 | starts an information for an 8-aligned 32-bit address with room for its header, and for nothing else |
| Mbi2.Builder.AddBootCmdline | standalone/mbi2.c:77-88 | appends the string with its NUL as tag of kind 1, exactly when there is room; writes only from the cursor on |
| Mbi2.Builder.AddModule | standalone/mbi2.c:90-109 | appends bounds and string as tag of kind 3, exactly when there is room; the declared size is the bytes emitted |
| Mbi2.Builder.AddMemmap | standalone/mbi2.c:111-146 | appends the entries of the Multiboot 1 map as tag of kind 6; the counting and the emitting pass agree, so the declared size is the bytes emitted |
| Mbi2.Builder.AddRsdp | standalone/mbi2.c:148-159 | appends 20 bytes for revision 0 and 1, the table's own length otherwise |
| Mbi2.RsdpKindMatchesLength | standalone/mbi2.c:150-153 | kind 14 goes with the 20-byte length exactly when the revision is not 0: the two tests differ there |
| Mbi2.Builder.Finish | standalone/mbi2.c:161-174 | appends the end tag and fills in the total size; the memory is then a finished information with the builder's tags |
| Mbi2.AtOrder | standalone/mbi2.c:32-48 | tags start 8-aligned, in order, and do not overlap |
| Mbi2.AtIsPaddedSize | standalone/mbi2.c:171 | the total size is 8 bytes plus all tag sizes, each rounded up to 8 |
| Mbi2.NoRoom | standalone/mbi2.c:32-36 | when an assertion about space fails, the finished information would not fit either |
| Mbi2.NextTag | standalone/include/mbi2.h:142-146 | from any tag of a finished information the reader goes to the next one, and stops behind the last |
| Mbi2.ReadTags | standalone/mbi2_example.c:28-29 | round trip: walking a finished information with at least one tag yields exactly the tags that were added, in order, with identical payloads |
| Mbi2.OneReading | standalone/include/mbi2.h:138-146 | memory holds at most one nonempty list of tags |
| Mbi2.CmdlineFields | standalone/mbi2.c:77-88 | what a reader finds in a command line tag: kind 1, size, the string |
| Mbi2.ModuleFields | standalone/include/mbi2.h:88-92 | what a reader finds in a module tag: kind 3, size, start at 8, end at 12, the string at 16 |
| Mbi2.EntryFields | standalone/include/mbi2.h:95-107 | what a reader finds in a memory map tag: kind 6, size, entry size 24, and for entry i its base, length and type 24 i bytes behind the first |
| Mbi2.RsdpFields | standalone/mbi2.c:148-159 | what a reader finds in a root pointer tag: kind 14 for revision 1 and else 15, 20 bytes for revisions 0 and 1, else as many as its length at offset 20 says |
| Mbi2.EndFields | standalone/mbi2.c:161-174 | in the last eight bytes of the total size: kind 0 and size 8 |
| Mbi2.NoTagsReadsEnd | standalone/include/mbi2.h:138-140 | without tags, the first tag the reader sees is the end tag, which it does not test for |
| Mbi2.FirstTagIsEnd | standalone/include/mbi2.h:138-140 | the first tag the reader sees is the end tag if and only if there are no tags: ReadTags covers every other case |
| Mbi2.FirstEntryInside | standalone/include/mbi2.h:112-120 | the first entry the reader sees lies inside the memory map tag if and only if there is one; otherwise it is the end of the tag, against which the reader does not test it |
| Mbi2.EntryOfTag | standalone/include/mbi2.h:112-136 | entry i of a memory map tag is region i, and the reader goes on to the next or stops |
| Mbi2.ReadMap | standalone/mbi2_example.c:38-43 | walking a nonempty memory map tag yields exactly the regions it was built from |
| Mbi2.HeaderMeans | standalone/mbi2.c:9-22 | a header is the bytes D6 50 52 E8 at some multiple of eight bytes inside the data, with four words that add up to zero modulo 2^32 |
| Mbi2.FindHeader | standalone/mbi2.c:9-22 | finds a header exactly when one is at some multiple of eight bytes inside the data, and then the first one |
| Mbi2.HeaderMoves | standalone/mbi2.c:9-22 | a header is found in an image wherever the image lies |
| Convert.SourcesKept | standalone/elf.c:53-87 | building the information clobbers none of what it is built from |
| Convert.AddModules | standalone/elf.c:66-77 | the loop adds all remaining modules in order; when it fails, the whole information does not fit |
| Convert.AddMap | standalone/elf.c:61-64 | the memory map is converted when the memory flag is set |
| Convert.ConvertToMbi2 | standalone/elf.c:53-87 | the information holds command line, map, modules and root pointer of the Multiboot 1 information as its flags say; it succeeds exactly when all of it fits |
| StartModule.FlagMeans | standalone/include/mbi.h:27-29 | bit 0 is the memory flag, bit 2 the command line flag, bit 3 the module flag |
| StartModule.ExpectedMeans | standalone/elf.c:53-87 | the expected tags one by one, as bits 2, 0 and 3 of the flags say: command line, memory map, the modules in order with start, end and string, root pointer, and nothing else |
| StartModule.SetCmdlineFlag | standalone/elf.c:103-105 | setting the command line flag sets it and leaves the memory and module flags |
| StartModule.PoppedMeans | standalone/elf.c:101-105 | taking the first module as kernel sets bit 2 of the flags and no other, makes its string the command line and its successor the first record |
| StartModule.InfoIsNoImage | standalone/elf.c:121 | the total size of an information leaves a zero in the fourth byte, so what starts with one fails the check for the ELF magic |
| StartModule.AfterInfo | standalone/elf.c:113-121 | after the conversion the kernel is intact, or, when it starts where the information does, fails the check for the ELF magic |
| StartModule.LaunchModule | standalone/elf.c:98-168 | after the relocation: boots exactly when the image is accepted and, for a Multiboot 2 kernel, the information fits, is not at address zero and not at the kernel; then the trampoline and the information are in memory and the Multiboot 1 fields have the module popped and the command line set |
| StartModule.RecordsStay | standalone/mbi.c:116-121 | records clear of the free space and the code still point to the moved modules after the conversion and the code generation |
| StartModule.KernelTagsMeans | standalone/elf.c:53-116 | the tags of a relocating start one by one: the string of the first module as command line, the map if asked for, the other modules at their new places, root pointer |
| StartModule.NewPlaceHolds | standalone/mbi.c:112-121 | at the new place of a module there are its original bytes, and its original string where the record says |
| StartModule.MovedModuleTags | standalone/elf.c:66-77 | the module tags built after the move hold the relocated ranges and the original strings |
| StartModule.MovedSources | standalone/elf.c:95-116 | after the move the conversion reads the popped module's string as command line, the same map and root pointer, and the other modules at their new places |
| StartModule.MovedReady | standalone/elf.c:95-116 | after the move, the first module lies right behind the extra space with its original bytes and can be launched |
| StartModule.StartModule | standalone/elf.c:89-171 | start_module from the memory it finds: no module, a stop, or a jump; on the relocating path the outcome, the tags, the image and the module records are stated in terms of the memory before the move; on every launching path the final Multiboot 1 fields are given |
| StartModule.AlreadyThereBoots | standalone/elf.c:97-168 | when the modules are already there: the recognised module starts with the block; if it is the first one, the start boots exactly when the image is accepted and not Multiboot 2; otherwise the first one lies below, the launch is as without relocation, and the information of a Multiboot 2 kernel lies where the recognised module starts |
| StartModule.PlannedBlock | standalone/mbi.c:41-46 | below a limit of 4 GiB the modules go to a place in some region of the map, the greatest one if the regions are disjoint, and the block ends inside memory |
| StartModule.PlannedBlockAligned | standalone/mbi2.c:54-56 | below a page-aligned limit the information's address is aligned as the builder demands |
| Kernel.LaunchedRuns | standalone/elf.c:98-171 | the machine that jumps to the trampoline of any launch reaches the entry point with 0x2BADB002 or, for a Multiboot 2 image, 0x36D76289 in EAX, memory as the image's headers ask, and a Multiboot 2 information in EBX; what neither the launch nor the headers touch is unchanged |
| Kernel.UnmovedKernelRuns | standalone/elf.c:89-171 | end to end when the modules are already there or stay: the run of the kernel in terms of the memory start_module found; the other modules, their strings and records are unchanged as far as they are clear of the information, the code and the kernel |
| Kernel.KernelRuns | standalone/elf.c:89-171 | end to end on the relocating path: the machine reaches the entry point of the first module with 0x2BADB002 or, for a Multiboot 2 image, 0x36D76289 in EAX; memory is as the original image's headers ask; EBX holds the Multiboot 1 information or a Multiboot 2 one with the expected tags; modules and records are at their new places as far as the headers spare them |
| Pci.AddressIsOr | standalone/pci.c:60 | the or of the shifted fields is 0x80000000 + 256 * (8 * bus_device + function) |
| Pci.NotThere | standalone/pci.c:45-55 | advancing from an absent function, which clears the function number and goes to the next device or to the next function, skips no function of the enumeration |
| Pci.There | standalone/pci.c:62-75 | advancing from a listed function, inside the device only if it is a multifunction device, skips no function of the enumeration |
| Pci.ListedMeans | standalone/pci.c:57-78 | the listed functions by the configuration space: function 0 when its identification register is not all ones, another one when neither is and bit 7 of the header type of function 0 is set |
| Pci.EnumerateIsListed | standalone/pci.c:57-78 | the enumeration is strictly ascending and holds exactly the present functions 0 and, for multifunction devices, the other present functions |
| Pci.PciIter.NextDevice | standalone/pci.c:57-78 | each call takes the first function off the enumeration that is still to come and describes it; when none is left it fails, and fails again |
| Pci.PciIter.NextMatching | standalone/pci.c:80-90 | each call takes the first matching function off those still to come |
| Pci.MatchesClassMeans | standalone/pci.c:110-118 | the masked comparison holds exactly when class and, unless any will do, subclass agree with the class register |
| Pci.WantedMeans | standalone/bender.c:62-69 | main takes a function exactly if its class register says class 7 and, unless promiscuous, subclass 0 |
| Pci.FindController | standalone/bender.c:96-108 | main's loop keeps the matching controller with the highest configuration address, if there is one: class 7, and subclass 0 unless promiscuous |
| Strtoull.DigitMeans | standalone/strtoull.c:83-90 | the digits are 0 to 9 and then the letters in either case, in order, and nothing else |
| Strtoull.CutoffIsOverflow | standalone/strtoull.c:80-93 | the cutoff and cutlim test is equivalent to acc * base + c exceeding the maximum, for any base and maximum |
| Strtoull.ReadHead | standalone/strtoull.c:55-75 | spaces, sign and prefix: where the digits start, in which base, negative or not |
| Strtoull.ReadDigits | standalone/strtoull.c:80-100 | the loop ends behind the maximal digit run; the accumulator is its unbounded value, or the value exceeds 64 bits |
| Strtoull.Strtoull | standalone/strtoull.c:44-112 | the value of the maximal digit run, negated modulo 2^64 after a minus sign, or ULLONG_MAX when it does not fit, with the end behind the run; zero and the start for an illegal base or without digits |
| Strtoull.NumberReadBack | standalone/strtoull.c:55-111 | spaces, an optional sign, a prefix and digits are read back as the value of the digits: 0x or 0X means 16 with base 16 or 0, a leading zero 8 and another digit 10 with base 0; negated after a minus sign, saturated when it does not fit, with the end behind the digits |
| Printf.TextLength | standalone/printf.c:30 | a number below 2^e has at most e digits in any base from 2 on, so 64 bits never overrun the 64-byte buffer |
| Printf.DecimalDigits | standalone/printf.c:78-81 | the digit loop fills the buffer with the decimal digits, last one first, within its 64 bytes |
| Printf.HexDigits | standalone/printf.c:96-99 | the same for hexadecimal digits |
| Printf.DumpBuffer | standalone/printf.c:82-87 | fill zeros up to the width, although the unsigned fill wraps at the end, then the buffer backwards |
| Printf.ConversionMeans | standalone/printf.c:56-63 | between percent sign and conversion character only the number of l's and the last digit count |
| Printf.DigitTable | standalone/printf.c:98 | the sixteen digits are 0 to 9 and a to f |
| Printf.Vprintf | standalone/printf.c:29-108 | the two-state loop prints what parsing the format first and rendering its pieces then would print |
| Printf.FormatSplits | standalone/printf.c:38-104 | a format is printed piece by piece: the text in front of a percent sign as it is, its conversion with the next argument, the rest with the other arguments |
| Printf.CharactersShown | standalone/printf.c:64-71 | %c and %s print their argument as it is |
| Printf.PlainText | standalone/printf.c:46-55 | a format without percent sign is printed as it is |
| Printf.Unfinished | standalone/printf.c:56-104 | a percent sign without a conversion character behind it prints nothing more |
| Printf.TextReadBack | standalone/printf.c:78-81 | a printed numeral has the number as its value |
| Printf.NumberTextLength | standalone/printf.c:82-87 | a printed number takes the larger of the fill width and its digit count |
| Printf.NumberShape | standalone/printf.c:78-101 | a printed number is in lower case and has no leading zero beyond its fill width |
| Printf.PrintThenParse | standalone/printf.c:58-101 | any 64-bit number printed in base 10 or 16 with any fill is read back by strtoull as itself, to the end of the text |
| Printf.FormatThenParse | standalone/printf.c:56-101 | from the format on: d and u print base 10, p and x base 16, of an unsigned number or, from two l's on, an unsigned long long; strtoull reads it back as the argument in that base; it is as wide as the last digit of the middle says, without more leading zeros than that |
| Strtok.SpansAreMaximalRuns | standalone/strtok.c:49-82 | the tokens are exactly the maximal nonempty delimiter-free runs |
| Strtok.SpansAscend | standalone/strtok.c:49-82 | tokens are in order and apart |
| Strtok.StrtokR | standalone/strtok.c:42-84 | each call takes the first token off those still to come, ends it with a NUL in place of one delimiter and changes nothing else; then NULL, and NULL forever |
| Strtok.AllTokens | standalone/bender.c:35-36 | a whole run, first with the string and then with the saved pointer until NULL: the tokens are those of the original string, in order, and in the end only their ends have been overwritten |
| Strtok.CutAllAt | standalone/strtok.c:71-76 | after a whole run a byte is NUL where a token ends, and as before everywhere else |
| Cmdline.StrNCpy | standalone/strncpy.c:51-66 | copies up to n characters and pads with NULs |
| Cmdline.CopyTerminated | standalone/bender.c:29-33 | the copy in the 256-byte buffer is NUL-terminated exactly when the command line is shorter than the buffer |
| Cmdline.StrNCmp | standalone/strncmp.c:36-49 | for any bound: zero exactly when no character below the bound differs, else the difference of the first characters that differ |
| Cmdline.EqualStrings | standalone/strncmp.c:36-49 | with a bound above the length of one string, that is equality of the strings |
| Cmdline.WordsReadBack | standalone/bender.c:35-36 | words joined with any number of spaces, also in front and behind, are split into exactly these words |
| Cmdline.ParseCmdline | standalone/bender.c:27-50 | for every command line shorter than 256 bytes, each option is set exactly when some space-separated word other than the first is its keyword |

## Left out

- QDivRem.QDivRem: requires a nonzero divisor; dividing by zero is a deliberate trap in the code. The digit arrays start out zeroed instead of uninitialised, and `digit` is held as a word whose value is proved to be below 2^16 wherever the code relies on it, so that either typedef of the code agrees.
- Trampoline.TrampolineRuns: the processor has the four instructions the generator emits, a clear direction flag and flat 4 GiB memory; REP instructions run byte by byte without interrupts. The inline-assembly jump itself is not modelled: execution starts from the registers it sets.
- BootImage.BootRuns: requires p_filesz <= p_memsz, addresses within 32 bits, and targets clear of the code and of the image; the code checks none of these. The same holds for the runs in `Kernel`, as `Placeable`.
- ElfLoader.GenerateTrampoline: requires that the ELF header and the program headers lie in memory and clear of the code buffer, which the code does not check.
- MemoryMap.FindMemory: requires entries that do not wrap around 64 bits, even rounded up to a page.
- MemoryMap.SelectHighest: assumes pairwise disjoint available regions, as a special case; the exact condition is in `MemoryMap.HighestInEveryOrder`, the failing input in `MemoryMap.OverlapMissesHighest`.
- Relocate.RelocateModules: requires well-formed modules, a total size within 32 bits, and, on the relocating path only, a block inside memory, as it is for a limit of at most 4 GiB (`StartModule.PlannedBlock`), and strings, module records and bodies that keep clear of each other and of the block as `Clear` says, because the overlap check of the code looks at module bodies alone. The path for modules that are already there and the fallback path promise nothing about the extra space.
- StartModule.StartModule: on the two paths that do not relocate, a kernel must lie clear of its code, and for a Multiboot 2 kernel what the information is built from must lie clear of the 16 KiB at the block, as must code and kernel unless the kernel starts with the block. When modules are already there, the kernel is one of the two by itself; on the fallback path the code does not check it. The first module must be as long as an ELF header, with its program headers inside it.
- Mbi2.Builder.AddBlob: requires that size + align stays within 32 bits, as it does for every caller. The bytes to copy are passed as a value; callers read them from memory right before, and their contracts require the source to lie outside the buffer. Padding bytes between tags keep what was in memory, as in the code.
- Mbi2.ReadTags: needs at least one tag, because the reader does not test the first tag for being the end tag, and it is the end tag if and only if there are no tags (`Mbi2.FirstTagIsEnd`).
- Mbi2.ReadMap: needs at least one entry, because the reader does not test the first entry against the end of the tag, and it lies inside if and only if there are entries (`Mbi2.FirstEntryInside`).
- Cmdline.ParseCmdline: requires fewer than 256 bytes; a longer command line leaves the buffer of the code without a NUL (`Cmdline.CopyTerminated`).
- Mbi2.FindHeader: requires that the data end below 4 GiB, where the end pointer of the code would wrap to zero.
- Printf.Vprintf: requires an argument of the right type for every conversion, as the variable argument list of C does. Output is a sequence of characters.
- The fields of the Multiboot 1 information are an object beside the byte memory, so that overwriting the information itself by a module or a segment is not modelled.
- PCI configuration space is a fixed function of the dword address; the port writes and reads behind it, and the database lookup, are not modelled.
- The root pointer search in `standalone/acpi.c` is a parameter, zero for none.
- Serial output, waiting, reboot, VGA scrolling, base address registers, quirks and the BIOS data area: hardware effects without an invariant of their own.
- The messages that the loader prints on its way: `printf` is modelled by itself.
- `standalone/amy.c`, `standalone/basicperf.c` and `standalone/pci_db.c`: drivers, timing and a table.
