# A verified model of the avr-updi-gdb core

avr-updi-gdb debugs AVR-Dx chips over the one-wire UPDI link. It serves GDB (remote serial protocol)
and editors (Debug Adapter Protocol), patches software breakpoints into flash, and carries tools that
edit and merge the structured project document. This project models the logic under that input and
output in Dafny and proves what it is for. Hardware and files are plain state: a flash array, two
comparators, CPU registers, byte streams, keyed maps.

`dafny verify dfyconfig.toml` checks everything. The modules, bottom up:

| module | subject |
|---|---|
| `Crc` | the CRC-32 page summary as division of polynomials over GF(2) |
| `Updi` | the chip: AND-only flash programming, page erase, comparators, OCD registers, stepping |
| `Policy`, `Breakpoints` | which resource holds a breakpoint; the core that keeps it in step with patched flash |
| `StepOver` | one instruction of the unpatched program, and resuming from a breakpoint |
| `JsonTokens`, `JsonIndex`, `JsonGrammar`, `JsonStrings` | the JSON tokenizer, its token array, the language it takes, escaping |
| `Cfi`, `CfiForms`, `CfiSection` | LEB128 numbers; call frame instructions against the row table of DWARF 4; finding the description of a pc |
| `Unwind` | the stack unwinder against the calling convention |
| `VFlash` | the vFlash transaction |
| `Decimal`, `Framing`, `Base64`, `Registers` | message framing, packet checksums, Base64, the g/G register block |
| `Ids`, `MergeFields`, `Merge`, `MergeDocs`, `MergeLaws`, `Renumbering`, `MergeIds` | fresh identifiers and the three-way merge |
| `Rename`, `Selectors`, `EditPaths` | renaming an identifier with its trace rows, selecting children, edit paths |
| `Options`, `Bytes` | a value that may be missing; bytes, words and hexadecimal digits |

Code that updates variables step by step is a method with its loop, proved against a specification
function; the promises are then lemmas about that function. `Breakpoints.Core`, `Updi.Device`,
`VFlash.Session`, `JsonTokens.Parser`, `Unwind.Session`, `Framing.Stream` and `MergeDocs.Merger` are classes
because the source keeps that state in objects it updates.

How the model reads the source, where that matters:

- Flash addresses of breakpoints are even and below the flash size. A `Core` knows the image before any patch as a ghost.
- A fresh write of OCD.PC makes the next step or run skip one instruction, modelled as one word (`Updi.Device.skipNext`). `Core.MarkAgrees` says that `pc_dirty` tells the truth about it.
- The instruction set is a parameter: a function of the two words at PC, the flash image and the CPU. `StepOver.AvrIsa` fixes the meaning of CALL and JMP and the length of LDS and STS; everything else is open but for instructions that write flash. `StepOver.SomeAvrIsa` shows that such instruction sets exist.
- Reads of flash are faithful after a patch although the patch leaves the page-write command armed; the comment at src/updi.c:1493-1498 reports that a first read burst can be disturbed on silicon.
- There is one stack pointer; the OCD view of it and SPL/SPH in data space are the same register.
- Characters of strings stand for bytes; texts of the JSON modules are NUL-free where a C string is read.
- A CRC, a merge and the like are stated for all inputs; sizes are unbounded unless the source bounds them.

What the proofs found, each stated below as an exact condition or with a concrete input:

- `bp_insert` with a hard request does not pin an address that an evictable entry already holds in the comparator (`Policy.HardRequestPinsIff`).
- A failed eviction into a full table loses the evicted breakpoint (`Policy.InsertArms`).
- A removal can leave its address armed, when the mode hides the patched copy or both resources hold it (`Policy.RemoveDisarmsIff`).
- A step sees the word behind the instruction, and flash it reads as data, as patched. A CALL or JMP is executed as the program's own exactly when no BREAK is planted on its second word or the program has a BREAK there (`StepOver.SeenIsProgramsIff`, `StepOver.StepOver`, with a wrong landing in `StepOver.PlantedTargetExample`). For opcodes the instruction set leaves open, one direction is shown: the step is exact if the next word is intact or does not matter, and no BREAK is planted or the instruction reads no flash. `StepOver.LoadSeesBreakExample` is a load that reads half a BREAK.
- The run that ends `dap_resume_over_current` does not consume the mark. It skips an instruction exactly when the mark is set, which is when a CALL or JMP was emulated or the BREAK went back into flash (`StepOver.ResumeOverCurrent`).
- Reading and writing back OCD.PC is the identity exactly when it is not raw 0; writing and reading back exactly for even addresses up to 0x1FFFC (`Updi.PcReadWriteIff`, `Updi.PcWriteReadIff`). G and P write PC without marking it dirty: after an accepted write the mark agrees with the skip flag exactly if it was set before (`Registers.WriteRegs`, `Registers.WriteReg`).
- The number reader of the tokenizer takes more than RFC 8259 (`JsonGrammar.LaxNumberExample`); `JsonGrammar.AcceptsIff` gives the exact language.
- A received packet with an empty payload returns 0 like the end of the stream (`Framing.EmptyPayloadLooksLikeEnd`); a packet is received as sent exactly when its payload has no `#` and fits (`Framing.PacketEnclosedIff`).
- An erase repeated inside an open vFlash transaction does not blank bytes written before it, and a rejected erase keeps the transaction open while a rejected write drops it (`VFlash.ReEraseKeeps`, `VFlash.ReEraseExample`, `VFlash.Session.DoErase`, `VFlash.Session.DoWrite`).
- `merge(b, o, b) = o` and `merge(b, b, t) = t` fail exactly when a whole wrapper was deleted on the changed side (`MergeLaws.MergeTheirsUnchanged`, `MergeLaws.MergeOursUnchanged`).
- An item deleted on our side and modified on theirs comes back without a report. The module comment at tools/project_merge.py:22-24 promises a `modify_delete` conflict; the model follows the code (`Merge.OurDeletion`, `Merge.DeletionUndoneExample`).
- A renumbered item is fresh in its own group only and can take an id of another group (`MergeIds.RenameClashExample`). An item moved to another group on one side and edited on the other is in both groups afterwards, without a report (`MergeIds.MovedAndEditedExample`). Ids stay unique exactly when no id is kept in two groups and no new id is kept or new in another group (`MergeIds.UniqueIff`); which ids are new does not depend on the order of renumbering (`Renumbering.OrderDoesNotMatter`).
- Renaming an id keeps the trace graph exactly when no trace names the new id and, if any trace names the old one, no other element of the kind has either id (`Rename.RenameKeepsGraphIff`); traces that resolved keep resolving to the same element under the weaker condition of `Rename.ResolvedStaysIff`.

## Model

| member | source | states |
|---|---|---|
| `Crc.Compute` | src/updi.c:2117-2128 | The bit-by-bit loop returns the CRC of the buffer as `IsCrc` defines it, that is, the complemented register after long division |
| `Crc.CrcIsRemainder` | src/updi.c:2117-2128 | A CRC is the remainder of section 3.2.9 of IEEE 802.3: the message with its first 32 bits complemented, shifted by 32, is a multiple of the generator plus the complemented CRC |
| `Crc.RemainderUnique` | src/updi.c:2117-2128 | Quotient and remainder are determined by the message, so the statement above pins the CRC down |
| `Crc.RunInjective` | src/updi.c:2121-2126 | Different register states stay different whatever bits follow |
| `Crc.BurstDetected` | src/updi.c:2117-2128 | Two equal-length buffers that differ only inside one window of at most four bytes never have the same CRC |
| `Updi.AndBits` | src/updi.c:1452-1457 | A bit of a programmed cell is set exactly if it was set and the data sets it |
| `Updi.ProgramExactIff` | src/updi.c:1452-1457 | Programming without an erase stores the data exactly when every set bit of it is set in the cell: no bit rises from 0 to 1 |
| `Updi.EraseThenProgram` | src/updi.c:1452-1457 | Erasing first makes programming store the data, whatever was there |
| `Updi.UnerasedExample` | src/updi.c:1452-1457 | A zero cell keeps its value when written without an erase |
| `Updi.Device.ErasePage` | src/updi.c:1518-1539 | One triggering store under the page-erase command blanks the page and nothing else |
| `Updi.Device.WritePageBulk` | src/updi.c:1368-1427 | The word stores of a page and all old cells are combined by AND |
| `Updi.Device.WriteFlash` | src/updi.c:1429-1508 | Accepted exactly for a page-aligned, non-empty, whole-page block; the block then holds the data and every other byte is unchanged; SRAM is kept |
| `Updi.Device.PatchPage` | src/updi.c:1573-1600 | One page of the read-modify-write changes exactly the patched bytes |
| `Updi.Device.FlashPatch` | src/updi.c:1557-1605 | For any address, length and alignment over any number of pages, exactly the span becomes the data |
| `Updi.PcIs` | src/updi.c:1193-1217 | The debugger reads the byte address of the word at PC, 0 at raw 0, and writes an address modulo 64 KiB of words |
| `Updi.PcWriteReadIff` | src/updi.c:1193-1217 | Writing and reading PC gives an even byte address back exactly up to 0x1FFFC |
| `Updi.PcReadWriteIff` | src/updi.c:1193-1217 | Reading and writing PC back keeps it exactly when OCD.PC is not raw 0 |
| `Updi.Device.SetHwBp` | src/updi.c:1270-1293 | A comparator takes a 17-bit even address and is armed, the other one kept |
| `Updi.Device.ClearHwBp` | src/updi.c:1295-1315 | A comparator is disarmed, the other one and the common gate stay consistent |
| `Updi.Device.Step32` | src/updi.c:1063-1106 | With a comparator armed at its successor exactly one instruction is executed; that comparator is disarmed again and the other one kept |
| `Policy.InsertArms` | src/debug_bp.c:120-180 | A successful insert adds exactly its address, also through eviction; a failed one changes nothing but a failed eviction loses the evicted address |
| `Policy.InsertSucceedsIff` | src/debug_bp.c:120-180 | When an insert succeeds, in terms of free slots and what holds the comparator |
| `Policy.RemoveDisarmsIff` | src/debug_bp.c:182-214 | When a removal disarms its address; no other address is touched |
| `Policy.PinnedStaysOverRun` | src/debug_bp.c:120-214 | Over any run of requests, a pinned comparator is emptied only by a removal at its address |
| `Policy.HardRequestPinsIff` | src/debug_bp.c:120-180 | When a successful hard request leaves its address pinned |
| `Policy.AutoRunRefinesSet` | src/debug_bp.c:120-214 | Over any run of automatic soft requests the arbiter is a set with insertion and removal, and the two resources stay disjoint |
| `Policy.LiftThenPlant` | src/debug_bp.c:120-214 | Removing an armed address and inserting it again always succeeds and keeps the armed set |
| `Breakpoints.UnpatchedWord` | src/debug_bp.c:46-94 | The word read back at an address without a BREAK is the program's own |
| `Breakpoints.FillSlot` | src/debug_bp.c:99-118 | Taking a free table slot keeps addresses distinct, saved words true and adds one address |
| `Breakpoints.FreeSlot` | src/debug_bp.c:188-204 | Freeing a slot removes one address, and the saved word is the program's |
| `Breakpoints.SavedPc` | src/debug_bp.c:19-43 | Saving and restoring PC shows the debugger the same PC, and is exact unless OCD.PC is raw 0 |
| `Breakpoints.Core.SnapshotCpu` | src/debug_bp.c:19-29 | The snapshot holds what the debugger can read |
| `Breakpoints.Core.RestoreCpu` | src/debug_bp.c:31-43 | The registers are the given ones, and the skip flag is set |
| `Breakpoints.Core.PatchFlash` | src/debug_bp.c:46-94 | Exactly two flash bytes change, the old ones are returned, registers survive the reset, the comparator is armed again, and the mark is set |
| `Breakpoints.Core.SwInstall` | src/debug_bp.c:99-118 | The flash, table and status of a software breakpoint are those of the policy, and the invariant is kept |
| `Breakpoints.Core.HwInstall` | src/debug_bp.c:152-180 | The comparator, its shadow and any eviction are those of the policy, and the invariant is kept |
| `Breakpoints.Core.Insert` | src/debug_bp.c:120-180 | One insert keeps the invariant, follows the policy and preserves GPRs, SREG, SP, PC and SRAM. A soft request in automatic mode takes the free comparator at the very address, unpinned, and leaves flash and mark alone; with the comparator taken, or in software mode, the comparator stays and exactly one word becomes BREAK unless the address is armed already; a hard request takes the comparator and evicts at most one address into flash. A failed request leaves flash alone, and names data space exactly for a soft request there |
| `Breakpoints.Core.Remove` | src/debug_bp.c:182-214 | One removal keeps the invariant and the registers. It puts the program's word back where a soft request finds a BREAK, else frees the comparator if it holds the address, and else changes nothing |
| `Breakpoints.Core.Perform` | src/debug_bp.c:120-214 | Over any run: flash is the program with BREAK at exactly the in-use addresses, saved words are the program's, addresses are distinct, the comparator is armed exactly when its slot is taken, registers survive |
| `StepOver.SomeAvrIsa` | src/updi.c:1108-1159 | An instruction set as the model demands exists, whose other instructions neither look at the next word nor read flash |
| `StepOver.CallIff` | src/debug_bp.c:294-304 | Two words are a CALL, or a JMP, to the 22-bit address k exactly if they are the encoding of the instruction set manual |
| `StepOver.LdsStsIff` | src/debug_bp.c:292-293 | The first words taken for LDS and STS are exactly theirs |
| `StepOver.PatchedFetch` | src/debug_bp.c:233-262 | What is fetched from patched flash |
| `StepOver.ProgramWord` | src/debug_bp.c:246-262 | The opcode looked up behind a BREAK is the program's |
| `StepOver.CofNeedsNext` | src/debug_bp.c:294-304 | A CALL or JMP does with one second word what it does with another exactly when they are equal |
| `StepOver.SeenIsProgramsIff` | src/debug_bp.c:267-331 | What a step sees is the program's instruction: for CALL and JMP exactly if the next word is intact, for others if no BREAK gets in the way |
| `StepOver.PlantedTargetExample` | src/debug_bp.c:294-304 | A JMP whose second word is covered by a BREAK lands elsewhere |
| `StepOver.LoadSeesBreakExample` | src/debug_bp.c:327-329 | LPM at a planted address loads half a BREAK |
| `StepOver.ConsumePcSkip` | src/debug_bp.c:233-265 | A marked PC is consumed by injecting the program's own opcode, once, exactly unless a CALL or JMP stands in the open, which is left to the caller with nothing changed |
| `StepOver.EmulateCof` | src/updi.c:1108-1159 | The emulated change of flow pushes the return word and writes PC, and survives the stack pointer being resynchronised |
| `StepOver.StepCof` | src/debug_bp.c:284-321 | The emulation is the instruction's own effect |
| `StepOver.StepPlain` | src/debug_bp.c:307-331 | Other instructions, 32-bit loads and stores included, are executed once as they stand in flash |
| `StepOver.StepOver` | src/debug_bp.c:267-331 | One step executes the program's opcode, seeing the rest of flash as patched: one instruction of the unpatched program if no BREAK gets in the way, and for CALL and JMP exactly if the second word is intact; the mark agrees with the silicon again and is set exactly by an emulated CALL or JMP |
| `StepOver.LiftThenPlantAt` | src/dap.c:1658-1672 | Lifting and planting over a list of entries keeps the armed set if a verified entry at pc was armed |
| `StepOver.StepAndReplant` | src/dap.c:1658-1670 | Remove, step, insert: one instruction has run, the breakpoints are what removal and insertion make of them, which is the same armed set if the one at pc was armed, and the mark is set exactly when a CALL or JMP was emulated or the BREAK went back into flash |
| `StepOver.ResumeOverCurrent` | src/dap.c:1658-1672 | The first instruction of the run that follows is executed exactly when the mark is clear and skipped otherwise, after which the mark no longer agrees with the silicon |
| `JsonTokens.Parser.StringTok` | src/dap.c:59-85 | The string scanner advances to the closing quote that the scan function gives and stores one token, or fails where it does |
| `JsonTokens.Parser.NestedTok` | src/dap.c:129-208 | The array and object readers append exactly the pre-order of the tree read |
| `JsonTokens.Parser.Value` | src/dap.c:210-220 | One value appends exactly the pre-order of its tree, or fails where the text or the space does |
| `JsonTokens.Parse` | src/dap.c:222-232 | The token count and the array are the pre-order of the value tree, -1 exactly when there is none or it does not fit |
| `JsonIndex.TreeLinked` | src/dap.c:28-36 | In a pre-order every token's `size` hops over its entries land on its `next` |
| `JsonIndex.ValueNests` | src/dap.c:59-220 | Every tree that is read has nested spans and an even number of object entries |
| `JsonIndex.ParsedIndex` | src/dap.c:222-232 | In a parsed array the root's `next` is the count, every token is linked, and the spans of any two tokens are nested if one belongs to the other's value and apart if not |
| `JsonIndex.StrEq` | src/dap.c:234-240 | The comparison is equality of the raw text of a string token |
| `JsonIndex.LookupFinds` | src/dap.c:242-255 | The index of a found key holds the pre-order of the value, again proper and nested, so that a lookup can go on inside it |
| `JsonIndex.Member` | src/dap.c:242-255 | Walking the skip links is first-match lookup in the tree, for every key |
| `JsonGrammar.CharactersAre` | src/dap.c:39-46 | White space, number characters and brackets, character by character |
| `JsonGrammar.NodesAreCounted` | src/dap.c:50-55 | A text needs one token per node |
| `JsonGrammar.ValueComplete` | src/dap.c:39-220 | The print of every text of the grammar is read back as its own tree |
| `JsonGrammar.ValueSound` | src/dap.c:39-220 | Whatever is read is the print of a text of the grammar |
| `JsonGrammar.AcceptsIff` | src/dap.c:210-232 | The tokenizer takes exactly the inputs that start with a text of the grammar |
| `JsonGrammar.RfcNumberExamples` | src/dap.c:109-126 | Numbers that are and are not of section 6 of RFC 8259 |
| `JsonGrammar.RfcTextExample` | src/dap.c:210-232 | A text of the standard and how it is printed |
| `JsonGrammar.RfcAccepted` | src/dap.c:210-232 | Every text of sections 2 to 7 of RFC 8259 is accepted with its own tree and one token per node |
| `JsonGrammar.LaxNumberExample` | src/dap.c:109-126 | The converse fails: a run of number characters is a number |
| `JsonStrings.EscapeIs` | src/dap.c:321-355 | Which characters are escaped, and how |
| `JsonStrings.EscapeInto` | src/dap.c:321-355 | The output is the escape of the longest prefix that fits with its terminator, never a cut escape sequence |
| `JsonStrings.DecodeInto` | src/dap.c:257-301 | The output is the decoded text, as much as fits with its terminator |
| `JsonStrings.UnicodeIs` | src/dap.c:277-293 | A four-digit escape with digits of either case is its ASCII character, or a question mark from 0x80 on |
| `JsonStrings.PairIs` | src/dap.c:266-276 | The five letters of section 7 of RFC 8259 stand for control characters, anything else behind a backslash for itself |
| `JsonStrings.BrokenEscapesExample` | src/dap.c:257-301 | Escapes that are cut short, and digits that are none |
| `JsonStrings.DecodeEscape` | src/dap.c:257-355 | Decoding the escape of any string gives it back |
| `JsonStrings.QuoteScanDecode` | src/dap.c:59-85 | A quoted escape tokenizes to one string spanning exactly the escape, and decoding the span gives the string back |
| `Cfi.ReadUleb` | src/elf_parser.c:499-510 | The shifting loop computes the number `Uleb` and where it stops |
| `Cfi.ReadSleb` | src/elf_parser.c:512-524 | The same for the signed number `Sleb` |
| `Cfi.UlebReads` | src/elf_parser.c:499-510 | A complete number is read as itself whatever follows |
| `Cfi.UlebDigits` | src/elf_parser.c:499-510 | The low seven bits of byte i are digit i of the number to the base 128, and there are no other digits |
| `Cfi.UlebBound` | src/elf_parser.c:499-510 | A number of n bytes is below 2 to the 7n |
| `Cfi.UlebOfReads` | src/elf_parser.c:499-510 | The encoding by division by 128 is read back as the number |
| `Cfi.SlebIsSigned` | src/elf_parser.c:512-524 | The signed reading is the unsigned one modulo 2 to the 7n, between minus and plus half of that |
| `Cfi.SlebOfReads` | src/elf_parser.c:512-524 | The signed encoding by division by 128 is read back as the number |
| `Cfi.Next` | src/elf_parser.c:552-611 | The opcode switch with its operands and skipped blocks is the decoding function |
| `Cfi.DecodeEnc` | src/elf_parser.c:552-611 | An encoded instruction of sections 6.4.2 and 7.23 of DWARF 4 is decoded as itself, padded numbers included, whatever follows |
| `Cfi.CfiRun` | src/elf_parser.c:543-619 | Both passes of the interpreter, ended by the first move past pc, are the execution function |
| `Cfi.ExecSplit` | src/elf_parser.c:551-615 | Bytes behind a program run on from the state it leaves, or not at all once it has halted |
| `Cfi.ExecCovers` | src/elf_parser.c:543-619 | The state reached is that of the row covering pc, and the run halted early exactly when that row is not the last |
| `Cfi.SomeRowCovers` | src/elf_parser.c:540-542 | Some row covers every pc at or after the initial location |
| `Cfi.CfiRunIsTable` | src/elf_parser.c:543-619 | The answer is the CFA rule of the last row of the fully expanded table whose location is at most pc |
| `Cfi.LaterBytesIgnored` | src/elf_parser.c:540-617 | Whatever bytes follow the covering row, the answer is the same |
| `CfiForms.Int32Wraps` | src/elf_parser.c:577-588 | Operands are taken modulo 2 to the 32 into the int range, and int values as they are |
| `CfiForms.DefineRuns` | src/elf_parser.c:577-586 | An encoded DW_CFA_def_cfa sets register and offset to the numbers encoded; in the signed form the offset may be negative and is not scaled |
| `CfiForms.DefinitionAnswers` | src/elf_parser.c:577-618 | A definition that ends the program is the answer, unless its register number is negative as an int |
| `CfiForms.RegisterRuns` | src/elf_parser.c:580-581 | DW_CFA_def_cfa_register sets the register and establishes a rule |
| `CfiForms.OffsetRuns` | src/elf_parser.c:582-588 | DW_CFA_def_cfa_offset and its signed form set the offset and establish none |
| `CfiForms.ExpressionRuns` | src/elf_parser.c:607-609 | DW_CFA_def_cfa_expression skips its block and leaves no rule |
| `CfiForms.RulesSkipped` | src/elf_parser.c:558-600 | Every register rule is skipped with as many operands as it has |
| `CfiForms.ExpressionsSkipped` | src/elf_parser.c:604-606 | So are the two with a block |
| `CfiForms.RememberRuns` | src/elf_parser.c:601-603 | Remembering and restoring a state changes nothing |
| `CfiForms.AdvanceRuns` | src/elf_parser.c:555-557 | The short advance moves by its six bits times the alignment modulo 2 to the 32, and ends the program exactly if that passes pc |
| `CfiForms.WideRuns` | src/elf_parser.c:569-576 | So do the forms of one, two and four bytes, lowest byte first |
| `CfiForms.ShortAdvanceOverruns` | src/elf_parser.c:564-576 | A location opcode whose operand bytes are not all there reads outside the program |
| `CfiForms.UnknownStops` | src/elf_parser.c:610 | An unknown opcode ends the program with the state so far |
| `CfiSection.ParseCie` | src/elf_parser.c:623-646 | The field-by-field reader is the parsing function, with its refusals |
| `CfiSection.CieParses` | src/elf_parser.c:623-646 | A CIE laid out as in section 6.4.1 of DWARF 4 (versions 1, 3 and 4) is parsed as itself wherever it lies |
| `CfiSection.AugmentedRefused` | src/elf_parser.c:643 | A CIE whose augmentation starts with z is refused |
| `CfiSection.CutShortCie` | src/elf_parser.c:630-645 | A CIE that ends inside its name has alignment 0 and no instructions |
| `CfiSection.UnusablePassed` | src/elf_parser.c:686-697 | A CIE, or an FDE whose CIE is refused, is passed over |
| `CfiSection.WalkEnds` | src/elf_parser.c:680-685 | A length of 0 or 0xFFFFFFFF, or an entry that is cut short, ends the walk without a rule, and is no CIE |
| `CfiSection.FindCfa` | src/elf_parser.c:649-699 | The entry walk is the lookup function |
| `CfiSection.LookupFrom` | src/elf_parser.c:679-699 | In a section of well-formed entries the first FDE that covers pc answers, and nothing does if there is none |
| `CfiSection.SectionRuleIsTable` | src/elf_parser.c:649-699 | From section bytes to the table: the rule reported for pc is that of the covering row of the first FDE that covers it |
| `Unwind.Session.Unwind` | src/dap.c:578-639 | The loop fills the frame array with the frames function, at most 32 of them |
| `Unwind.UnwindsStack` | src/dap.c:578-639 | On a stack of d frames laid out by the calling convention it returns the innermost min(d, n), each with its own pc, cfa, y and sp |
| `Unwind.FramesLinked` | src/dap.c:578-639 | Every frame has the CFA its rule gives, SP plus the offset for register 32 whatever Y is and Y plus the offset otherwise; the next frame has the return address, SP and Y that memory holds there; and it is the last exactly if there is no rule, the return word is no code address, the CFA has not moved or the array is full |
| `Unwind.FirstFrame` | src/dap.c:591-638 | The first frame is that of the live registers, with the same CFA and the same condition for a second one |
| `Unwind.CallIsRecovered` | src/updi.c:1126-1154 | The return address the emulated CALL pushes is the one recovered at the callee's entry |
| `Unwind.FramePointerIsRecovered` | src/dap.c:561-576 | In a callee that saved Y and made it its frame pointer, the return address and the caller's Y are recovered anywhere in the body and wherever SP has gone |
| `VFlash.UnescapeEscape` | src/gdb_rsp.c:1423-1431 | A body unescapes to the data exactly if it writes every byte as it is or as 0x7D and the byte with bit 5 flipped, and 0x7D itself only in the second way |
| `VFlash.SomeEscape` | src/gdb_rsp.c:1423-1431 | Whatever set of bytes a sender escapes besides 0x7D, it has such a body |
| `VFlash.WriteOkIff` | src/gdb_rsp.c:1400-1433 | A well-formed write is accepted exactly if a transaction is open, the address is in flash and every byte lands in the window |
| `VFlash.WriteNotOk` | src/gdb_rsp.c:1423-1427 | A body that is no escaping of any data is refused |
| `VFlash.EraseOkIff` | src/gdb_rsp.c:1355-1360 | The test of two addresses accepts exactly the ranges of at most 1 MB that neither touch data space nor wrap |
| `VFlash.HullAligned` | src/gdb_rsp.c:1362-1394 | The buffer window is made of whole pages and never empty |
| `VFlash.HullIsLeast` | src/gdb_rsp.c:1362-1394 | It is the least page-aligned window around every erased range |
| `VFlash.LastWriteWins` | src/gdb_rsp.c:1420-1431 | The last write over an address decides its byte |
| `VFlash.UnwrittenIsErased` | src/gdb_rsp.c:1366-1394 | An address no write covers reads 0xFF |
| `VFlash.Session.DoErase` | src/gdb_rsp.c:1343-1394 | Growing the buffer keeps it equal to the overlay of the accepted writes over 0xFF |
| `VFlash.Session.Fill` | src/gdb_rsp.c:1420-1431 | The unescaping loop succeeds exactly for a well-formed body that fits, and then stores it and nothing else |
| `VFlash.Session.DoWrite` | src/gdb_rsp.c:1400-1433 | An accepted write is recorded, a rejected one drops the transaction; flash is untouched |
| `VFlash.Session.DoDone` | src/gdb_rsp.c:1440-1456 | Exactly the window of flash becomes the buffer, never refused, and the chip is left at reset with both comparators off |
| `VFlash.ReEraseKeeps` | src/gdb_rsp.c:1372-1392 | An erase inside an open transaction leaves the bytes due as they were |
| `VFlash.ReEraseExample` | src/gdb_rsp.c:1372-1392 | Erase, write, erase again: the written bytes are still due |
| `VFlash.Session.PatchAll` | src/gdb_rsp.c:718-723 | A handler's own flash patches change exactly their spans, in order |
| `VFlash.Session.Handle` | src/gdb_rsp.c:1642-1654 | One packet of any kind does to transaction and flash what the abstract server does; packets with their own handler patch flash as that handler does, unless they break into a transaction, which answers E22 |
| `VFlash.TransactionLeavesFlash` | src/gdb_rsp.c:1343-1433 | vFlashErase, vFlashWrite and a target access that aborts an open transaction leave flash alone |
| `VFlash.DownloadCommits` | src/gdb_rsp.c:1343-1456 | A download with any escaping, other packets between, followed by vFlashDone leaves the window holding the writes in order over 0xFF and the rest of flash as the other packets left it |
| `VFlash.DroppedForGood` | src/gdb_rsp.c:1642-1654 | No byte of a dropped transaction reaches flash: until the next accepted erase the run writes what the other packets write on their own, and vFlashDone changes nothing |
| `Framing.Stream.ReadFull` | src/dap.c:359-369 | However reads are split, the first n bytes or all there are |
| `Framing.Stream.WriteFull` | src/dap.c:371-380 | However writes are split, everything in order |
| `Framing.Stream.ReadHeaderLine` | src/dap.c:384-398 | One line without CR, cut to the buffer |
| `Framing.LineIs` | src/dap.c:384-398 | Whatever a line holds, its CRs are dropped and the first 255 other characters kept, at the end of the stream too |
| `Framing.NumberRead` | src/dap.c:410 | The length may have a sign, ends at the first other character, and is limited to 64 bits |
| `Framing.SpaceSkipped` | src/dap.c:410 | White space before it is skipped, and what does not begin a number is 0 |
| `Framing.ContentLengthNames` | src/dap.c:409 | The header name is read in either case and must be complete |
| `Framing.Stream.ReadMessage` | src/dap.c:400-421 | The reader is the message function of the stream, whatever the chunks |
| `Framing.BlockRead` | src/dap.c:400-421 | Of any header block the last length counts; without one, or with one that is negative or does not fit, the message is refused, and otherwise that many bytes are the body |
| `Framing.HeadersCut` | src/dap.c:400-411 | A stream that ends in the header block, in the middle of a line too, holds no message |
| `Framing.Stream.WriteMessage` | src/dap.c:423-434 | Header and body are written |
| `Framing.HeaderAnnounces` | src/dap.c:411-412 | The written header line fits the line buffer and announces the length |
| `Framing.MessagesFramed` | src/dap.c:400-434 | Any sequence of bodies is read back in order with nothing read beyond the last |
| `Framing.Stream.RecvPacket` | src/gdb_rsp.c:279-322 | The packet reader is the packet function of the stream; a complete packet is acknowledged with + if its checksum is right and with - if not |
| `Framing.Stream.SendPacket` | src/gdb_rsp.c:324-338 | A payload is framed with its checksum exactly when it fits the send buffer |
| `Framing.ChecksumIsSum` | src/gdb_rsp.c:295-301 | The checksum is the sum of the payload bytes modulo 256 |
| `Framing.TrailerRead` | src/gdb_rsp.c:305-321 | With any two characters behind the `#`, a packet is complete exactly if both are hexadecimal digits, and taken exactly if they are the checksum |
| `Framing.PacketCut` | src/gdb_rsp.c:285-302 | A stream that ends before the `#` returns 0, and a payload that fills the buffer is refused at its last byte, both unacknowledged |
| `Framing.TrailerCut` | src/gdb_rsp.c:305-310 | A packet cut off behind the `#` is refused, unacknowledged |
| `Framing.EnclosedExample` | src/gdb_rsp.c:324-338 | What goes over the wire for the payload OK |
| `Framing.PacketEnclosedIff` | src/gdb_rsp.c:279-338 | Behind any noise, a sent packet is received as sent exactly when it is free of `#` and fits |
| `Framing.EmptyPayloadLooksLikeEnd` | src/gdb_rsp.c:279-322 | An empty payload and the end of the stream both return 0 |
| `Framing.ChangedByteRefused` | src/gdb_rsp.c:313-321 | A packet with one payload byte changed is refused |
| `Base64.ValueOfSymbol` | src/dap.c:835-863 | The two tables are inverse |
| `Base64.SymbolIs` | src/dap.c:835-836 | The alphabet is that of table 1 of RFC 4648 |
| `Base64.QuadIsNumber` | src/dap.c:838-853 | The four symbols of a group are the base-64 digits of its 24-bit number, with `=` for the digits of missing bytes |
| `Base64.Encode` | src/dap.c:838-853 | The loop writes whole groups, all of them when the buffer has room |
| `Base64.Decode` | src/dap.c:865-883 | The loop stores the decoded bytes, as many as fit |
| `Base64.OthersSkipped` | src/dap.c:865-883 | Only the symbols before the first `=` or NUL matter |
| `Base64.DecodeEncode` | src/dap.c:838-883 | Decoding undoes encoding for every byte string; with a short text buffer it gives a prefix whose length is a multiple of three |
| `Bytes.HexDigitsRead` | src/gdb_rsp.c:86-99 | Hexadecimal digits are written in lower case and read in both |
| `Registers.ReadRegs` | src/gdb_rsp.c:458-482 | The g reply is the hexadecimal form of the 39-byte block |
| `Registers.BlockIs` | src/gdb_rsp.c:458-482 | Field by field: r0 to r31, SREG, the stack pointer and the PC as a byte address, lowest byte first |
| `Registers.WriteRegs` | src/gdb_rsp.c:556-591 | G is accepted exactly for a block of enough hexadecimal digits, loads all registers, and otherwise changes nothing; afterwards the mark agrees with the silicon exactly if it was set |
| `Registers.LoadedIs` | src/gdb_rsp.c:556-591 | Which register each byte of the block goes to |
| `Registers.WriteReg` | src/gdb_rsp.c:502-527 | Enough bytes for a known register change it and no other; after a PC write the mark agrees with the silicon exactly if it was set |
| `Registers.ChangedIs` | src/gdb_rsp.c:502-527 | The register with the number n takes the bytes, lowest first and PC as half the address, and all others stay |
| `Registers.SufficesIff` | src/gdb_rsp.c:502-527 | Registers are known up to 34; the stack pointer takes two bytes, PC four, the others one |
| `Registers.ParseHex` | src/gdb_rsp.c:101-116 | The digits at the front are read as a 32-bit number |
| `Registers.NumberWraps` | src/gdb_rsp.c:101-116 | Of a longer number the low 32 bits remain |
| `Registers.WriteRegPacket` | src/gdb_rsp.c:529-555 | P is accepted exactly for a register number, `=` and an even number of hexadecimal digits, at most eight bytes, that suffice for the register |
| `Registers.ParsedRegIff` | src/gdb_rsp.c:529-555 | Which texts are register writes |
| `Registers.RegWriteParsed` | src/gdb_rsp.c:529-555 | A register write printed by a client is parsed as meant |
| `Registers.WriteBackIff` | src/gdb_rsp.c:458-591 | G with what g returned is the identity on the registers exactly when OCD.PC is not raw 0 |
| `Registers.ReadBackIff` | src/gdb_rsp.c:458-591 | g after G returns the block written exactly when its PC is even and at most 0x1FFFC |
| `Decimal.ValueShow` | tools/project_merge.py:779-794 | A printed number denotes itself |
| `Decimal.DecimalExample` | tools/project_merge.py:779-794 | The most significant digit is first, and zeros are put in front up to the width |
| `Decimal.PaddedInjective` | tools/project_merge.py:779-794 | Zero-padded printing is injective across widths |
| `Ids.HlrShape` | tools/project_merge.py:776-784 | An id of the upper level goes on with its number, three digits wide |
| `Ids.LlrShape` | tools/project_merge.py:785-794 | An id of the lower level goes on in its group, two digits wide |
| `Ids.OtherShape` | tools/project_merge.py:795-798 | Any other id gets a suffix, from 1 on |
| `Ids.AllocateFreeId` | tools/project_merge.py:765-798 | The search ends for every finite set, at the first free number after the id's own |
| `Ids.NextIdForPattern` | tools/project_edit.py:872-888 | The id is absent from the list, one above the largest number of the pattern, and exactly as wide as the default or the widest number, whichever is wider, unless it needs more digits |
| `MergeFields.UnionKeepsBoth` | tools/project_merge.py:688-718 | The union holds exactly one row for every (target, ref) of either side, ours where both have it |
| `MergeFields.UnionTraces` | tools/project_merge.py:688-718 | The loops over both sides compute that union |
| `MergeFields.UnionOrder` | tools/project_merge.py:705-718 | Our rows come first in their order, then the new ones of theirs, and nothing but rows is kept |
| `MergeFields.TryFieldLevelMerge` | tools/project_merge.py:595-685 | The item is merged tag by tag and attribute by attribute, and success means that nothing was edited differently on both sides, traces apart |
| `MergeFields.KidsMergedAs` | tools/project_merge.py:634-657 | Of every tag the side that changed it wins; of two different changes ours stands, but the first traces elements are united |
| `MergeFields.AttrMergedAs` | tools/project_merge.py:659-678 | Of every attribute the side that changed it wins, and ours of two changes |
| `MergeFields.ResolvedIff` | tools/project_merge.py:634-685 | The merge is refused exactly if some attribute, or some tag other than traces on both sides, was changed in two ways |
| `MergeFields.ResolvedKeepsKids` | tools/project_merge.py:634-657 | A successful merge keeps every edited child of either side |
| `MergeFields.ResolvedKeepsAttrs` | tools/project_merge.py:659-678 | A successful merge keeps every edited attribute of either side |
| `Merge.OursSurvives` | tools/project_merge.py:480-558 | An addition or modification on our side is kept, field-merged or reported |
| `Merge.TheirsSurvives` | tools/project_merge.py:468-558 | So is one on theirs |
| `Merge.ReportedIff` | tools/project_merge.py:480-558 | Exactly when each kind of conflict is reported, and that ours stands then |
| `Merge.DueIff` | tools/project_merge.py:480-558 | Which kind of report each item gets |
| `Merge.TheirDeletion` | tools/project_merge.py:484-500 | A deletion on theirs removes an unchanged item; a changed one stays and is reported |
| `Merge.OurDeletion` | tools/project_merge.py:468-478 | A deletion on our side stands exactly when theirs left the item unchanged; otherwise theirs is back, and neither is reported |
| `Merge.DeletionUndoneExample` | tools/project_merge.py:468-478 | Deleted on our side, modified on theirs: the item is back without a report |
| `Merge.MergeItem` | tools/project_merge.py:480-558 | The branches of the second pass are the outcome function of the three versions |
| `Merge.MergeItems` | tools/project_merge.py:432-558 | The merged container has the outcome of every key, a copy of each colliding item under a distinct first-free key, and nothing else; the reports are exactly those due |
| `MergeDocs.VisitGroup` | tools/project_merge.py:399-429 | A group is dropped, kept, reported or merged as its three versions demand |
| `MergeDocs.TheirGroupDeletion` | tools/project_merge.py:403-423 | A group deleted on their side goes if ours left it alone, and else stays and is reported |
| `MergeDocs.OurGroupDeletion` | tools/project_merge.py:388-397 | A group deleted on ours is back if theirs changed it, and never reported |
| `MergeDocs.Merger.MergeGroup` | tools/project_merge.py:343-429 | All groups of a wrapper are merged and exactly the due reports made, in whatever order the loops run |
| `MergeLaws.MergeThreeWay` | tools/project_merge.py:161-231 | Refused exactly without a base; otherwise every wrapper is merged and every report collected |
| `MergeLaws.EachWrapperMerged` | tools/project_merge.py:79-95 | Requirements of both levels are merged by id and tests by name, and everything else is ours |
| `MergeLaws.OnlyWrappersLogged` | tools/project_merge.py:79-95 | The reports are those due in these three wrappers, and no others |
| `MergeLaws.MergeTheirsUnchanged` | tools/project_merge.py:365-371 | merge(b, o, b) is o exactly when our side deleted no wrapper, and never reports |
| `MergeLaws.MergeOursUnchanged` | tools/project_merge.py:365-371 | merge(b, b, t) is t exactly when their side deleted no wrapper, and never reports |
| `MergeLaws.MergeSame` | tools/project_merge.py:343-558 | merge(b, x, x) is x and never reports, whatever the base |
| `MergeLaws.NoChangeLost` | tools/project_merge.py:343-558 | No addition or modification of any item on either side disappears without a report or a successful field merge |
| `MergeLaws.KeysKept` | tools/project_merge.py:432-558 | Every item still carries the key it is filed under |
| `MergeLaws.DocKeysKept` | tools/project_merge.py:432-558 | If all three documents carry keys under id in requirements and under name in tests, so does the merged one |
| `MergeLaws.CopyIsTheirs` | tools/project_merge.py:506-525 | The renumbered copy is theirs but for its key |
| `MergeIds.RenamedIff` | tools/project_merge.py:506-525 | Exactly the keys that both sides added with different content are renumbered |
| `MergeIds.HoldsIff` | tools/project_merge.py:343-558 | A merged group holds exactly the keys its three versions keep and the copies |
| `Renumbering.Meet` | tools/project_merge.py:777-798 | Where the continuations of two ids meet they have the same number and run on together |
| `Renumbering.OrderDoesNotMatter` | tools/project_merge.py:480-525 | In whatever order the colliding items of a group are renumbered, the set of new ids is the same |
| `MergeIds.KeptOnceIff` | tools/project_merge.py:343-558 | Between documents with unique ids, an id is kept in two groups only if ours and theirs file it in different groups |
| `MergeIds.KeptAloneIff` | tools/project_merge.py:468-504 | An item only one side has in a group is kept exactly unless it is the base's |
| `MergeIds.MovedAndEditedExample` | tools/project_merge.py:468-504 | An item moved on our side and edited on theirs is in both groups, and no report is due |
| `MergeIds.UniqueWithoutCollisions` | tools/project_merge.py:343-558 | Where no id is kept twice and no key is new on both sides with different content, ids stay unique |
| `MergeIds.UniqueWhenApart` | tools/project_merge.py:461-525 | With any collisions, ids stay unique if none is kept twice and no id kept in another group has a colliding id's prefix and a number as large |
| `MergeIds.UniqueIff` | tools/project_merge.py:461-525 | With any number of collisions, ids stay unique exactly when no id is kept twice and no new id is kept or new in another group |
| `MergeIds.RenameClashExample` | tools/project_merge.py:461-466 | A renumbered item can take the id of an item in another section |
| `Rename.CascadeIdRename` | tools/project_edit.py:611-625 | Exactly the traces with the target and the old id are redirected |
| `Rename.SetAttr` | tools/project_edit.py:677-691 | Setting an attribute cascades exactly for a changed, non-empty id |
| `Rename.EditReaches` | tools/project_edit.py:611-691 | An edit changes another element exactly if it is a changed, non-empty id of an hlr or llr and the element is a trace to it, with target HLR or LLR, and then its ref alone |
| `Rename.EditSets` | tools/project_edit.py:677-691 | The element itself takes the value and keeps its other attributes |
| `Rename.RenameKeepsGraphIff` | tools/project_edit.py:611-691 | Every trace resolves to the same elements as before exactly under a condition the caller can check |
| `Rename.ResolvedStaysIff` | tools/project_edit.py:611-691 | Every trace that resolved still resolves to the same element exactly when no trace names the old id or no other element has it |
| `Rename.RenameBackIff` | tools/project_edit.py:611-691 | Renaming back restores the document exactly when no trace named the new id |
| `Rename.OtherIdsKeepGraph` | tools/project_edit.py:618-622 | Ids of other elements can be set without touching the graph |
| `Rename.RenameExample` | tools/project_edit.py:611-691 | A requirement is renamed and the trace to it follows |
| `Selectors.SelectChild` | tools/project_edit.py:586-608 | The selector finds the only child of the tag, the n-th, or the first with the given attributes, and says which of none and several it met |
| `Selectors.SelectsOne` | tools/project_edit.py:586-608 | These descriptions leave one answer |
| `Selectors.RenamedIsFoundIff` | tools/project_edit.py:604-691 | After a renaming the new id addresses the element exactly when no sibling before it has that id already |
| `EditPaths.SplitPath` | tools/project_edit.py:483-508 | The loop with its bracket depth is the splitting function |
| `EditPaths.DepthIs` | tools/project_edit.py:489-497 | The depth is the number of brackets opened less the number closed |
| `EditPaths.SplitJoinedIff` | tools/project_edit.py:483-508 | Joined steps are split into themselves exactly when none is empty, none has a slash outside brackets, and all but the last are balanced |
| `EditPaths.SplitNormalizes` | tools/project_edit.py:483-508 | Any accepted path and the joined form of its steps address the same thing |

## Left out

- Serial port, sockets, timeouts, polling and every failure of the UPDI link: the model states successful calls.
- Operations that drop the breakpoint shadow without rewriting flash (reset, kill, and the clearing inside vFlashDone): they end a run of the flash invariant.
- Odd breakpoint addresses and flash addresses beyond the chip, which alias or overlap.
- VFlash.Session.Handle: asks for vFlashDone what `DoDone` asks.
- VFlash.Session.DoDone: asks that the window lies in flash, which the source does not check; where addresses beyond the chip go is not modelled.
- User breakpoint slots: there is one (comparator 0), so the loops over user slots look at slot 0 only; comparator 1 belongs to `Updi.Device.Step32`.
- Updi.Device.Reset: what a reset leaves in the general registers is arbitrary; peripheral registers are bytes without side effects.
- StepOver.StepOver: needs PC below 0xFFFF, where OCD.PC is raw 0, and SP of at least 0x40 at a CALL, because a stack in the I/O registers below has effects that are not modelled.
- StepOver.EmulateCof: SP of at least 0x40 with a return address to push, for the same reason.
- StepOver.StepCof: the same bounds on SP and PC.
- StepOver.ConsumePcSkip: the same bound on PC.
- Stepping over ranges and stop classification (src/debug_bp.c:216-231, 333-352): loops over what is proved here.
- JSON number conversion (`dj_long`), the depth of recursion, and inputs with NUL bytes in `JsonIndex.Member`.
- JsonTokens.Parser.NestedTok: the two readers for arrays and objects are one method that differs by bracket kind.
- Cfi.CfiRunIsTable: leaves out programs with remember/restore state, the signed CFA forms and expression CFAs, which the code simplifies, and moves that wrap 32 bits; the interpreter models them and `CfiForms` states what they do.
- Cfi.ReadUleb: numbers are unbounded; the source shifts a 64-bit value and is undefined from ten bytes on.
- CfiSection.ParseCie: reads outside the section and address sizes over four bytes are one outcome, `Undefined`.
- libelf and libdw: variables, types and line tables.
- Framing.Stream.ReadMessage: read errors other than end of file.
- Merge: the order of items in a document, whitespace, the `sdd` and `stp` groups, attributes and introductions of groups, the schema version, counts, linting and `apply_resolution`. Digits are ASCII in `Ids.ShapeOf`.
- MergeFields.TryFieldLevelMerge: children are grouped by tag, so their order across tags is not modelled; the text between an item's children is white space by the schema and is not compared.
- Path resolution over several steps, predicate syntax and element building (`_resolve`, `_parse_predicate`, `_build_element`): `Rename.SetAttr` takes the element by its position in document order.
- DAP request handlers that format replies, monitor verbs, FSM introspection, command line, fuse printing, device tables, rendering and provenance tools.
