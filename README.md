# luna16 toolchain in Dafny

This project models the core of the luna16 toolchain. It has three parts:

- `assem.py`, the assembler for the 16-register machine;
- `assemble.py`, the older assembler for the 8-register machine;
- `main.c`, the interpreter for the 8-register machine;

together with the token values of the lexer `assemlex.py`. It proves what each one computes.

**The `assem.py` assembler.** Each instruction goes through a table of encoders. The bytes are collected into sections: `#at` sections at fixed offsets and floating sections. The fragments are then laid out in a ROM image:

- phase 1 places the fixed fragments;
- phase 2 places the floating fragments greedily;
- label resolution then patches the jump targets.

The model follows this structure module by module:

- `Operands`: the parser's operand tuples and the `is_reg`/`is_mem` tests. `IsReg` and `IsMem` are the intended tests of the last row under "Findings"; the tests as written, which raise NameError, are `IsRegAsWritten` and `IsMemAsWritten`.
- `Encoder`: register lookup, the ALU source classifier, loads and stores, jumps and the instruction table. It includes decoders for the bytes produced, so each encoder is proved against its inverse. The encoders test their operands with the intended `IsReg` and `IsMem`, so every mnemonic that tests an operand assembles where the script as written raises NameError.
- `Sections`: the module-level globals as a value `State`, and the functions `end_section`, `new_section`, `handle_directive` and the line loop. `Inv` is the invariant every line keeps.
- `Layout`: the `layout` list as a sequence of slots; the scan of phase 1 and the fit of phase 2 on one fragment; the image. `Cell` gives the meaning of a layout: which fragment byte sits at each address.
- `Linker`: the two phases over all fragments, and the relocation pass.
- `Driver`: one whole run on values, `Build`. The theorems say where every fragment ends up and what every byte of a written ROM holds. `Build` runs the corrected phase 1 of the first row under "Findings", `Linker.FixedPass`, which counts a misaligned fixed fragment as an error and goes on. The pass as written is `Linker.FixedPassAsWritten`. `Build` also encodes with the intended operand tests of the last row under "Findings".
- `Session`: the same run as a class `Assembler` whose fields are the script's globals. Each method updates them in place, with loops where the script has loops, and is proved equal to the value-level function. `Assembler.Assemble` is proved to be exactly `Driver.Build`, so it too runs the corrected phase 1.

**The `assemble.py` assembler.**

- `Vs16` splits each `inst_*` function into two parts: operand handling (`Interpret`) and bit packing (`Encode`). `Decode` is proved to be the exact inverse of `Encode`.
- `Vs16Words` gives the two bytes of every mnemonic family.

**The `main.c` interpreter.**

- `Machine.Step` specifies one `do_instr` call on a value `Cpu`. The class `Machine.Interp` holds the C struct, with the RAM as an array; its `DoInstr` is proved to agree with `Step`.
- The lemmas cover three things: which words stop the machine, what the immediate instructions compute, and when the carry bit is set.
- `insert_string` is a loop over the RAM array.

**Assembler and interpreter together.** `Toolchain` states what the interpreter makes of the bytes each `assemble.py` mnemonic produces. The interpreter knows only STOP and the immediate family:

- `stop`, `ret` and `nop` are unknown opcodes to it;
- `push`, `pop` and `jr` on registers `a` and `e` decode as STOP;
- a jump's placeholder `00 00` is STOP;
- the 4-bit immediates all run as a subtraction of their whole second byte.

**The lexer.** `Lexer` gives the value of a NUMBER token from its matched text, for each of the four prefix branches and with its signs, the REG/NAME decision, the text of a STRING token and the line counter.

**Shared helpers.**

- `Common`: Option and Result, ASCII case folding, the big-endian `Word`.
- `Numerals`: Python's `int(s, base)`: the ASCII whitespace tab to carriage return and space stripped at both ends, one sign, the base's `0b`/`0o`/`0x` prefix, digits with single underscores between them. `Show` is its inverse.
- `Bits`: `|`, `&` and `<<` on naturals.

## Model

| member | source | states |
|---|---|---|
| `Common.Word` | assem.py:150 | The two bytes are the big-endian 16-bit word of the value taken modulo 65536, which is what Python's masks give for negative values too. |
| `Numerals.ParseShow` | assemlex.py:49-58 | `int()` in any base 2..16 reads back the digits `Show` writes, with or without a leading minus. |
| `Numerals.SpacedShow` | assemble.py:48-52 | `int()` strips whitespace around the digits. |
| `Numerals.PlusShow` | assemble.py:48-52 | `int()` accepts a `+` sign and the value is unchanged. |
| `Numerals.HexPrefixShow` | assemble.py:48-52 | In base 16, `int()` accepts the digits after `0x`, and after `0x_`. |
| `Numerals.GroupedShow` | assemble.py:48-52 | `int()` accepts an underscore between two digits and reads the digits around it as one number. |
| `Numerals.ParseIntRejects` | assemble.py:48-52 | `int()` refuses text whose last character is neither whitespace nor a digit of the base. |
| `Operands.TypeofCounterexample` | assem.py:31-35 | `is_reg` and `is_mem` as written raise NameError on the register and memory operands that the intended test accepts. |
| `Encoder.LookupReg` | assem.py:13-18 | A successful lookup returns the position 0..15 whose table name is the given name. |
| `Encoder.RegisterTable` | assem.py:43-48 | `get_reg` maps exactly the sixteen names, in any letter case, onto 0..15. An unknown name is the "no such register" AssembleError carrying the lower-cased name. |
| `Encoder.Normalized` | assem.py:125-126 | Raising a negative immediate gives a value in [0, 65536) congruent to it modulo 65536. A non-negative value is kept. |
| `Encoder.RaiseNegative` | assem.py:125-126 | The `while src < 0` loop returns `Normalized(src)`. |
| `Encoder.BigPowerExact` | assem.py:131-133 | The set test with `int(log(src, 2))` recognises exactly the powers 2^4..2^15 and yields their exponent. |
| `Encoder.ArithRoundTrip` | assem.py:111-152 | A binary ALU instruction decodes to its operation and destination. A register source decodes to that register. An integer source decodes to the integer modulo 2^16, whichever short form was chosen. A label source decodes to a trailing placeholder and a relocation. |
| `Encoder.ImmediateRoundTrip` | assem.py:124-140 | Every integer source is accepted, and its field (plus the trailing word when there is one) reads back as the integer modulo 2^16. |
| `Encoder.ImmediateCodeValue` | assem.py:128-140 | Each short form of a non-negative immediate (constant, power of two, 0xFFFF, trailing word) reads back as the value modulo 2^16. |
| `Encoder.ArithReloc` | assem.py:141-150 | An ALU instruction with a label source is four bytes whose last two are the placeholder 0. |
| `Encoder.UnaryLayout` | assem.py:156-174 | A unary ALU instruction is two bytes with a zero source field that decode to its operation and register. A non-register destination is refused, by the binary forms too. |
| `Encoder.LoadStoreRoundTrip` | assem.py:205-262 | A load or store decodes to its opcode and data register. It leaves a relocation exactly when a label names the address. |
| `Encoder.LoadStoreRefusals` | assem.py:205-224 | A load or store whose memory operand is not a memory reference is refused with "source operand of X must be a memory location" (a store says "destination"). When the memory operand is valid but the other is not a register, the message is "destination operand of X must be a register" (a store says "source"). Any other operand count is the call's TypeError. |
| `Encoder.LoadStoreAddressing` | assem.py:232-253 | The address reads back as a register with its displacement modulo 2^16, or as an absolute address modulo 2^16. A label leaves the placeholder 0xFFFF and a relocation. |
| `Encoder.AddressRoundTrip` | assem.py:232-258 | The same, for the address field and trailing word alone: with either value of the register's low bit, the field fits its byte and reads back. |
| `Encoder.LoadStoreReloc` | assem.py:238-258 | A load or store with a label is four bytes whose last two are 0xFF 0xFF. |
| `Encoder.Encode` | assem.py:50-272 | A rule that leaves a relocation yields four bytes whose last two are the same placeholder byte, 0 or 0xFF. |
| `Encoder.EncodedLength` | assem.py:50-272 | Every instruction except `data` is two or four bytes long. |
| `Encoder.JumpLayout` | assem.py:269-288 | Every jump mnemonic yields `40+4c 00 00 00` for its condition `c` and a relocation to its target. |
| `Encoder.OneRegLayout` | assem.py:83-99 | `push`, `pop` and `jr` accept a register operand exactly when its name is in the table, and put its index in the high nibble. Any other operand is refused with the "only a register" message. |
| `Encoder.SwapLayout` | assem.py:101-105 | `swap` succeeds exactly when both registers exist, and packs them into the high and low nibble. |
| `Encoder.EncodeInstruction` | assem.py:424-427 | The instruction-table dispatch; a result with a relocation is four bytes. |
| `Encoder.MnemonicCase` | assem.py:425 | Mnemonics are looked up after `.lower()`: any letter case gives the same result. |
| `Sections.HeaderState` | assem.py:400-410 | After the header the globals hold the single fragment "header" at offset 0: `CA 55`, the title, zero padding, 128 bytes in all. An empty floating section "?" is open. |
| `Sections.EndSectionInv` | assem.py:297-308 | `end_section` keeps the invariant and the room every earlier fragment leaves for relocations. |
| `Sections.NewSectionInv` | assem.py:310-316 | `new_section` keeps the invariant. |
| `Sections.DirectiveInv` | assem.py:318-354 | Every directive, successful or rejected, keeps the invariant. |
| `Sections.EmitInv` | assem.py:428-430 | Appending an instruction keeps the invariant when a relocating instruction is four bytes long. |
| `Sections.LabelInv` | assem.py:432 | Recording a label at the current fragment and position keeps the invariant. |
| `Sections.DispatchInv` | assem.py:416-436 | Every parsed line keeps the invariant, whatever it does. |
| `Sections.RecordsInv` | assem.py:416-436 | The whole line loop keeps the invariant. |
| `Sections.DispatchGrows` | assem.py:416-436 | A line keeps the finished fragments and the recorded relocations. New relocations belong to the open section or a later one. |
| `Sections.RecordsGrows` | assem.py:416-436 | The same, for the whole line loop. |
| `Sections.LabelMarksNext` | assem.py:423-432 | A label names the address of the instruction after it: that instruction's bytes start at the label's position in the label's fragment. |
| `Sections.Finish` | assem.py:438 | Closing the last section leaves every fragment non-empty and every relocation inside a fragment, in order, with every label at most one past the last fragment. |
| `Layout.ScanFixedNoCrash` | assem.py:478-481 | On a well-formed layout the phase-1 scan never reads `layout[i+1]['offset']` from a free run. |
| `Layout.ScanFixedPlaced` | assem.py:464-510 | When the scan places fragment `k` at offset `o`, the range was free. The new layout holds byte `x - o` of `k` at each address `x` of the range and is unchanged elsewhere. |
| `Layout.ScanFixedCell` | assem.py:464-510 | The same, address by address, with the range free before the placement. |
| `Layout.SplitCell` | assem.py:486-494 | Splitting a free run around the fragment puts the fragment's bytes in the range and leaves every other address as before. |
| `Layout.ScanFixedOverlap` | assem.py:478-502 | An overlap report names a fragment that really occupies an address of the requested range. |
| `Layout.FixedPlacedIff` | assem.py:464-510 | On a well-formed layout the scan places the fragment exactly when its range is free, and otherwise reports an overlap. |
| `Layout.ScanFixedWellformed` | assem.py:486-510 | Placing keeps the layout well-formed: no empty or adjacent free runs, and no trailing free run. |
| `Layout.FitPlaced` | assem.py:525-546 | Phase 2 puts the fragment at a free range no further than the end. The new layout holds its bytes there and is unchanged elsewhere. |
| `Layout.FitCell` | assem.py:525-546 | The same, address by address, with the range free before. |
| `Layout.FitFirst` | assem.py:526-542 | The fit is the first one: every earlier start collides with a fragment within the size. |
| `Layout.FitWellformed` | assem.py:532-546 | Phase 2 keeps the layout well-formed. |
| `Layout.ScanFixedConsistent` | assem.py:464-510 | Placing a fragment of the right length keeps the layout's sizes consistent with the fragments' data. |
| `Layout.FitConsistent` | assem.py:525-546 | The same, for phase 2. |
| `Layout.ImageAt` | assem.py:592-597 | The image is as long as the layout. Each byte is zero in a free run, or the fragment's byte that `Cell` names. |
| `Layout.ImageByteAt` | assem.py:592-597 | The same, for one address. |
| `Layout.ImageHeld` | assem.py:592-597 | Where the layout holds fragment `k` at offset `o`, the image has byte `d` of `k`'s data at `o + d`. |
| `Linker.FixedPassSound` | assem.py:453-510 | On well-formed input, phase 1 never raises and keeps the layout well-formed. It reports no error exactly when every fragment is aligned and fits beside the earlier ones. Then every fixed fragment is held at its offset, and what was held before stays. |
| `Linker.FixedPassPlaced` | assem.py:464-510 | The same, from a first fragment the scan places. |
| `Linker.FixedPassConsistent` | assem.py:453-510 | Phase 1 keeps the layout consistent with the fragments' data. |
| `Linker.FixedPassNoCrash` | assem.py:478-481 | Phase 1 from a well-formed layout never raises the TypeError. |
| `Linker.FixedPassSane` | assem.py:453-510 | A phase 1 without errors saw pairwise disjoint, aligned fragments. |
| `Linker.MisalignedCounterexample` | assem.py:458-462 | As written, an odd offset ends phase 1 with no error counted and the next fixed fragment unplaced. The corrected pass counts it. |
| `Linker.FloatPassSound` | assem.py:521-546 | Phase 2 keeps the layout well-formed and keeps what phase 1 placed. It holds every floating fragment at the offset it records. |
| `Linker.FloatPassConsistent` | assem.py:521-546 | Phase 2 keeps the layout consistent with the fragments' data. |
| `Linker.ResolveLengths` | assem.py:584-586 | Patching never changes the number or length of the fragments. |
| `Linker.ResolveKeepsAt` | assem.py:557-586 | A byte no relocation covers is unchanged by resolution. |
| `Linker.ResolveWritesAt` | assem.py:584-586 | Each relocation whose label exists ends with the big-endian label address (fragment offset plus position) in its two bytes. |
| `Linker.ResolveMissing` | assem.py:575-582 | The error count is the number of relocations whose label is missing; zero exactly when every label exists. |
| `Linker.ResolvePatched` | assem.py:557-589 | When no label is missing, every relocation's two bytes hold its label's address. |
| `Driver.FixedPieces` | assem.py:453 | The pieces are exactly the fixed fragments, in order, with their offsets and lengths. |
| `Driver.FloatingItems` | assem.py:522 | The items are exactly the floating fragments, in order, with their lengths. |
| `Driver.FixedPiecesAll` | assem.py:453 | Every fixed fragment is among the pieces of phase 1. |
| `Driver.FloatingItemsAll` | assem.py:522 | Every floating fragment is among the items of phase 2. |
| `Driver.SetOffsetsAt` | assem.py:541-545 | A floating fragment gets the offset phase 2 found for it, and every other fragment keeps its own. |
| `Driver.HeaderFirst` | assem.py:448 | The header fragment turns the initial layout `[1]` into the header alone. |
| `Driver.FitsPass` | assem.py:448-519 | Fixed fragments that are aligned, past the header and pairwise disjoint pass phase 1. |
| `Driver.PassFits` | assem.py:448-519 | Fixed fragments that pass the corrected phase 1 are aligned, past the header and pairwise disjoint. |
| `Driver.ArrangeFixed` | assem.py:448-519 | The corrected phase 1 reports nothing exactly when the fixed fragments fit. |
| `Driver.ArrangeNoCrash` | assem.py:478-481 | Phase 1 never raises on the fragments a run produces. |
| `Driver.PhaseOneSound` | assem.py:448-515 | When the fixed fragments fit, phase 1 leaves a well-formed layout holding each at its offset. |
| `Driver.ArrangeShape` | assem.py:448-546 | When they fit, both phases leave a well-formed layout consistent with the fragments, and every fragment keeps its bytes. |
| `Driver.ArrangeAt` | assem.py:448-546 | Every fragment ends at a non-negative offset, its own if it asked for one, and the layout holds its bytes there. |
| `Driver.ArrangeFloating` | assem.py:521-546 | A floating fragment is held where phase 2 put it. |
| `Driver.ArrangeFixedAt` | assem.py:453-510 | A fixed fragment stays at its own offset. |
| `Driver.LinkWritten` | assem.py:440-599 | A written image means phase 1, phase 2 and resolution all passed, and the image is that of the final layout over the resolved fragments. |
| `Driver.LinkPlaced` | assem.py:440-599 | In a written ROM every fragment sits at a non-negative offset, its own if it asked for one. |
| `Driver.ImageHolds` | assem.py:592-597 | Byte `d` of resolved fragment `k` is the image byte at the fragment's offset plus `d`. |
| `Driver.ResolutionKeeps` | assem.py:557-589 | A byte no relocation covers comes out of resolution as assembled. |
| `Driver.ResolutionPatches` | assem.py:584-586 | When every label is defined, the two bytes of each relocation hold the big-endian final address of its label. |
| `Driver.LinkKeeps` | assem.py:592-599 | In a written ROM an uncovered byte is the assembled byte, at the fragment's final offset. |
| `Driver.LinkPatched` | assem.py:584-597 | In a written ROM the two bytes of each relocation hold its label's final address. |
| `Driver.LinkHeader` | assem.py:592-599 | With the header first and no relocation in it, the image starts with the header's bytes. |
| `Driver.LoopLoaded` | assem.py:399-436 | After the header and the line loop, the invariant holds, the header is the first fragment, and no relocation lies inside it. |
| `Driver.ClosedLinkable` | assem.py:438 | Closing the last section gives the linker what it needs: the header first at offset 0, no empty fragment, and every relocation inside a later fragment with no two sharing a byte. |
| `Driver.BuildConcludes` | assem.py:386-601 | A run with a title of at most 30 bytes is the line loop followed by the linker on what the loop left. |
| `Driver.BuildTitle` | assem.py:391-397 | The run stops with "Title too long" exactly when the title is longer than 30. |
| `Driver.ConcludeWritten` | assem.py:438-599 | A written ROM means no crash and no rejected line, and it is the linker's image of the closed fragments. |
| `Driver.ConcludeHeader` | assem.py:400-410 | A written ROM starts with the 128-byte header: `CA 55`, the title and zero padding. |
| `Driver.ConcludeImage` | assem.py:592-599 | In a written ROM, byte `d` of fragment `k` sits at the fragment's final offset. That offset is its own if it was fixed, and the byte is the assembled one when no relocation covers it. |
| `Session.Assembler.constructor` | assem.py:290-295 | The globals as the script initialises them. |
| `Session.Assembler.EndSection` | assem.py:297-308 | The fields become `Sections.EndSection` of the old ones; the layout is untouched. |
| `Session.Assembler.NewSection` | assem.py:310-316 | The fields become `Sections.NewSection` of the old ones. |
| `Session.Assembler.WriteHeader` | assem.py:400-410 | The fields become the header state of `Sections.Header`. |
| `Session.Assembler.HandleDirective` | assem.py:318-354 | The fields and the fault returned are `Sections.Directive` of the old fields. |
| `Session.Assembler.AssembleLine` | assem.py:419-436 | The fields and the fault returned are `Sections.Dispatch` of the old fields. |
| `Session.Assembler.AddInstruction` | assem.py:428-430 | The fields become `Sections.Emit` of the old ones. |
| `Session.Assembler.AssembleAll` | assem.py:416-436 | The loop leaves the fields, the error count and the crash reason of `Sections.Records`. |
| `Session.Assembler.FindRun` | assem.py:465-469 | The walk stops at the first slot that reaches past the offset, with the byte index of its start. The scan from there is the scan of the whole layout. |
| `Session.Assembler.PlaceFixed` | assem.py:464-510 | The layout becomes the placed layout of `Layout.ScanFixed`, or stays when the scan reports a problem. |
| `Session.Assembler.AppendFixed` | assem.py:503-510 | Past the last slot, a free gap up to the offset and the fragment are appended. |
| `Session.Assembler.SplitFree` | assem.py:486-494 | The free run is replaced by the free bytes before, the fragment and the free bytes after. |
| `Session.Assembler.PlaceOne` | assem.py:453-510 | One round of phase 1 agrees with the pass on the remaining pieces. |
| `Session.Assembler.PlaceFixedFragments` | assem.py:448-515 | The loop's layout, error count and crash flag are `Linker.FixedPass` of the fixed pieces, the corrected phase 1 that counts a misaligned fragment and goes on. |
| `Session.Assembler.FindSpace` | assem.py:525-533 | The walk stops at the first free run that is long enough, with its byte offset. The fit from there is the fit of the whole layout. |
| `Session.Assembler.PlaceFloating` | assem.py:522-546 | The layout becomes that of `Layout.Fit`, and the fragment's offset is the one found. |
| `Session.Assembler.PlaceFloatingFragments` | assem.py:521-551 | The layout and the offsets are `Linker.FloatPass` of the floating items. |
| `Session.Assembler.ResolveOne` | assem.py:557-586 | One relocation agrees with `Linker.Resolve` on the remaining relocations. |
| `Session.Assembler.PatchFragment` | assem.py:585-586 | The slice assignment writes the word into one fragment's data. |
| `Session.Assembler.ResolveLabels` | assem.py:555-589 | The loop's missing count, crash and patched data are those of `Linker.Resolve`. |
| `Session.Assembler.EmitImage` | assem.py:591-597 | The bytes written are `Layout.Image` of the layout. |
| `Session.Assembler.Link` | assem.py:440-599 | Phases 1 and 2, resolution and the image give exactly `Driver.Link`. |
| `Session.Assembler.Assemble` | assem.py:386-601 | A whole run gives exactly `Driver.Build`, the run with the corrected phase 1. |
| `Vs16.DecodeEncode` | assemble.py:54-432 | Every well-formed instruction reads back from its two bytes. |
| `Vs16.EncodeDecode` | assemble.py:54-432 | Every word that reads back is the encoding of what it reads as, so distinct instructions never share a word. |
| `Vs16.FieldPacking` | assemble.py:310-396 | Or-ing the shifted register, the width selector and the offset is their sum, and the width selectors are `8 * k`. |
| `Vs16.AluLayout` | assemble.py:81-182 | An ALU instruction is `[0x08 + r1, 32 * r2 + k]`. |
| `Vs16.ImmediateLayout` | assemble.py:184-254 | An 8-bit immediate is `[base + r, v]`. |
| `Vs16.BitImmediateLayout` | assemble.py:256-308 | A 4-bit immediate is `[0x78 + r, sel + n]`. |
| `Vs16.LoadLayout` | assemble.py:310-352 | A load is `[0x10 + dest, 32 * base + 8 * k + offset]`. |
| `Vs16.StoreLayout` | assemble.py:354-396 | A store is `[0x18 + base, 32 * src + 8 * k + offset]`. |
| `Vs16.MoveLayout` | assemble.py:398-432 | A move is `[0x20 + dest, 32 * src + k]`. |
| `Vs16.LowByte` | assemble.py:187-191 | A non-negative value keeps its low byte. A negative one is left alone and `bytes` rejects it. |
| `Vs16.LowNibble` | assemble.py:259-263 | A non-negative value keeps its low nibble. A negative one makes `bytes` fail. |
| `Vs16.MaskByte` | assemble.py:190 | `v & 0xff` is `v % 256`. |
| `Vs16.MaskNibble` | assemble.py:262 | `v & 0xf` is `v % 16`. |
| `Vs16.OffsetField` | assemble.py:314-318 | The offset field is below 8. |
| `Vs16.OffsetRoundTrip` | assemble.py:314-318 | Offsets -3..4 survive the field. Any other offset becomes 0. |
| `Vs16.OffsetFieldAsWritten` | assemble.py:314-316 | As written, an out-of-range offset raises TypeError at the `%d` message; otherwise the result is the corrected field. |
| `Vs16.OffsetCounterexample` | assemble.py:315 | An offset of 5 from `get_indirect` stops the assembler instead of becoming 0. As written, `get_indirect` never returns such an offset, so this failure is latent. |
| `Vs16.Lookup` | assemble.py:25-29 | The entry found for a name is one whose family list has that name at that position. |
| `Vs16.Interpret` | assemble.py:497 | A successful call found the name and the right operand count. Its instruction is well-formed and disassembles to the name, and only jumps record a jump. |
| `Vs16.InterpretImmediate` | assemble.py:184-254 | `li` and the other 8-bit immediates succeed exactly on an operand that `int()` reads as a non-negative number, and keep its low byte. |
| `Vs16.InterpretBitImmediate` | assemble.py:256-308 | `sli` and the others succeed exactly on an operand that `int()` reads as a non-negative number, and keep its low nibble. |
| `Vs16Words.Words` | assemble.py:497 | A line assembles exactly when the entry accepts it, into two bytes that decode to the entry's instruction. |
| `Vs16Words.RegisterTable` | assemble.py:31-36 | `reg_table` numbers the eight names 0..7 in order. Any other name gives 0. |
| `Vs16Words.ParseNumShow` | assemble.py:48-52 | `parse_num` reads back `$`-hexadecimal and signed decimal. |
| `Vs16Words.ParseNumForms` | assemble.py:48-52 | `parse_num` passes the operand to `int()` unchanged: `1_0` is 10, `$0x10` is 16 and `$ 5` is 5, while `0x10`, `1__0`, `- 5` and `$` followed by the separator 0x1C and `5` are ValueErrors. |
| `Vs16Words.LookupNames` | assemble.py:25-29 | Every name of every family is registered under that family and position, so the families share no name. |
| `Vs16Words.FixedWords` | assemble.py:54-64 | `stop`, `ret`, `nop` are `00 ff`, `00 aa`, `00 01`. |
| `Vs16Words.StackWords` | assemble.py:66-79 | `push`, `pop`, `jr` are the code, then the register in the top three bits. |
| `Vs16Words.AluWords` | assemble.py:81-182 | A two-register ALU operation is `[0x08 + r1, 32 * r2 + k]`. |
| `Vs16Words.AluUnaryWords` | assemble.py:117-140 | `not`, `neg`, `inc`, `dec` are `[0x08 + r1, k]`. |
| `Vs16Words.ImmediateWords` | assemble.py:184-254 | An 8-bit immediate assembles exactly when `parse_num` gives a non-negative number, to the family base with the register and the number's low byte. |
| `Vs16Words.BitImmediateWords` | assemble.py:256-308 | A 4-bit immediate assembles exactly when `parse_num` gives a non-negative number, to `0x78 + r` and the selector plus the low nibble. |
| `Vs16Words.LoadWords` | assemble.py:310-352 | A load is `[0x10 + dest, 32 * base + 8 * k + field]`, with the offset field of the memory operand. |
| `Vs16Words.StoreWords` | assemble.py:354-396 | A store is `[0x18 + base, 32 * src + 8 * k + field]`, with the memory operand first. |
| `Vs16Words.MoveWords` | assemble.py:398-432 | A move is `[0x20 + dest, 32 * src + k]`. |
| `Vs16Words.JumpWords` | assemble.py:434-462 | A jump is `00 00`, and it records its position, kind and target. |
| `Vs16Words.Unassembled` | assemble.py:497 | An unknown name (KeyError) or a wrong operand count (TypeError) stops the assembler. |
| `Machine.RegOf` | main.c:42-65 | `get_reg` finds a register exactly for ids 0..7. |
| `Machine.RegOfIdOf` | main.c:42-65 | `get_reg` is a bijection between 0..7 and the eight registers. |
| `Machine.ReadWrite` | main.c:42-65 | A write through the address `get_reg` returns changes that register and no other. |
| `Machine.LowBit` | main.c:117-135 | `f &= ~1` and or-ing 1 into `f` clear and set bit 0 and keep the other bits. |
| `Machine.FetchBigEndian` | main.c:91 | The fetched word is big-endian, with both indices inside the 131072-byte RAM. |
| `Machine.StopBytes` | main.c:96-109 | A word is STOP exactly when its first byte is below 8 and its second is 00 or 80. |
| `Machine.ImmediateBytes` | main.c:110-122 | A word is in the immediate family exactly when its first byte is 0x40..0x7f. Bits 3-4 then select the operation, bits 0-2 the register, and the second byte is the value. |
| `Machine.OpcodeAlias` | main.c:110-120 | Instruction types 12..15 behave as 8..11. |
| `Machine.StepProgress` | main.c:158-164 | A known instruction moves `p` on by one, and only STOP clears RUN. An unknown word clears RUN and changes nothing else. |
| `Machine.ExecuteKeeps` | main.c:117-155 | An immediate touches only its register and `f`. |
| `Machine.ImmediateEffect` | main.c:117-164 | On a register other than `f` and `p`, the result is the exact value modulo 65536. The carry bit says whether the exact value left 16 bits, and `p` moves on. |
| `Machine.CarriesOverflow` | main.c:134-152 | Each carry condition of the C code is the test that the exact result leaves 16 bits. |
| `Machine.ExecuteCarry` | main.c:117-155 | With the carry clear, an immediate on a register other than `f` adds the overflow bit to `f`. |
| `Machine.ImmediateOnCounter` | main.c:125-163 | An immediate on `p` writes `p`, and the increment then applies to the result. |
| `Machine.ImmediateOnFlags` | main.c:117-155 | An immediate on `f` reads `f` with the carry just written, and the result overwrites it. |
| `Machine.CarryFeedsFlagsResult` | main.c:131-138 | `addi f, 2` on `f = fffe` leaves 1, not the 0 of plain 16-bit addition. |
| `Machine.Interp.constructor` | main.c:14-30 | A machine with the given registers and RAM contents. |
| `Machine.Interp.ReadReg` | main.c:42-65 | Reading through `get_reg` gives the register's value. |
| `Machine.Interp.WriteReg` | main.c:42-65 | Writing through `get_reg` changes the state as `Write` says, and leaves the RAM untouched. |
| `Machine.Interp.ExecuteImmediate` | main.c:117-155 | The C immediate branch gives `Execute` of the old state. |
| `Machine.Interp.DoInstr` | main.c:89-165 | `do_instr` gives `Step` of the old state and keeps the RAM. |
| `Machine.CStrLen` | main.c:36 | The length is the index of the first NUL. |
| `Machine.InsertString` | main.c:34-40 | The bytes before the NUL land at `offset * 2` onward, and no other RAM byte changes. |
| `Toolchain.SameRegisters` | assemble.py:17 | Both programs number the registers a, b, c, d, e, s, p, f as 0..7. |
| `Toolchain.ImmediateDecodes` | assemble.py:184-254 | An assembled 8-bit immediate is decoded by `do_instr` as the operation its first byte selects, on the same register with the low byte. `andi`, `ori` and `xori` alias load, add and multiply, and `lui` is an unknown opcode. |
| `Toolchain.BitImmediateDecodes` | assemble.py:256-308 | An assembled 4-bit immediate runs as a subtraction of its whole second byte. |
| `Toolchain.FixedDecodes` | assemble.py:54-64 | `stop`, `ret`, `nop` are unknown opcodes to the interpreter. |
| `Toolchain.StackDecodes` | assemble.py:66-79 | `push`, `pop`, `jr` on `a` or `e` are STOP; on any other register they are unknown. |
| `Toolchain.JumpDecodes` | assemble.py:434-462 | A jump's placeholder is STOP. |
| `Toolchain.AluDecodes` | assemble.py:81-182 | An ALU instruction is an unknown opcode. |
| `Toolchain.MoveDecodes` | assemble.py:398-432 | A move is an unknown opcode. |
| `Toolchain.ImmediateRuns` | main.c:110-164 | An assembled `addi`-family line, executed on a general register, leaves the exact result modulo 65536 and the overflow carry, and moves on. |
| `Lexer.Signed` | assemlex.py:43-60 | A leading minus negates what the rest reads as. |
| `Lexer.NumberShow` | assemlex.py:40-62 | Every number reads back from its text in each radix, with its prefix (hexadecimal with `$` too), and with or without a minus. |
| `Lexer.DoubleNegative` | assemlex.py:41-60 | `$-n` reads as `-n` and `-$-n` as `n`. |
| `Lexer.NumberRejects` | assemlex.py:48-58 | Matched text whose last character is neither whitespace nor a digit is a ValueError. |
| `Lexer.ClassifyRegisters` | assemlex.py:32-38 | With the corrected set, a NAME is a REG exactly when it names one of the sixteen registers `reg_table` numbers (a..n, sp, pc), in any case. |
| `Lexer.ClassifyIgnoresCase` | assemlex.py:34 | Classification ignores letter case. |
| `Lexer.MissingComma` | assemlex.py:27 | As written, `sp` and `pc` lex as NAME and `sppc` as REG. The literal also has no `n`, so `n` lexes as NAME although `reg_table` numbers it 13. |
| `Lexer.StringQuotes` | assemlex.py:22-25 | The quotes come off and everything between them stays. |
| `Lexer.LexerState.Eol` | assemlex.py:17-20 | Each newline moves the line counter on by one. |

## Left out

- `Encoder.EncodeInstruction`: the encoders use the intended `is_reg`/`is_mem` of the last row under "Findings". As written, assem.py:31-35 calls the undefined `typeof`. So every `push`, `pop` and `jr` (assem.py:85-97), every ALU and unary form (assem.py:112, 121, 161) and every load and store (assem.py:215-232) raises NameError. That error escapes both `except KeyError` (assem.py:425) and `except AssembleError` (assem.py:433), and the script dies before writing anything. On any program with such an instruction, the model's `Driver.Build` and `Session.Assembler.Assemble` assemble the instruction and can write a ROM.
- `Driver.Build`: the whole run uses the corrected phase 1 of the first row under "Findings", `Linker.FixedPass`. On a misaligned `#at` offset it ends in `Misplaced`, exit status 1. As written, assem.py:458-462 leaves phase 1 without counting the error, and the run can still write a ROM and exit 0. That pass is `Linker.FixedPassAsWritten`, which `Linker.MisalignedCounterexample` exhibits. The same holds for `Session.Assembler.Assemble` and `Session.Assembler.PlaceFixedFragments`.
- The file I/O of all three programs is a parameter. Reading the source and the parser's output are modelled as a list of records. `#include_bin` takes the file's bytes from a map, and a missing file is the error `open` raises. The written ROM is a value.
- The printing is not modelled: progress messages, `overlap_error` reports, the verbose dumps and the "Error at … line" messages. A rejected line is only counted.
- Process exits are modelled as outcomes: `sys.exit(1)` after errors and `sys.exit(0)` for a long title.
- The usage message and output-file name of assem.py:372-389 are left out. The title is an optional argument.
- The title is modelled as its encoded bytes. For non-ASCII titles, `len(romtitle)` in characters and the padding at assem.py:408 would differ from the byte count.
- assemparse.py and imgcompile.py are not part of this model. The parser's output is taken as given records and operands.
- `Vs16Words.LoadWords`: `get_indirect` (assemble.py:38-46) is a parameter, `indirect`, and the loads and stores are stated for any offset and base register it returns. As written, it calls `.trim()`, which Python strings lack, on every operand that has the `[reg]` shape. The same holds for `Vs16Words.StoreWords`.
- The top level of assemble.py (464-517) is not modelled: the title prompt, line splitting, label alignment with `nop`, and a linking loop that does nothing with the jumps. The model covers its instruction table.
- `main` in main.c (67-87) is left out: the SFML window, the uninitialised registers, the RAM and the `printf` traces. `Interp` is built from given registers and RAM.
- Of the lexer, ply's regular expressions, their matching order, `t_error`, `t_COMMENT` and `t_ignore` are left out. The token functions are modelled as functions of the matched text.
- Of the lexer's NUMBER pattern (assemlex.py:41), the order of its branches is left out. `-?[0-9]+` is tried before the `0b` and `0q` branches, so on `0b101` the pattern stops after `0` and the rest becomes a NAME. `Lexer.NumberValue` gives the value of each branch's text as `t_NUMBER` would convert it, including texts the pattern never matches whole.
- `Numerals.ParseInt`: Python's `int()` also strips non-ASCII whitespace and reads non-ASCII decimal digits. The model covers ASCII text only.
- `Lexer.LexerState.constructor`: ply's lexer object holds much more state than the line counter. The model keeps only `lineno`, which `t_EOL` is the one function to change.
- `Encoder.BigPowerExact`: the floating-point `log` is replaced by the exact exponent. It agrees on the twelve values the set test admits.
- `Machine.ImmediateEffect`: the immediates on `f` and `p` are stated separately, by `Machine.ImmediateOnFlags` and `Machine.ImmediateOnCounter`.

## Findings

| source | as written | input that shows it | evidently intended | confidence | as-written member | corrected member |
|---|---|---|---|---|---|---|
| assem.py:458-462 | A misaligned `#at` offset prints an error and `break`s out of phase 1 without counting it. Later fixed fragments are never placed, and the run can still write a ROM. | Fixed fragments at 129 and 200 after the header: phase 1 ends with 0 errors and the fragment at 200 unplaced. | Count the misaligned fragment as an error and go on, so that the run stops before writing. | not executed | `Linker.MisalignedCounterexample` | `Linker.FixedPassSound` |
| assemlex.py:27 | `'sp' 'pc'` with no comma is the one string `sppc`, so `sp` and `pc` lex as NAME and `sppc` as REG. The literal also stops at `m`, while `reg_table` (assem.py:13-18) numbers `n` as 13, so `n` lexes as NAME. | `sp`, `pc`, `SpPc`, `n` | The sixteen register names of `reg_table`: a..n, `sp` and `pc`. | not executed | `Lexer.MissingComma` | `Lexer.ClassifyRegisters` |
| assemble.py:315 | The message for an offset out of range formats the operand string with `%d`, which raises TypeError, so the replacement by 0 is never reached. The TypeError is latent. As written, `get_indirect` (assemble.py:38-46) calls `.trim()` and so raises AttributeError on every `[reg]` operand, and it gives offset 0 for any other. No out-of-range offset reaches line 315. | None as written. Once `get_indirect` returns the offset it parses, `lw a, 5[b]` gives offset 5 and the TypeError. | Print the message and store offset 0. | not executed | `Vs16.OffsetCounterexample` | `Vs16.OffsetRoundTrip` |
| assem.py:31-35 | `is_reg` and `is_mem` call `typeof`, which Python does not define. Every instruction that tests its operands raises NameError. | `push a`: operand `('reg', 'a')` | `type(value) == tuple` and the tag test. | not executed | `Operands.TypeofCounterexample` | `Encoder.OneRegLayout` |
