# sdb, modelled and proved in Dafny

`sdb` is a debugger for ARM64 macOS. This project models its interpreters, encodings, layout arithmetic and state
machines, and proves what they promise: round trips, fast forms that refine simple ones, and what every run keeps.

| file | component |
|---|---|
| `Results.dfy`, `Bits.dfy`, `Search.dfy` | results and errors; machine integers and bitwise operators; predecessor search |
| `Leb128.dfy`, `Cursors.dfy` | LEB128 numbers, the byte cursor, skipping attribute forms |
| `DieTree.dfy` | reading debugging information entries and iterating over siblings |
| `LineProgram.dfy`, `LineTables.dfy` | the line-number program, its iterator and the lookup by address |
| `Operators.dfy`, `Expressions.dfy`, `Locations.dfy` | the operators and their laws, the DWARF expression stack machine, compiled trees, composite locations |
| `CallFrames.dfy`, `CallFrameCode.dfy`, `RuleReplacement.dfy` | call frame instructions, their interpreter, their encoding, and the standard's interpreter |
| `CompactUnwind.dfy`, `CompactUnwindBytes.dfy` | the compact unwind table, its lookup and its layout |
| `Memory.dfy`, `Traps.dfy`, `DebugRegisters.dfy`, `Stoppoints.dfy`, `Execution.dfy` | target memory, trap words, debug registers, breakpoint sites and watchpoints, stepping and calling |
| `HomogeneousAggregates.dfy`, `Aapcs.dfy`, `Parameters.dfy` | homogeneous aggregates, argument placement and return values, the called function's side |
| `Symbols.dfy` | the symbol index |
| `Bitfields.dfy` | copying bits and reading bit-field members |

How things are modelled:

- Bytes are integers below 256, machine words integers below their power of two; wrap-around and truncation are written
  out. Bitwise operators are recursive functions on naturals, and the masks of the code are proved to be arithmetic.
- Code that updates state is a class or a method with loops, proved against functions of values; the theorems are about
  those functions, or are the methods' own postconditions.
- The kernel (Mach and ptrace calls) is a set of methods whose answers are arbitrary within a stated contract. A call
  that cannot be carried out fails, and a fallible kernel may refuse any other call as well; so every contract says of a
  failure that the kernel is fallible, or what was wrong. An operation that fails before it has changed anything
  (`KernelError`), or that puts its changes back as a failed arming does, keeps the whole invariant. One that fails part
  way (`HalfDone`: a trap word half written, a pair not cleared in every thread, a step cut short) sets the ghost flag
  `faulted`, and nothing more is promised. A user's write that fails part way has stored a prefix of its data, and is
  judged by that prefix like any other.
- A running program is arbitrary too, but leaves trap words alone (`Execution.LetRun`).
- A process is attached to with no pair armed and the single-step bit clear.
- Every time the process is let run is recorded (`ThreadTable.runs`): the memory and threads it started with and the
  registers it stopped with. What steps and calls promise is stated of these records.
- What an interpreter computes is stated without its own step function: operators by laws that name no operator of the
  model, programs by what their text says, arguments by what a reader finds who knows the types only.
- The encoders (LEB128, entry forests, line programs, expressions, call frame instructions) are written from the DWARF 4
  standard, those of the compact unwind table from its header file; the decoders follow the code.
- `Error.Undefined` stands where C++ leaves the behaviour undefined (a zero divisor, an over-wide shift, the pop of an
  empty stack); the model stops there.

Where the code does not do what its documents, the standard or a reader would expect, the model follows the code and
proves when the two agree:

- Call frame rules are added with `emplace`, so a register keeps its first rule; `KeepFirstAgreesIff` says, for every
  program, exactly when that is what section 6.4.2 of DWARF 4 asks for, and `SecondRuleIgnored` is an epilogue where it
  is not. Restoring a register without an initial rule fails (`UnknownRestoreFails`).
- `DW_OP_bra` consumes its operand only when it branches, `DW_OP_implicit_value` does not skip its bytes, and a backward
  jump always fails, since the offset is added as an unsigned size: `FollowsStandardIff` says exactly when each follows
  the standard, `BackwardJumpsFail`, `UntakenBranchStays` and `ImplicitValueStays` are inputs where it does not.
- Stepping off a hardware breakpoint arms it in the lowest free pair, which need not be its old one
  (`StepUnchangedIff`, `CallUnchangedIff`; `StepMovesSite`, `SecondMovesDown` and `BorrowedPairKeepsAddress` are cases).
- A call whose return site cannot be enabled, for instance at an address that is not a multiple of four, is refused
  after the site was created, and the site stays behind, disabled; a call that does not end stopped leaves its return
  site enabled (`InferiorCall`).
- A failed `clear_hardware_stoppoint` has changed the process's registers already, so the stoppoint that is still
  enabled no longer has its pair (`DisarmSite`).
- A write over a trap word destroys the trap without the site noticing: no memory underneath explains what is then read
  (`Write`, `WriteKeepsOverlayIff`).
- A homogeneous aggregate with bytes between its elements reaches the called function with those bytes zero
  (`GatheredIff`).
- An array without elements is classified as a homogeneous aggregate, and a struct that starts with an empty struct is
  not (`EmptyAggregatesDiffer`); `Sound` is the exact condition. Bit-fields that have only `DW_AT_data_bit_offset` are
  not looked at; in the model they are `Skipped` children.
- The forms `DW_FORM_ref8` and `DW_FORM_ref_sig8` are defined but not skipped, so an entry with such an attribute cannot
  be read; `SkipPayload` and the tree theorems say exactly which values and trees can, `ReferenceRefused` is an entry
  that cannot.
- The operand of `DW_LNS_set_isa` and the bodies of call frame expressions are not skipped (`IsaOperandStays`,
  `ExpressionFollowsIff`).
- An argument that does not fit the registers left does not close them for later ones, as section 6.8.2 of AAPCS64 asks:
  `PlacesAskedIff` says exactly when the places agree, `WordOvertakes` is a call where they do not.
- A pointer to a copy that goes on the stack is aligned as what it points to, not as a pointer, so it need not lie where
  the called function looks for it: `StackedPointerOnEight` says when it lies on a multiple of eight, `PointerAtOffsetOne`
  is a call where it does not.
- A packed bit-field may reach past the bytes of its type that are read for it; the model stops there
  (`ReadMember`, `PackedInBoundsIff`).
- The bit offset of a member is kept in eight bits (`OffsetFromTop`, `WideUnitMisread`).
- A symbol that shares its start with the next one is sized up to the end of its section, not to the next distinct
  start; lookups do not notice (`EndDecides`).
- The compact unwind lookup answers nothing for an offset whose page is empty, although functions start below it
  (`Lookup`, `EmptyPageAnswersNothing`).

## Model

| member | source | states |
|---|---|---|
| `Leb128.UlebRoundTrip` | src/dwarf.cpp:67-82 | every unsigned 64-bit value, encoded as section 7.6 of DWARF 4 says and embedded anywhere, decodes to itself, consumes exactly its encoding, and takes at most ten bytes |
| `Leb128.SlebRoundTrip` | src/dwarf.cpp:84-104 | the same for signed values, through the truncated shift at 63 and the sign extension that is skipped at 70 |
| `Leb128.SizeShape` | src/dwarf.cpp:67-104 | a successful decode within a budget reads no more bytes than that, all but the last of them continuation bytes |
| `Leb128.UlebEmbedded` | src/dwarf.cpp:67-82 | a number decodes the same wherever its bytes stand |
| `Cursors.Cursor.LebLoop` | src/dwarf.cpp:67-104 | the shift-and-or loop computes the magnitude of the bytes modulo 2^64, stops after the closing byte, and fails at the end of the data or before an eleventh byte |
| `Cursors.Cursor.Uleb128` | src/dwarf.cpp:67-82 | the cursor's unsigned read is the mathematical reading, and moves past it |
| `Cursors.Cursor.Sleb128` | src/dwarf.cpp:84-104 | the cursor's signed read is the mathematical reading, and moves past it |
| `Cursors.SignStep` | src/dwarf.cpp:97-101 | or-ing ones above the last digit turns the magnitude into the signed value, and none are needed from 64 bits on |
| `Cursors.Cursor.FixedInt` | src/dwarf.cpp:29-37 | fixed-width reads give the little-endian integer or fail without moving past the end |
| `Cursors.Cursor.SkipForm` | src/dwarf.cpp:106-163 | skipping an attribute form lands where its payload ends, indirect forms followed, unknown forms refused |
| `Cursors.SkipPayload` | src/dwarf.cpp:106-163 | for every form of section 7.5.4 of DWARF 4 and every well-formed value of it, skipping lands exactly behind the value, unless the form reached through indirections is `DW_FORM_ref8` or `DW_FORM_ref_sig8`: then it fails |
| `Cursors.OtherFormsRefused` | src/dwarf.cpp:161 | a form that section 7.5.4 does not have is refused |
| `Cursors.LeRoundTrip` | include/libsdb/bit.hpp:10-16 | an integer survives little-endian encoding and decoding |
| `DieTree.AdvanceIterator` | src/dwarf.cpp:668-685 | the iterator step, with its nested loop over the children, is `Advance` |
| `DieTree.CollectChildren` | src/dwarf.cpp:650-685 | a range-for over the children visits what `Children` lists |
| `DieTree.AdvancePastSubtree` | src/dwarf.cpp:668-685 | for every tree serialised in preorder, stepping from its root lands just behind its whole subtree and the closing null, at any nesting depth, exactly when all entries below the root have values of known forms; else it fails as reading such an entry does |
| `DieTree.SiblingsExact` | src/dwarf.cpp:650-685 | iterating from the first entry of a serialised forest visits exactly the forest's roots, in order, exactly when all entries of the forest can be read; else it fails |
| `DieTree.ChildrenExact` | src/dwarf.cpp:257-282 | parsing at a serialised tree gives its entry, and its `children()` are exactly its direct children in order, at their positions, exactly when they and all below them can be read |
| `DieTree.WalkVisitsPreorder` | src/dwarf.cpp:650-685 | the recursive walk visits every entry of the tree once, in preorder, exactly when all can be read |
| `DieTree.ReferenceRefused` | src/dwarf.cpp:106-163 | a legal entry with one eight-byte reference cannot be parsed |
| `LineProgram.DecodeAssembled` | src/dwarf.cpp:1130-1233 | decoding undoes assembling for every instruction the header provides, wherever it stands |
| `LineProgram.AssembledRows` | src/dwarf.cpp:1104-1120 | iterating over an assembled program yields exactly the rows the instructions mean |
| `LineProgram.SpecialMeaning` | src/dwarf.cpp:1217-1228 | the special opcode chosen for an advance (section 6.2.5.1 of DWARF 4) advances address and line by exactly that |
| `LineProgram.ConstAddPcIsOpcode255` | src/dwarf.cpp:1130-1233 | `DW_LNS_const_add_pc` advances the address as opcode 255 does |
| `LineProgram.EncodeRowsMeaning` | src/dwarf.cpp:1130-1233 | the program generated for any list of rows means those rows, flags cleared after each row and everything reset after the end of a sequence |
| `LineProgram.LineTableRoundTrip` | src/dwarf.cpp:1104-1233 | any list of expressible rows, in any number of sequences, encoded to bytes from the start registers of section 6.2.2 of DWARF 4 and iterated, comes back unchanged |
| `LineProgram.RegistersFollow` | include/libsdb/dwarf.hpp:245-254 | the registers at a sequence's start and behind each row are those of section 6.2.2: flags for one row cleared, all else kept |
| `LineProgram.FileEntryRead` | src/dwarf.cpp:1202-1209 | `DW_LNE_define_file` is read past its name and its three numbers |
| `LineProgram.IsaOperandStays` | src/dwarf.cpp:1179-1180 | the operand of `DW_LNS_set_isa` is never read: decoding goes on inside it |
| `LineTables.LineIterator.ExecuteInstruction` | src/dwarf.cpp:1130-1233 | one instruction executed on the iterator's fields has the decoded instruction's meaning, and reports whether it emitted a row |
| `LineTables.LineIterator.Increment` | src/dwarf.cpp:1104-1120 | `operator++` moves to the next emitted row, or to the end |
| `LineTables.IterateRows` | src/dwarf.cpp:1104-1120 | iterating from begin to end sees the rows of the whole table |
| `LineTables.GetEntryByAddress` | src/dwarf.cpp:1235-1252 | the loop over neighbouring rows finds what the search over all rows finds; on a program with a fault, what the search over the rows in front of the fault finds, else it reports the fault |
| `LineTables.LookupExact` | src/dwarf.cpp:1235-1252 | for disjoint sequences in address order, the answer is the last row at or below the address in the covering sequence, and there is none exactly when no sequence covers it |
| `Operators.BinaryObeys` | src/dwarf.cpp:1755-1773 | every two-operand operator obeys its law: sums, differences and products are congruent modulo 2^64, a quotient rounds toward zero, a remainder is unsigned, bits and shifts are stated bit by bit, comparisons by the value in two's complement; undefined exactly for zero divisors, the overflowing quotient and over-wide shifts |
| `Operators.BinaryOnce` | src/dwarf.cpp:1755-1773 | the law leaves one result |
| `Operators.UnaryObeys` | src/dwarf.cpp:1904-1991 | so do absolute value, negation, complement and the eight-byte load, whose bytes are those of memory, lowest first |
| `Operators.UnaryOnce` | src/dwarf.cpp:1904-1991 | their law leaves one result |
| `Operators.WordObeys` | src/dwarf.cpp:1909-1922 | a load of up to eight bytes has those bytes and zeros above them, and fails if one is not mapped |
| `Expressions.Eval` | src/dwarf.cpp:1740-2073 | the evaluation loop gives what the step function gives, in at most as many steps as there are bytes |
| `Expressions.CompiledTreeRuns` | src/dwarf.cpp:1740-2073 | the code of every expression tree pushes exactly what the tree denotes by the operators' laws above an untouched stack, or fails as the tree does |
| `Expressions.CompiledTreeResult` | src/dwarf.cpp:1740-2073 | evaluating a compiled tree gives what it denotes as an address, and as a literal after `DW_OP_stack_value` |
| `Expressions.DenotesIff` | src/dwarf.cpp:1740-2073 | a tree denotes exactly one result by the laws, leaves being registers, frame bases, the canonical frame address, run-time addresses and constants |
| `Expressions.EmptyExpression` | src/dwarf.cpp:1747 | an empty expression is the canonical frame address if that is pushed first, and no location otherwise |
| `Expressions.RefusedOpcodes` | src/dwarf.cpp:1923-1930 | exactly seven operations are refused: those for address spaces, object addresses, thread storage and calls |
| `Expressions.FollowsStandardIff` | src/dwarf.cpp:2011-2044 | a skip follows the standard exactly when it does not jump back, a branch exactly when it is taken and does not jump back (or has nothing to test), an implicit value exactly when it is empty or malformed |
| `Expressions.BackwardJumpsFail` | src/dwarf.cpp:2011-2019 | a branch and a skip whose legal backward jumps fail |
| `Expressions.UntakenBranchStays` | src/dwarf.cpp:2014-2019 | a branch that is not taken goes on inside its operand |
| `Expressions.ImplicitValueStays` | src/dwarf.cpp:2039-2044 | an implicit value goes on inside its bytes |
| `Locations.CompositeResult` | src/dwarf.cpp:2051-2071 | any composite location description, its pieces counted in bytes or in bits, in registers named either way, at computed addresses, computed values or absent, evaluates to exactly its pieces in order |
| `Locations.StackOperations` | src/dwarf.cpp:1885-1903 | dup, drop, over, swap and rot rearrange the top of the stack as section 2.5.1.3 of DWARF 4 says and leave the rest alone |
| `Locations.PickReaches` | src/dwarf.cpp:1891-1894 | pick copies the entry with as many others above it as its operand says; pick 0 is dup and pick 1 is over |
| `Locations.RegisterOperation` | src/dwarf.cpp:1815-1827 | a register operation, short or long, describes the register; in call frame information it pushes the register's value |
| `CallFrames.UnwindContext.ExecuteInstruction` | src/dwarf.cpp:1410-1574 | one instruction executed on the context's fields has the decoded instruction's meaning |
| `CallFrames.UnwindRules` | src/dwarf.cpp:1703-1716 | the answer is what the text of the two programs says: all initial instructions, then the function's up to the first that leaves the location behind the pc, or the error of the first that fails; and it is the row of the full unwind table at the pc when locations do not decrease |
| `CallFrames.TextDecides` | src/dwarf.cpp:1410-1574 | for every program: it fails with the error of the first instruction its text refuses; otherwise the CFA register is the one named last and the CFA offset the one named last, a register's rule is the first it is given, closed brackets left out, and the location is the last set_loc's, or the start, plus the later advances modulo 2^64 |
| `CallFrames.UntilIsText` | src/dwarf.cpp:1714-1716 | the early stop runs as many instructions as the location read off the text says |
| `CallFrames.EarlyStopRefinesTable` | src/dwarf.cpp:1703-1716 | stopping once the location passes the pc leaves the rules of that row of the table from all instructions (section 6.4.1 of DWARF 4) |
| `CallFrames.RunAllIsDisassembled` | src/dwarf.cpp:1410-1574 | interpreting the bytes is interpreting their instructions |
| `CallFrameCode.DecodeEncoded` | src/dwarf.cpp:1410-1574 | decoding undoes the encoding of section 7.23 of DWARF 4 for every instruction without pointer or expression, operands scaled by the alignment factors |
| `CallFrameCode.SetLocDecodes` | src/dwarf.cpp:1448-1457 | `DW_CFA_set_loc` moves to the address its encoded pointer denotes |
| `CallFrameCode.PointerRead` | src/dwarf.cpp:397-436 | an encoded pointer of any format and application is the sum of what it is relative to and its value, modulo 2^64 |
| `CallFrameCode.ExpressionFollowsIff` | src/dwarf.cpp:1489-1516 | an expression rule is read with the place and length of its body, but decoding goes on at the body: as section 6.4.2 asks exactly when that is empty |
| `CallFrameCode.OthersPassedOver` | src/dwarf.cpp:1444-1573 | other extended opcodes are passed over without operands |
| `CallFrameCode.EncodedProgramRuns` | src/dwarf.cpp:1703-1707 | running the bytes of any such program executes what its instructions mean, one after the other |
| `CallFrames.BracketRestores` | src/dwarf.cpp:1564-1571 | a balanced program between remember_state and restore_state, whatever it does, leaves rules, CFA rule and rule stack as they were, and keeps the advance of the location |
| `CallFrames.StackBelowUntouched` | src/dwarf.cpp:1564-1571 | a program never touches the rule stack below its own brackets |
| `RuleReplacement.KeepFirstAgreesIff` | src/dwarf.cpp:1410-1574 | for every program: the interpreter succeeds exactly when one that replaces rules does and every restored register has an initial rule; locations and CFA rules are then the same; and register rules are the same exactly when every register given a rule, outside what restore_state takes back, is given, last, the rule it has first |
| `RuleReplacement.SameRulesIff` | src/dwarf.cpp:1437-1443 | keeping first rules and replacing rules give the same rule set exactly under that condition |
| `RuleReplacement.UnknownRestoreFails` | src/dwarf.cpp:1440-1443 | restoring a register without an initial rule fails, where the standard drops its rule |
| `RuleReplacement.SecondRuleIgnored` | src/dwarf.cpp:1429-1443 | an epilogue after an advance whose new rule for a register is ignored |
| `CompactUnwind.Lookup` | src/unwind.cpp:12-48 | for tables in order, regular and compressed pages mixed, the two-level lookup finds what the flat search over all functions finds where the page is not empty, and nothing elsewhere, so it agrees with the flat search exactly there and where no function starts at or below; truncated headers and other versions are errors |
| `CompactUnwindBytes.LookupWritten` | src/unwind.cpp:12-48 | looking an offset up in the bytes of a table finds the last function the table lists at or below it, if its page lists any |
| `CompactUnwindBytes.WrittenTableRead` | src/unwind.cpp:12-48 | the bytes of a table are read back: header, order and function list |
| `CompactUnwindBytes.EmptyPageAnswersNothing` | src/unwind.cpp:28 | a table and an offset above a function where the flat search finds the function and the lookup nothing |
| `CompactUnwind.CoveringPageDecides` | src/unwind.cpp:21-48 | the flat search finds its answer in the page whose index range holds the offset |
| `CompactUnwind.FunctionsInOrder` | src/unwind.cpp:21-48 | the flattened function list is in order of starts |
| `CompactUnwind.GreatestStart` | src/unwind.cpp:21-48 | what the flat search finds has the greatest start at or below the offset |
| `CompactUnwind.ScanRegular` | src/unwind.cpp:30-33 | scanning a regular page finds its last entry at or below the offset |
| `CompactUnwind.ScanCompressed` | src/unwind.cpp:34-43 | scanning a compressed page does too, with the entry's offset unpacked from 24 bits and its encoding taken from the common or the page's table |
| `CompactUnwindBytes.HeaderRead` | src/unwind.cpp:15 | the header's fields are read from where the format puts them |
| `CompactUnwindBytes.IndexRead` | src/unwind.cpp:22-24 | so are those of every first-level index entry |
| `CompactUnwindBytes.RegularPageRead` | src/unwind.cpp:30-33 | a regular page written with a list of functions is read back as that list |
| `CompactUnwindBytes.CompressedPageRead` | src/unwind.cpp:34-43 | a compressed page is read back as the functions it stands for, encodings numbered through the common ones and then the page's own |
| `Memory.WriteMemory` | src/process.cpp:178-201 | success stores exactly the data across any number of regions and leaves every protection as it was; failure has stored a prefix, and stops at an unmapped address if it says so |
| `Memory.WriteNext` | src/process.cpp:182-199 | each chunk that is written is non-empty and lies in one region |
| `Traps.PatchAddsTrap` | src/breakpoint_site.cpp:32-44 | storing the trap word over an aligned word adds that word to the overlay |
| `Traps.UnpatchRemovesTrap` | src/breakpoint_site.cpp:45-51 | storing the original word back removes it |
| `Traps.UnpatchedWord` | src/breakpoint_site.cpp:38 | what enabling saves is the original word |
| `Traps.TrapIsBrk` | src/breakpoint_site.cpp:32-44 | the trap word is the instruction `brk #0` |
| `Traps.WriteKeepsOverlayIff` | src/process.cpp:178-201 | a write keeps memory an overlay of the same traps exactly when it leaves the trap bytes as they are |
| `Traps.AvoidingSpares` | src/process.cpp:178-201 | writes clear of every trap word do |
| `Stoppoints.Process.FindByAddress` | include/libsdb/stoppoint_collection.hpp:83-90 | the first site at the address, or the end |
| `Stoppoints.Process.CreateSite` | src/process.cpp:395-406 | a disabled site is appended, unless one exists at the address; the invariant holds either way |
| `Stoppoints.Process.Patch` | src/breakpoint_site.cpp:32-44 | enabling a software site adds its word to the traps in memory; misaligned addresses and unreadable words are refused unchanged; only a failed trap write breaks the invariant |
| `Stoppoints.Process.Unpatch` | src/breakpoint_site.cpp:45-51 | disabling it takes its word out again |
| `Stoppoints.Process.EnableSite` | src/breakpoint_site.cpp:32-44 | enabling keeps the invariant, for a hardware site whatever fails; a hardware site gets the lowest free pair, and finds none only when all sixteen are armed |
| `Stoppoints.Process.DisableSite` | src/breakpoint_site.cpp:45-51 | disabling keeps the invariant and clears exactly the site's pair |
| `Stoppoints.Process.DisarmSite` | src/process.cpp:368 | clearing a pair releases it; if a thread's registers cannot be set, the pair is cleared all the same and the invariant is broken |
| `Stoppoints.Process.SetHardwareStoppoint` | src/process.cpp:345-365 | a valid request gets the lowest free pair of its kind in every thread, fails for want of a pair only when all sixteen are armed, and any failure restores the process's registers exactly; the kernel is to blame only if it is fallible or a thread is gone |
| `Stoppoints.Process.ClearHardwareStoppoint` | src/process.cpp:368 | clears exactly one pair, in the process and in every thread |
| `Stoppoints.Process.CreateWatchpoint` | src/process.cpp:408-417 | a disabled watchpoint is appended, unless one exists at the address, the address has a bit of size - 1 set or the bytes cannot be read |
| `Stoppoints.Process.EnableWatchpoint` | src/watchpoint.cpp:28-33 | enabling keeps the invariant whatever fails; success programs the lowest free pair of the kind for exactly the request, failure changes no register |
| `Stoppoints.Process.DisableWatchpoint` | src/watchpoint.cpp:35-40 | disabling clears exactly the watchpoint's pair and keeps the invariant |
| `Stoppoints.Process.RemoveSite` | include/libsdb/stoppoint_collection.hpp:158-163 | removing disables the site, erases exactly it, leaves every other site alone and keeps the invariant |
| `Stoppoints.Process.ReadWithoutTraps` | src/process.cpp:202-207 | returns the original bytes of any range, however it overlaps trap words |
| `Stoppoints.Process.Write` | src/process.cpp:178-201 | memory stays an overlay, with the data stored underneath, exactly when the stored data leaves trap bytes as they are |
| `Stoppoints.Process.SlotsExclusive` | src/process.cpp:345-368 | enabled hardware stoppoints hold distinct pairs, and a pair is armed exactly when one of them holds it |
| `Stoppoints.Process.EnabledWatches` | src/process.cpp:357-358 | the pair of an enabled watchpoint stops exactly the stores to its bytes, and loads of them if it is for both |
| `Stoppoints.Process.EnabledBreaks` | src/process.cpp:357-358 | the pair of an enabled hardware site stops exactly the instruction at its address |
| `Stoppoints.RunScript` | src/process.cpp:395-417 | any script of creating, enabling, disabling, removing, watching and writing keeps all of the invariant after every operation, whatever fails, until an operation is left half done or a write does not spare the traps; the original memory is the one at the start with the script's writes, and nothing else, stored in it, except below traps, which stand only where there was one or the script enabled a software site |
| `Stoppoints.RunOp` | src/process.cpp:395-417 | an operation that reports success has done what it is for, one that fails has a cause, and either way it changes only the sites, traps and memory that are its own |
| `Stoppoints.AttachRunDetach` | src/process.cpp:84-98 | from attaching to detaching, the memory left behind is the memory found with the script's writes stored in it, except below traps the script itself had set then |
| `Stoppoints.TrapFreeReplay` | src/process.cpp:178-201 | where no trap can stand, since there was none and the script enables no software site, its writes are stored as they are |
| `Stoppoints.ClearWriteIsStore` | src/process.cpp:178-201 | a write clear of the trap words changes the original memory like any store |
| `Stoppoints.DisableAll` | src/process.cpp:94-95 | disabling every stoppoint restores memory exactly and leaves no pair armed |
| `DebugRegisters.WatchedExactly` | src/process.cpp:357-358 | the encoded value and byte-select mask of a valid watchpoint denote exactly [address, address + size) |
| `DebugRegisters.ValidRequestIff` | src/process.cpp:346-351 | a request passes the tests exactly when its size is one, two, four or eight and its address a multiple of it, or of four for a breakpoint |
| `DebugRegisters.CaughtExactly` | src/process.cpp:357-358 | the control register of a watchpoint enables it for code at user level, for stores, and for loads exactly when it is for both, on exactly the requested bytes |
| `DebugRegisters.BrokenExactly` | src/process.cpp:357-358 | that of a breakpoint enables it for the instruction at its address |
| `DebugRegisters.PlacedArms` | src/process.cpp:357-358 | programming a pair sets its enable bit and no other |
| `DebugRegisters.FirstFree` | src/process.cpp:355 | the lowest pair whose enable bit is clear, if there is one |
| `DebugRegisters.RearmedSameIff` | src/process.cpp:260-284 | disarming a breakpoint pair and arming again changes nothing exactly when every lower pair is armed |
| `DebugRegisters.CallDebugSameIff` | src/process.cpp:376-394 | when lending a pair to the return site and stepping off the function give the registers back unchanged |
| `DebugRegisters.SecondMovesDown` | src/process.cpp:260-284 | registers where stepping off a breakpoint, alone or in a call, moves it to a lower pair |
| `DebugRegisters.BorrowedPairKeepsAddress` | src/process.cpp:376-394 | registers where a call leaves the return address behind in the pair it borrowed |
| `Execution.WaitOnSignal` | src/process.cpp:285-327 | whatever the program does until the next stop, the invariant holds at the stop, and exactly one run from the state before has taken place; the threads are reread, and the current one stays if it lives, or after a trap stands at an enabled site if some thread does |
| `Execution.PopulateThreads` | src/process.cpp:106-147 | the thread table is the kernel's; the current thread stays if it lives |
| `Execution.ThreadAtSite` | src/process.cpp:313 | if some thread stands at an enabled site, such a thread is picked |
| `Execution.SuspendOthers` | src/process.cpp:266-268 | every thread but the stepped one is suspended once more |
| `Execution.OthersUndisturbed` | src/process.cpp:266-279 | resuming after the step leaves each surviving thread suspended as often as before, new threads not at all, and the other threads' debug registers alone |
| `Execution.StepInstruction` | src/process.cpp:260-284 | a step is exactly one run, of the thread alone: the others are suspended and those still there have the registers they had, the single-step bit is set, and the trap or hardware site at its pc is out of the way; one that ends stopped leaves the same sites enabled, the suspensions as before, the single-step bit off, and the debug registers as before up to the rearmed site; it is cut short only if the kernel is fallible, a thread was gone, all are gone now, or a site's instruction is unmapped |
| `Execution.OthersStandStill` | src/process.cpp:266-268 | in a step every other thread that is still there has the registers it had |
| `Execution.StepUnchangedIff` | src/process.cpp:260-284 | the debug registers are unchanged exactly when the thread did not stand at an enabled hardware site or every lower pair is armed |
| `Execution.StepMovesSite` | src/process.cpp:260-284 | two hardware sites enabled, the first disabled, a step at the second: it ends in pair 0 and the debug registers have changed |
| `Execution.Resume` | src/process.cpp:216-259 | resuming steps off an enabled site first, and only then, and keeps what a step keeps; without one it changes neither memory nor threads |
| `Execution.InferiorCall` | src/process.cpp:376-394 | a call that ends stopped ran from the function with the return address in the link register, after a step of the thread alone if a site is enabled there, over all traps and the return site's, with nobody suspended for it; the result is the thread's registers at the stop, and it succeeds exactly when they have reached the return address; either way the thread's registers equal `restore` in the process and the kernel, with the same sites, the same ones enabled, the suspensions as before, and the debug registers up to lent and rearmed pairs; a call that does not end stopped leaves its return site enabled and the other sites as they were; a return site that cannot be enabled leaves all sites as they were, and itself behind if it was new |
| `Execution.CallUnchangedIff` | src/process.cpp:376-394 | exactly when those debug registers are unchanged |
| `Execution.RunSession` | src/process.cpp:260-394 | any session of stoppoint operations, steps and calls has the whole invariant at every stop between two commands, until something is left half done, the process is not stopped, a write does not spare the traps or the calling thread is gone; each command has changed the original memory, the software sites and the traps only as such a command may: stoppoint operations other than writes keep the memory, a write stores a prefix of its data except below traps, steps and calls keep the traps, and a call at most leaves a site behind; it stops early only for a stated cause |
| `HomogeneousAggregates.Accumulator.Push` | src/abi.cpp:6-22 | a float joins exactly when it has the others' size and there are at most four |
| `HomogeneousAggregates.Collect` | src/abi.cpp:3-38 | the recursion succeeds exactly when the type is sound, nested at most sixteen deep and all its scalars can join, and then has added their offsets in order |
| `HomogeneousAggregates.Classify` | src/abi.cpp:3-40 | a type is homogeneous exactly when it is sound, nested at most sixteen deep and flattens to at most four floats of one size, four or eight bytes; its offsets then lie inside the type and do not overlap if its members do so, and are those of its floats in address order if its members follow one another |
| `HomogeneousAggregates.NoEmptySound` | src/abi.cpp:3-38 | types without empty aggregates that flatten to at most four such floats are sound and have at least one |
| `HomogeneousAggregates.EmptyAggregatesDiffer` | src/abi.cpp:25-38 | an empty array and a leading empty struct, where recursion and flattening part |
| `HomogeneousAggregates.LeavesPlaced` | src/abi.cpp:24-38 | the scalars of a type whose members lie inside it and apart lie inside it and apart, at any depth |
| `HomogeneousAggregates.UniformSpaced` | src/abi.cpp:3-40 | so do the elements of a homogeneous aggregate |
| `HomogeneousAggregates.LeavesAre` | src/abi.cpp:23-38 | the scalars of a type are those its paths of element and member numbers lead to, element i of an array i sizes behind the first |
| `HomogeneousAggregates.LeavesAscend` | src/abi.cpp:23-38 | the floats of a type whose members follow one another follow one another |
| `HomogeneousAggregates.UniformAscends` | src/abi.cpp:3-40 | so the elements of a homogeneous aggregate are its floats in address order |
| `HomogeneousAggregates.ArrayOfScalars` | src/abi.cpp:23-27 | the scalars of an array follow one another from its start, one per element |
| `HomogeneousAggregates.NestedIff` | src/abi.cpp:4 | the recursion's budget is enough exactly for types that are not nested deeper |
| `Aapcs.NoSharedRegister` | src/target.cpp:662-664 | no two arguments share a register, and only the eight argument registers of each kind are used |
| `Aapcs.MeasureStack` | src/target.cpp:667 | the size pass computes the end of the aligned layout |
| `Aapcs.WriteStack` | src/target.cpp:668 | the write pass puts every value at its offset of that layout from a 16-aligned base, and disturbs neither the other values nor the copies |
| `Aapcs.AlignShift` | src/target.cpp:667-668 | aligning commutes with a 16-aligned base, so both passes agree |
| `Aapcs.StackLayout` | src/target.cpp:667-668 | stack values are aligned as each asks, pairwise disjoint and below the end |
| `Aapcs.AlwaysOnEightIff` | src/target.cpp:667-668 | values of one alignment land on a multiple of eight, whatever comes before them, exactly when it is at least eight |
| `Aapcs.StackedPointerOnEight` | src/target.cpp:664-668 | a stacked pointer to a copy carries the alignment of what it points to, so it lies on a multiple of eight for sure if that is at least eight, and otherwise exactly when its offset in the layout is a multiple of eight |
| `Aapcs.PointerAtOffsetOne` | src/target.cpp:664-668 | eight words, a byte and a twenty-byte struct of alignment one put the pointer at offset one |
| `Aapcs.PutArgument` | src/target.cpp:650-665 | one argument is placed by kind and registers left, and changes no other register |
| `Aapcs.SetupArguments` | src/target.cpp:643-669 | all arguments are in place and x8 holds the result's address; no register that was not given out has changed; if the stack has room the new stack pointer is 16-aligned with all values between it and the old one, and no other byte that was mapped has changed; it fails only for want of room for a copy or on a fallible kernel |
| `Aapcs.ArgumentFound` | src/target.cpp:643-669 | every argument's bytes can be read back from its place: registers, stack, behind a pointer in either, or gathered from vector registers, the last exactly when the bytes between the elements are zero |
| `Parameters.PlaceBySizes` | src/target.cpp:660-664 | an argument's place follows from the sizes of the arguments up to it: a homogeneous aggregate takes a vector register for each element, any other is behind a pointer exactly when it is larger than sixteen bytes and otherwise in as few general registers as hold it, from the first not taken before; on the stack exactly when too few are left |
| `Parameters.CalleeFinds` | src/target.cpp:643-669 | a called function that knows only its parameters' types finds every argument: values, addresses of referents, copies behind pointers, and aggregates in vector registers exactly when the bytes between their elements are zero |
| `Parameters.PlacesAskedIff` | src/target.cpp:660-664 | all places are those of AAPCS64 exactly when no argument gets registers behind one of its kind that has got none |
| `Parameters.WordOvertakes` | src/target.cpp:663 | seven words, an aggregate of two and a word, where the last gets the register that the standard leaves free |
| `Parameters.ReturnedAsArgument` | src/target.cpp:670-675 | a result is where the only argument of its type would be, and one that would be behind a pointer is at the address given for it |
| `Aapcs.GatheredIff` | src/target.cpp:662 | elements gathered from the vector registers give the aggregate back exactly when the bytes that belong to no element are zero |
| `Aapcs.Malloc` | src/target.cpp:799-805 | allocation maps fresh memory and changes nothing that was mapped; it fails only where there is no room or the kernel is fallible |
| `Aapcs.WordsRoundTrip` | src/target.cpp:663 | a value cut into register words and unpacked is the value |
| `Aapcs.ReadReturnValue` | src/target.cpp:670-679 | whatever value was returned by the rules, those are the bytes read, and the slot then holds them |
| `Aapcs.ElementsDetermine` | src/target.cpp:675 | vector registers that hold the elements of a covered aggregate determine its bytes |
| `Symbols.SizeSymbols` | src/macho.cpp:107 | the in-place loop sizes every symbol up to its section's end or the next greater start |
| `Symbols.SymbolMap.Emplace` | src/macho.cpp:113 | an entry joins exactly when no entry has its start; order is kept |
| `Symbols.IndexSymbols` | src/macho.cpp:105-113 | for any sort, duplicates allowed, the map has one of the file's symbols for every start, ended well |
| `Symbols.SymbolMap.Containing` | src/macho.cpp:187-210 | the lookup agrees with a linear scan: a symbol with the greatest start at or below the address exactly when the address is that start or lies before the end of the section holding it |
| `Symbols.GreatestStart` | src/macho.cpp:187-210 | the linear scan finds the greatest start at or below the address |
| `Symbols.EndDecides` | src/macho.cpp:107 | between a start and the next greater one, a symbol's end and its section's end decide alike |
| `Symbols.SectionEndIs` | src/macho.cpp:107 | the end a symbol is given is that of the first section that holds it, or one behind its start where none does |
| `Bitfields.CopyBits` | include/libsdb/bit.hpp:59-75 | destination bits [d, d + n) become source bits [s, s + n), and no other bit changes |
| `Bitfields.AssignedBit` | include/libsdb/bit.hpp:63-73 | masking a bit out and in changes that bit of the byte alone |
| `Bitfields.LeBits` | include/libsdb/bit.hpp:59-75 | the bits of a byte string are the bits of its little-endian integer |
| `Bitfields.ExtractedBits` | src/type.cpp:249-272 | the bits of floor(x / 2^s) mod 2^n |
| `Bitfields.FixupBitfield` | src/type.cpp:249-272 | the storage of an in-bounds bit-field member, as a little-endian integer, is floor(source / 2^offset) mod 2^size |
| `Bitfields.ReadMember` | src/type.cpp:294-318 | reading a member succeeds exactly when its type's bytes lie in the object and its bits in those bytes; a bit-field's value is then floor(object / 2^offset) mod 2^size, with the offset counted from the start of the object |
| `Bitfields.ExtractedFromSlice` | src/type.cpp:300-315 | a field taken out of a slice is the field of the whole object |
| `Bitfields.PackedInBoundsIff` | src/type.cpp:300-315 | a field placed by a bit offset lies in its type's bytes exactly when it ends inside them counted from its first byte; a 32-bit field at bit 4 does not |
| `Bitfields.OffsetFromTop` | src/dwarf.cpp:2190-2195 | an offset counted from the top survives its eight bits exactly when fewer than 256 bits lie below the field |
| `Bitfields.WideUnitMisread` | src/dwarf.cpp:2190-2195 | a field of a forty-byte unit that is read from the wrong bit |

## Left out

- The commands, the disassembler, value display, expression parsing, syscall tables and name demangling: text handling and tables.
- Launching, attaching, pipes, files and Mach-O load commands: foreign calls and record reading.
- Abbreviation tables, compile unit headers and attribute values: they would add easy readers only.
- Location lists, range lists, scopes, inlining and the lookup of functions by name: not needed by the properties here.
- `DW_LNE_define_file` appends to a table shared by all iterations; the model reads past it and does not grow the table.
- Frame bases in expressions: `DW_OP_fbreg` takes the frame base as a given value, without evaluating its expression.
- Turning call frame rules or a compact encoding into register values (`execute_unwind_rules`, src/unwind.cpp:50-80).
- Evaluating expression rules of call frame information.
- DecodeEncoded: products with the alignment factors wrap, where overflow is undefined in the code.
- Finding the FDE for a pc in `.eh_frame_hdr`.
- Catching system calls, queued stops, hit handlers, target notifications and the stop's reason in `wait_on_signal` and `resume`.
- The watched value and its history, and debug registers of threads that appear after a stoppoint is set.
- Name lookup of symbols, and `get_symbol_at_address`.
- Conversion of a double to a float argument, which rounds.
- InferiorCall: what is left when a kernel call fails part way is not stated; `restore` is taken to belong to the thread that is called on.
- Increment: `operator++` also forms a pointer to the row's file entry without a bounds test (src/dwarf.cpp:1117); file numbers outside the table are not modelled.
- StepInstruction: nothing is stated of the sites when the step ends with the process gone.
- RemoveSite: removing at an address without a site is `NotFound`; the code dereferences the end of the collection there.
- LetRun: a program that overwrites its own trapped instructions is not modelled.
- SetupArguments: arguments are taken to have their type's size and power-of-two alignments, and the thread's stack to be mapped; failing register writes are not modelled.
- CopyBits: bit counts stay below 2^32, and source and destination are separate buffers.
- Lookup: for tables that are not in order only the header's errors are stated.
- WriteMemory: addresses stay below the user limit of 2^47, so sums of address and length do not wrap.
