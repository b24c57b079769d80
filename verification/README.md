# Verified models of the PPC64 assembler, mx and the Linux serviceability agent

Dafny models of four parts of the Graal VM repository and proofs of what they are for. Main results
are for every input, every reachable state or every interleaving; `dafny verify
dfyconfig.toml` checks the project.

**Constant loading, memory access and patching on PPC64** (`PpcFields`, `PpcBranch`, `PpcIsa`,
`PpcRotates`, `PpcMemory`, `PpcAssembler`, `PpcAccess`, `PpcPatch`). The assembler emits 32-bit words. `PpcIsa` gives
the instructions it uses their encodings, a decoder written from the instruction formats alone,
and a meaning on registers and memory. The emitters are methods of a class that appends to a
code buffer, and what they promise is about running the words they appended: the decoder sits
between encoder and meaning, so a wrong field, register or opcode breaks the proofs. Arithmetic
is on integers with 64-bit and 32-bit wrap-around written out; shifts, masks and OR are the
bit-by-bit functions of `Bits`, and `PpcRotates` says what the rotates do to every bit. Data memory is read and written in either byte order. Debug
assertions are preconditions.

**Unaligned access** (`PpcBytes`). Both endian builds of `bytes_ppc.hpp` over a byte array, with
machine loads and stores that exist only at aligned addresses.

**mx** (`Graphs`, `MxDeps`, `MxDistances`, `MxBuild`, `MxScheduler`, `MxRuns`,
`MxPasses`, `MxParallel`). Dependency closure, longest
distances and transitive reduction, task construction, and the parallel scheduler as a state
machine in which a process may exit between any two looks of the main thread. `MxParallel`
composes task construction and scheduler into theorems about the projects themselves.

**The serviceability agent** (`PsMaps`, `PsImage`, `PsCore`, `PsProc`, `Crc`, `CrcTable`). Address maps of a core file
with binary search and reads across maps, word-wise reads of a live process, and the table-driven
CRC-32 against the bitwise definition in section 8 of RFC 1952.

## What the proofs found

- A RegisterOrConstant load with a constant that does not fit an immediate and `d` as base
  register overwrites the base before using it and reads from twice the constant. A store whose
  temporary is also its value or its base does the same kind of damage. `PpcAccess.LoadExact` and
  `PpcAccess.StoreExact` give the exact conditions, for running the emitted words.
- `patched_branch` accepts a destination that is not a multiple of four away and drops the low
  bits; `PpcBranch.PatchRoundTrip` is an if-and-only-if.
- `depsDone` lets a task start after a dependency that failed: `MxScheduler.StartsOverFailure` is
  such a run, `MxRuns.SafeStartsExact` says for exactly which configurations there is one, and
  `MxScheduler.BuildOutcome` that the build reports the failure in the end all the same.
- A pass over the worklist removes tasks from the list it walks, so the task after a started one is
  skipped (`MxPasses.SkipsNext`). `MxPasses.PassStartsHalf` bounds what that costs, and
  `MxPasses.FirstReadyStarts` says that no processor idles while a task could run.
- `core_lookup` looks at one map only, so with overlapping maps it can miss one that contains the
  address; `PsMaps.SearchComplete` is exact. `add_map_info` leaves the index shorter than the
  number of maps, and `read_lib_segments` looks addresses up in that state; `PsMaps.Search` says
  exactly for which addresses the search stays inside the index.
- `core_read_data` does not stop a chunk of a class share map where a normal map begins, and fills
  zeros over class share bytes behind a normal map; `PsImage.LayeredExact` is exact. When a file
  ends before its map does, it fills the zeros of the last page in where the file stopped and can
  succeed with them; `PsImage.HonestExact` is exact.
- `_compute_max_dep_distances` ends if and only if no cycle is reachable:
  `MxDistances.EndsIffAcyclic`.
- In `_all_deps_helper` the test `elif dep.isProject` names a method without calling it and is
  always true. It is harmless: libraries and JRE libraries test the include flags themselves.
  Only projects have cycle detection. `MxDeps.Follow` is the recursion of the source followed to a
  given depth; on a cycle of libraries it runs on at every depth (`MxDeps.TwoLibraries`), and
  `MxDeps.DepList.AllDeps` says exactly when. The method itself stops there and reports the
  outcome `LibraryCycle`.
- The comment on the Java accessors in `bytes_ppc.hpp` says no byte reversal is needed because
  Power is big-endian; the little-endian build does reverse. The model follows the code.
- `is_load_const_at` does not look at the fifth word of a sequence with a temporary, so it
  accepts more than `load_const` emits; `PpcPatch.PatchedConstant` holds for all it accepts, and
  `PpcPatch.PatchedLoads` for what `load_const` emits.

## Model

| member | source | states |
|---|---|---|
| `PpcFields.InvUFieldUndoes` | src/cpu/ppc/vm/assembler_ppc.hpp:838-856 | for every bit range and every value that passes the range assertion, extracting an unsigned field gives back the value that was placed in it |
| `PpcFields.InvSFieldUndoes` | src/cpu/ppc/vm/assembler_ppc.hpp:845-866 | the same for signed fields, through the shift up to bit 31 and the arithmetic shift down |
| `PpcFields.InvSFieldSignExtends` | src/cpu/ppc/vm/assembler_ppc.hpp:845-849 | on every word, not only on encoded ones, the two shifts of inv_s_field_ppc are sign extension of the unsigned field |
| `PpcFields.UnsignedExact` | src/cpu/ppc/vm/assembler_ppc.hpp:838-856 | the values u_field accepts are exactly those inv_u_field can read from some word |
| `PpcFields.SignedExact` | src/cpu/ppc/vm/assembler_ppc.hpp:845-866 | the values s_field accepts are exactly those inv_s_field_ppc can read from some word |
| `PpcFields.FieldElsewhere` | src/cpu/ppc/vm/assembler_ppc.hpp:851-856 | a placed field reads as zero through every bit range disjoint from it |
| `PpcFields.OrInField` | src/cpu/ppc/vm/assembler_ppc.hpp:851-866 | OR-ing a field into any word changes no field outside its bit range and sets the field itself when it was clear |
| `PpcBranch.ClearedField` | src/cpu/ppc/vm/assembler_ppc.cpp:63-74 | masking with the field mask that s_field(-1) builds clears exactly the displacement field |
| `PpcBranch.ReplacedField` | src/cpu/ppc/vm/assembler_ppc.cpp:63-74 | after clearing the field with its mask and OR-ing in the new value, the field reads as the new signed value and every disjoint field is as before |
| `PpcBranch.PatchTouchesOnlyDisplacement` | src/cpu/ppc/vm/assembler_ppc.cpp:63-74 | patching keeps every bit range outside the displacement, whatever the branch; PatchedBc and PatchedB say which bits those are |
| `PpcBranch.PatchRoundTrip` | src/cpu/ppc/vm/assembler_ppc.cpp:63-85 | the destination read back is the one patched in if and only if it is a multiple of four away from the branch; the code drops the two low bits silently otherwise |
| `PpcBranch.PatchedBc` | src/cpu/ppc/vm/assembler_ppc.cpp:63-74 | of a bc word bits 15 to 2 become the distance in words, and opcode, condition in bits 25 to 16, AA and LK stay |
| `PpcBranch.PatchedB` | src/cpu/ppc/vm/assembler_ppc.cpp:63-74 | of a b word bits 25 to 2 become the distance in words, and opcode, AA and LK stay |
| `PpcBranch.ReachExact` | src/cpu/ppc/vm/assembler_ppc.cpp:63-74 | the destinations that pass the range assertion: distances of less than 32 megabytes for b and 32 kilobytes for bc, either way |
| `PpcBranch.DestinationOf` | src/cpu/ppc/vm/assembler_ppc.cpp:76-85 | for every b and bc word, patched or not, the destination is the sign-extended 24 or 14 bits from bit 2 on, times four, after the position, modulo 2^32 |
| `PpcBranch.RepatchForgets` | src/cpu/ppc/vm/assembler_ppc.cpp:63-74 | patching twice is patching once with the second destination |
| `PpcIsa.FormDValue` | src/cpu/ppc/vm/assembler_ppc.inline.hpp:84-87 | the OR of opcode, registers and immediate is the D-form word of the instruction set, no field overlapping another |
| `PpcIsa.FormXValue` | src/cpu/ppc/vm/assembler_ppc.inline.hpp:259-296 | the same for the indexed X-form loads and stores |
| `PpcIsa.FormMdValue` | src/cpu/ppc/vm/assembler_ppc.hpp:944-968 | the same for the MD-form rotates, whose six-bit shift and mask are split over non-adjacent bits |
| `PpcIsa.DecodeFormMd` | src/cpu/ppc/vm/assembler_ppc.hpp:944-968 | the split shift and mask fields are decoded to the numbers they encode, so both encodings are injective on 0..63 |
| `PpcIsa.LwaWord` | src/cpu/ppc/vm/assembler_ppc.inline.hpp:264-278 | the DS displacement shares its low bits with the opcode without disturbing it |
| `PpcIsa.DecodeEncode` | src/cpu/ppc/vm/assembler_ppc.inline.hpp:84-299 | decoding the emitted word of any modelled instruction with operands that pass the assertions gives back the instruction and its operands |
| `PpcIsa.EncodeDecode` | src/cpu/ppc/vm/assembler_ppc.inline.hpp:84-299 | and whatever word decodes to an instruction is the word the assembler emits for it, so no two words are the same instruction |
| `PpcRotates.AndNotBit` | src/cpu/ppc/vm/assembler_ppc.hpp:1027-1032 | clearing the bits of a mask, bit by bit, as set_imm and patched_branch do |
| `PpcRotates.OriBits` | src/cpu/ppc/vm/assembler_ppc.inline.hpp:148-149 | ori and oris bit by bit: the bits of either operand |
| `PpcRotates.RldicrBits` | src/cpu/ppc/vm/assembler_ppc.inline.hpp:246-246 | rldicr bit by bit for every shift and mask: the rotated source under the mask from bit 0 |
| `PpcRotates.RldimiBits` | src/cpu/ppc/vm/assembler_ppc.inline.hpp:252-252 | rldimi bit by bit for every shift and mask, one that wraps around included: the rotated source under the mask, the old target elsewhere |
| `PpcMemory.StoredByte` | src/cpu/ppc/vm/assembler_ppc.inline.hpp:281-296 | after a store of n bytes byte k of memory is the k-th digit of the number from the low end or the high end, by byte order |
| `PpcMemory.StoreElsewhere` | src/cpu/ppc/vm/assembler_ppc.inline.hpp:281-296 | and every byte at another address is as before |
| `PpcMemory.ReadWritten` | src/cpu/ppc/vm/assembler_ppc.inline.hpp:259-296 | in either byte order, reading back up to eight bytes gives the number written modulo 2^(8n) |
| `PpcMemory.LoadAfterStore` | src/cpu/ppc/vm/assembler_ppc.cpp:105-301 | for all six loads after the store of the same width, at any address: the value stored, cut to that width and zero- or sign-extended to 64 bits |
| `PpcAssembler.RunAppend` | src/cpu/ppc/vm/assembler_ppc.inline.hpp:84-299 | running emitted words one by one executes the instructions that were emitted |
| `PpcAssembler.KnowsStep` | src/cpu/ppc/vm/assembler_ppc.inline.hpp:84-255 | how one emitted instruction extends what is known of the registers after the code so far, in every starting state |
| `PpcAssembler.SldiValue` | src/cpu/ppc/vm/assembler_ppc.inline.hpp:212-246 | sldi by 32 is multiplication of the low half by 2^32, derived from rotate and mask |
| `PpcAssembler.InsrdiValue` | src/cpu/ppc/vm/assembler_ppc.inline.hpp:252-255 | insrdi of 32 bits at bit 0 replaces the upper half and keeps the lower, derived from rotate and insert under mask |
| `PpcAssembler.ChunkCarry` | src/cpu/ppc/vm/assembler_ppc.cpp:365-374 | a chunk read as a signed short plus the compensated remainder is the number again |
| `PpcAssembler.HighChunks` | src/cpu/ppc/vm/assembler_ppc.cpp:404-417 | the two carry-compensated upper chunks shifted up by 32 stand for everything above bit 31 modulo 2^64 |
| `PpcAssembler.LowChunks` | src/cpu/ppc/vm/assembler_ppc.cpp:365-374 | the two lower chunks add up to the low half, with the top one sign-extended and, for a non-negative chunk left over, without a carry |
| `PpcAssembler.Halves` | src/cpu/ppc/vm/assembler_ppc.cpp:400-400 | a doubleword from two 32-bit halves that are only known modulo 2^32 |
| `PpcAssembler.Assembler.Emit` | src/cpu/ppc/vm/assembler_ppc.inline.hpp:84-255 | appends the encoded word and tracks the register it writes; reading a register that is not tracked ends what is known |
| `PpcAssembler.Assembler.Li` | src/cpu/ppc/vm/assembler_ppc.inline.hpp:122-122 | load of a signed 16-bit immediate |
| `PpcAssembler.Assembler.Lis` | src/cpu/ppc/vm/assembler_ppc.inline.hpp:123-123 | load of a signed 16-bit immediate shifted by 16 |
| `PpcAssembler.Assembler.Addi` | src/cpu/ppc/vm/assembler_ppc.inline.hpp:84-84 | addition modulo 2^64; R0 as base is refused as by the assertion |
| `PpcAssembler.Assembler.Addis` | src/cpu/ppc/vm/assembler_ppc.inline.hpp:85-85 | addition of a shifted immediate modulo 2^64 |
| `PpcAssembler.Assembler.Ori` | src/cpu/ppc/vm/assembler_ppc.inline.hpp:148-148 | OR with a 16-bit immediate, which is addition when the low bits are clear |
| `PpcAssembler.Assembler.Oris` | src/cpu/ppc/vm/assembler_ppc.inline.hpp:149-149 | OR with a shifted immediate, which is addition when the low word is clear |
| `PpcAssembler.Assembler.Sldi32` | src/cpu/ppc/vm/assembler_ppc.inline.hpp:212-212 | the shift the constant loaders use |
| `PpcAssembler.Assembler.Insrdi32` | src/cpu/ppc/vm/assembler_ppc.inline.hpp:255-255 | the insertion the constant loaders use |
| `PpcAssembler.PlainLoads` | src/cpu/ppc/vm/assembler_ppc.cpp:337-342 | running the five words without a temporary leaves x in d and changes nothing else, in every state |
| `PpcAssembler.ParallelLoads` | src/cpu/ppc/vm/assembler_ppc.cpp:343-351 | running the five words with a temporary leaves x in d and changes nothing but d and the temporary |
| `PpcAssembler.Assembler.LoadConst` | src/cpu/ppc/vm/assembler_ppc.cpp:331-352 | for every 64-bit x, with and without a temporary: exactly the five words of the patchable pattern, and running them from any state leaves x in d and changes nothing but d and the temporary |
| `PpcAssembler.Assembler.LoadCarried` | src/cpu/ppc/vm/assembler_ppc.cpp:404-417 | the branch without a temporary builds all but the lowest chunk, with no word for a chunk that is zero |
| `PpcAssembler.Assembler.LoadUpper` | src/cpu/ppc/vm/assembler_ppc.cpp:382-393 | the temporary ends with the upper half of x modulo 2^32 in every combination of zero and negative chunks |
| `PpcAssembler.Assembler.LoadLower` | src/cpu/ppc/vm/assembler_ppc.cpp:394-399 | d ends with the lower half, short of a non-negative chunk that is returned |
| `PpcAssembler.Assembler.LoadHalves` | src/cpu/ppc/vm/assembler_ppc.cpp:380-402 | the branch with a temporary, R0 included, with no word added for a chunk that is zero |
| `PpcAssembler.Assembler.LoadConstOptimized` | src/cpu/ppc/vm/assembler_ppc.cpp:357-425 | for every 64-bit x, every d other than R0, any temporary other than d and either flag: exactly the words needed when none is spent on a zero chunk, hence one for a simm16, at most two for the sum of two signed chunks, at most five always; running them from any state leaves d + result = x modulo 2^64 and changes no register but d and the temporary and no memory; the result is 0 without the flag and else the lowest chunk or 0, exactly as the cases say |
| `PpcAssembler.CarryZero` | src/cpu/ppc/vm/assembler_ppc.cpp:368-376 | which constants the first two cases are taken for |
| `PpcAccess.LoadRoc` | src/cpu/ppc/vm/assembler_ppc.cpp:105-217 | all six RegisterOrConstant loads: for every operand that passes the assertions, running the emitted words loads exactly d, with nothing else changed, from one address in every state; that is the requested address in every state if and only if it is not the case that a constant too large for an immediate meets d as base register; besides the load there are only the words that load a constant, and none for one that fits the displacement |
| `PpcAccess.LoadExact` | src/cpu/ppc/vm/assembler_ppc.cpp:105-217 | in either byte order, the if-and-only-if for the words themselves: where the base is overwritten there is a state, with one non-zero byte in memory, in which running them loads another value than the requested one |
| `PpcAccess.StoreRoc` | src/cpu/ppc/vm/assembler_ppc.cpp:219-301 | all four RegisterOrConstant stores: running the emitted words stores one value at one address, with at most the temporary register changed; that is d at the requested address in every state if and only if a temporary that is used is neither d nor the base register; what a store does to memory is said by PpcMemory.StoredByte and PpcMemory.StoreElsewhere |
| `PpcAccess.StoreExact` | src/cpu/ppc/vm/assembler_ppc.cpp:219-301 | in either byte order, the if-and-only-if for the words themselves, with a state and a byte of memory that come out wrong in each of the failing cases |
| `PpcPatch.SetImmValue` | src/cpu/ppc/vm/assembler_ppc.hpp:1027-1032 | set_imm replaces the low 16 bits and keeps the upper |
| `PpcPatch.SetImmKeeps` | src/cpu/ppc/vm/assembler_ppc.hpp:1027-1036 | get_imm reads back what set_imm wrote, the instruction stays the same kind, and a second set_imm wins |
| `PpcPatch.Recognised` | src/cpu/ppc/vm/assembler_ppc.hpp:1172-1213 | is_lis, is_ori, is_oris and is_rldicr accept exactly the words the processor decodes as these instructions, is_rldicr with either record bit |
| `PpcPatch.SequenceRecognised` | src/cpu/ppc/vm/macroAssembler_ppc.inline.hpp:157-171 | is_load_const_at accepts exactly the five words of which the processor decodes the first four or five as one of the two patterns |
| `PpcPatch.JoinChunks` | src/cpu/ppc/vm/macroAssembler_ppc.cpp:310-327 | four 16-bit chunks joined as get_const joins them are the signed 64-bit constant |
| `PpcPatch.PatchedConstant` | src/cpu/ppc/vm/macroAssembler_ppc.cpp:310-348 | on every sequence is_load_const_at recognises, patch_const keeps it recognised, get_const then returns the new constant, the upper half of every word is unchanged, and patching again forgets the first |
| `PpcPatch.PatchIsReload` | src/cpu/ppc/vm/macroAssembler_ppc.cpp:310-348 | a load_const sequence is recognised, yields its constant, and patching it gives word for word the sequence load_const emits for the new constant |
| `PpcPatch.PatchConst` | src/cpu/ppc/vm/macroAssembler_ppc.cpp:332-348 | rewrites exactly the words of the sequence in the code buffer, in place |
| `PpcPatch.PatchedLoads` | src/cpu/ppc/vm/macroAssembler_ppc.cpp:332-348 | running a load_const sequence after it was patched leaves the new constant in d, from every state, with every other register but the temporary unchanged |
| `PpcBytes.GetU2Value` | src/cpu/ppc/vm/bytes_ppc.hpp:49-54 | get_native_u2 is the byte-wise value in both builds at both alignments |
| `PpcBytes.GetU4Value` | src/cpu/ppc/vm/bytes_ppc.hpp:56-68 | get_native_u4 is the byte-wise value in both builds at every alignment; every machine load it makes is aligned |
| `PpcBytes.GetU8Value` | src/cpu/ppc/vm/bytes_ppc.hpp:70-91 | the same for get_native_u8 and its four cases |
| `PpcBytes.ValueOfDigits` | src/cpu/ppc/vm/bytes_ppc.hpp:49-144 | the bytes stored for a number stand for that number, in both orders and at every width |
| `PpcBytes.DigitsOfValue` | src/cpu/ppc/vm/bytes_ppc.hpp:49-144 | and the number read from any bytes is stored as those bytes |
| `PpcBytes.DigitOfPart` | src/cpu/ppc/vm/bytes_ppc.hpp:103-144 | the bytes of a shifted and truncated piece are the bytes of the whole number at its place |
| `PpcBytes.Concatenated` | src/cpu/ppc/vm/bytes_ppc.hpp:56-91 | adjacent byte ranges make up the number whose high and low pieces are their numbers |
| `PpcBytes.ChainValue` | src/cpu/ppc/vm/bytes_ppc.hpp:74-90 | the OR of shifted pieces is the number they make up |
| `PpcBytes.PutNativeU2` | src/cpu/ppc/vm/bytes_ppc.hpp:95-101 | exactly the two bytes at p change, and they hold x in the byte order of the build |
| `PpcBytes.PutNativeU4` | src/cpu/ppc/vm/bytes_ppc.hpp:103-118 | the same for four bytes at every alignment; every machine store is aligned |
| `PpcBytes.PutNativeU8` | src/cpu/ppc/vm/bytes_ppc.hpp:120-144 | the same for eight bytes |
| `PpcBytes.GetAfterPut` | src/cpu/ppc/vm/bytes_ppc.hpp:49-144 | a load where a number was stored gives the number |
| `PpcBytes.NarrowGet` | src/cpu/ppc/vm/bytes_ppc.hpp:49-144 | a shorter load anywhere inside a stored number gives the part of the number at that place |
| `PpcBytes.PutBack` | src/cpu/ppc/vm/bytes_ppc.hpp:49-144 | storing what was read changes nothing |
| `PpcBytes.DigitsOfReverse` | src/cpu/ppc/vm/bytes_ppc.hpp:148-154 | the little-endian bytes of the swapped number are the big-endian bytes of the number |
| `PpcBytes.ReverseTwice` | src/cpu/ppc/vm/bytes_ppc.hpp:45-47 | swapping twice is the identity |
| `PpcBytes.StoredReversed` | src/cpu/ppc/vm/bytes_ppc.hpp:152-154 | storing the swapped number little-endian is storing the number big-endian |
| `PpcBytes.JavaU2Value` | src/cpu/ppc/vm/bytes_ppc.hpp:148-148 | get_Java_u2 is the big-endian value in both builds |
| `PpcBytes.JavaU4Value` | src/cpu/ppc/vm/bytes_ppc.hpp:149-149 | get_Java_u4 is the big-endian value in both builds |
| `PpcBytes.JavaU8Value` | src/cpu/ppc/vm/bytes_ppc.hpp:150-150 | get_Java_u8 is the big-endian value in both builds |
| `PpcBytes.PutJavaU2` | src/cpu/ppc/vm/bytes_ppc.hpp:152-152 | put_Java_u2 stores big-endian in both builds and changes no other byte |
| `PpcBytes.PutJavaU4` | src/cpu/ppc/vm/bytes_ppc.hpp:153-153 | put_Java_u4 stores big-endian in both builds and changes no other byte |
| `PpcBytes.PutJavaU8` | src/cpu/ppc/vm/bytes_ppc.hpp:154-154 | put_Java_u8 stores big-endian in both builds and changes no other byte |
| `MxDeps.DepList.Visit` | mxtool/mx.py:289-309 | one call of _all_deps_helper, or of all_deps on a library: extends a closed list to a closed list by entries reachable from this one, none of those being worked on, which AllDeps says on the entries of the suite; its outcome is that of the recursion of the source, which never ends exactly for the outcome LibraryCycle |
| `MxDeps.DepList.AllDeps` | mxtool/mx.py:282-309 | on every suite: succeeds if and only if nothing reachable is on a cycle or has a bad child, and then extends the list to a duplicate-free one with dependencies before dependants by exactly the entries reachable under the include flags; the recursion of the source goes on for ever if and only if the outcome is LibraryCycle and otherwise ends with this outcome and list; where nothing else is wrong it aborts if and only if a project cycle is reachable, and goes on for ever if and only if a library cycle is. On the entries themselves, without the graph: every listed entry comes after all listed kinds of entries that stand in its dependencies or, when these are followed, its annotation processors; what is added is the entry itself or stands so in that of another |
| `MxDeps.ClosedNamed` | mxtool/mx.py:294-309 | a list closed in the graph is one in which every entry comes after the wanted entries it names, and names only other existing entries, a library only libraries |
| `MxDeps.ReachedNamed` | mxtool/mx.py:294-309 | everything that is reached stands in the entry of something reached before it |
| `MxDeps.FaultyNamed` | mxtool/mx.py:299-301 | an entry ends the walk exactly when it names itself, an unknown entry or, being a library, something that is not one |
| `MxDeps.ProcessorsFirst` | mxtool/mx.py:294-296 | the annotation processors of a project, with all they need, are listed before its dependencies |
| `MxDeps.OutcomeExact` | mxtool/mx.py:289-309 | where only one thing can be wrong, the outcome says exactly whether it is |
| `MxDeps.EndedStays` | mxtool/mx.py:289-309 | a recursion that has ended at some depth gives the same at every greater depth |
| `MxDeps.LibraryRuns` | mxtool/mx.py:728-744 | once the walk comes back to a library being worked on, it is at every depth still running |
| `MxDeps.LibraryCycleEndless` | mxtool/mx.py:728-744 | Library.all_deps has no cycle test, so a cycle of libraries is followed for ever |
| `MxDeps.TwoLibraries` | mxtool/mx.py:728-744 | two libraries that name each other, as a concrete suite on which the recursion never ends |
| `MxDeps.ListedAreSound` | mxtool/mx.py:289-309 | with all children of an entry in a closed list, nothing reachable from the entry is faulty or on a cycle, and all of it but the entry itself is in the list |
| `MxDeps.AppendOrdered` | mxtool/mx.py:728-744 | appending an entry after its children keeps the list closed and ordered |
| `MxDeps.StackCycle` | mxtool/mx.py:290-293 | an entry met again among its dependants is on a cycle |
| `MxDeps.DepList.SortedProjectDeps` | mxtool/mx.py:1629-1633 | one list for several projects: succeeds if and only if each would, and holds exactly what any of them reaches |
| `MxDistances.DistanceTable.Relax` | mxtool/mx.py:311-318 | one call of the recursive relaxation on an acyclic graph: it ends with the table of the recursion followed to a depth bounded by the graph, every distance is that of a real path, and every edge outside the current chain is relaxed |
| `MxDistances.DistanceTable.FromRoot` | mxtool/mx.py:311-318 | the table has exactly the reachable names, each with the length of the longest path to it |
| `MxDistances.RelaxedMeansAcyclic` | mxtool/mx.py:311-318 | a fully relaxed table exists only without cycles |
| `MxDistances.EndedSettles` | mxtool/mx.py:311-318 | on any graph, cyclic or not, a recursion that ends has relaxed every edge of every name whose distance it changed |
| `MxDistances.DepthSuffices` | mxtool/mx.py:311-318 | on an acyclic graph the recursion is never deeper than the number of projects and two |
| `MxDistances.EndsIffAcyclic` | mxtool/mx.py:311-318 | the recursion ends if and only if no cycle can be reached |
| `MxDistances.PathBound` | mxtool/mx.py:311-318 | in a relaxed table a distance bounds the length of every path |
| `MxDistances.Exact` | mxtool/mx.py:311-318 | witnessed and relaxed distances are the longest ones |
| `MxDistances.LongestOne` | mxtool/mx.py:320-332 | distance 1 means a direct dependency that no longer path leads to |
| `MxDistances.LongestStartsCanonical` | mxtool/mx.py:320-332 | the first step of a longest path is a canonical dependency |
| `MxDistances.CanonicalReduces` | mxtool/mx.py:320-332 | canonical dependencies are the transitive reduction: they still reach all that is reachable, and none is reachable from another |
| `MxDistances.CanonicalDeps` | mxtool/mx.py:320-335 | canonical_deps returns exactly the canonical dependencies |
| `MxDistances.MaxDepth` | mxtool/mx.py:337-343 | max_depth is the length of a longest path from the project, and no path is longer |
| `MxBuild.TaskDeps` | mxtool/mx.py:2554-2560 | the task waits for exactly the tasks of projects in its closure, and has a reason to be rebuilt if and only if there is one |
| `MxBuild.SettleAdd` | mxtool/mx.py:2630-2634 | a new task changes nothing that was decided for the projects before it |
| `MxBuild.MakeTasks` | mxtool/mx.py:2529-2634 | a project gets a task if and only if it is compiled, has sources, and is, or depends however indirectly and through skipped projects on, a compiled project with sources that is forced or stale; each task waits for exactly the tasks in its closure; the task graph is ordered, hence acyclic. On the entries themselves: a compiled project with sources gets a task, and waits for it, when one of its dependencies or annotation processors has one |
| `MxBuild.ClosedForm` | mxtool/mx.py:2554-2624 | the set of tasks, built by asking which dependencies already have one, in terms of the inputs alone |
| `MxBuild.TasksAcyclic` | mxtool/mx.py:2529-2634 | no task waits for itself through others |
| `MxScheduler.InitInv` | mxtool/mx.py:2685-2689 | the invariant of the scheduler holds at the start |
| `MxScheduler.ExitKeepsInv` | mxtool/mx.py:2644-2661 | a process that exits at any point of the loop, with any code, keeps the invariant |
| `MxScheduler.MainKeepsInv` | mxtool/mx.py:2689-2725 | every step of the main thread keeps it, for every order sortWorklist may give |
| `MxScheduler.RunInv` | mxtool/mx.py:2642-2727 | it holds in every state of every interleaving |
| `MxScheduler.RunSafety` | mxtool/mx.py:2689-2725 | in every interleaving: at most cpus processes run, the worklist is exactly the tasks not started and has no duplicates, and a started task has only dependencies that exited |
| `MxScheduler.StartsOnce` | mxtool/mx.py:2715-2721 | a task starts at most once and keeps its exit code |
| `MxScheduler.StartsOverFailure` | mxtool/mx.py:2709-2713 | a concrete run in which a task is started although its dependency failed: depsDone accepts any exit code |
| `MxRuns.SafeStartsExact` | mxtool/mx.py:2689-2725 | over all configurations and all orders of the worklist: no run ever starts a task over a failed dependency if and only if there is one processor only or no task waits for another |
| `MxRuns.OneProcessorSafe` | mxtool/mx.py:2689-2725 | with one processor every failure has been seen before the next start |
| `MxRuns.StartOverFailed` | mxtool/mx.py:2689-2725 | with two processors, from any state in which all dependencies but one succeeded and that one runs, a run on which it fails during the pass and the task starts |
| `MxRuns.CheckCalm` | mxtool/mx.py:2653-2661 | checkTasks drops what has succeeded and keeps what is alive, on a run that is constructed |
| `MxRuns.PassCalm` | mxtool/mx.py:2715-2723 | a pass on that run comes to its end and starts every task without dependencies that it looks at |
| `MxScheduler.BuildOutcome` | mxtool/mx.py:2727-2731 | when the build ends nothing runs, the reported failures are exactly the tasks that exited with another code than 0, and there are none if and only if every task ran and exited with 0 |
| `MxScheduler.SomeReady` | mxtool/mx.py:2709-2713 | with nothing running, some waiting task has all its dependencies done |
| `MxScheduler.PassConserves` | mxtool/mx.py:2715-2723 | a pass only moves tasks from the worklist to the tracked ones |
| `MxScheduler.PassStartsSomething` | mxtool/mx.py:2715-2723 | a pass that begins with nothing tracked starts at least one task, although removing from the list it iterates over makes it skip elements |
| `MxPasses.FirstReadyStarts` | mxtool/mx.py:2689-2723 | in every endless run in which the main thread goes on, for any order of the worklist: with no failure and fewer tracked processes than processors, the first waiting task whose dependencies are done is started in the pass that follows, unless some process exits meanwhile; the loop does not go back to waiting before that |
| `MxPasses.PassStartsHalf` | mxtool/mx.py:2715-2723 | whatever exits meanwhile, at the end of a pass all processors are busy or at least as many tasks were started as are left waiting that could have started when it began |
| `MxPasses.PrefixKept` | mxtool/mx.py:2715-2723 | what a pass has gone past stays as it is until its end |
| `MxPasses.SkipsNext` | mxtool/mx.py:2715-2717 | removing a started task from the list being walked makes the pass skip the task after it, which is still waiting at the end of the pass |
| `MxScheduler.NeverStuck` | mxtool/mx.py:2689-2727 | before the end some step is always possible |
| `MxScheduler.ExitShrinks` | mxtool/mx.py:2644-2651 | every exit lowers the count of starts and exits to come |
| `MxScheduler.StepWork` | mxtool/mx.py:2689-2727 | no step raises that count, and every start lowers it |
| `MxScheduler.EventsBounded` | mxtool/mx.py:2689-2727 | in every run there are at most two starts and exits for each task |
| `MxScheduler.QuietStepsTerminate` | mxtool/mx.py:2689-2731 | with no process running, every step of the main thread comes closer to the next start or the end, by a well-founded measure |
| `MxRuns.WorkFalls` | mxtool/mx.py:2689-2727 | along an endless run the count of starts and exits to come never rises |
| `MxRuns.FairRunEnds` | mxtool/mx.py:2689-2731 | every endless run in which each process exits some time and the main thread goes on reaches the end of the build |
| `MxParallel.Prepare` | mxtool/mx.py:2529-2689 | what task construction hands to the scheduler meets all the scheduler relies on |
| `MxParallel.CompiledInOrder` | mxtool/mx.py:2529-2725 | from the suite to the processes: in every state of every run, a project whose compilation has started depends, however indirectly, on no project to rebuild whose compilation has not ended |
| `MxParallel.RebuiltAll` | mxtool/mx.py:2529-2731 | a build that ends without reporting a failure has compiled with success exactly the projects that are, or depend however indirectly on, a compiled project with sources that is forced or stale |
| `PsMaps.WrappedHoldsNothing` | agent/src/os/linux/ps_core.c:171-171 | a map whose end wraps around the address space holds no address |
| `PsMaps.CandidateIsLast` | agent/src/os/linux/ps_core.c:152-169 | what the binary search aims at: the last map starting at or below the address |
| `PsMaps.SearchComplete` | agent/src/os/linux/ps_core.c:152-174 | looking only there finds a containing map for every address that has one if and only if no map is shadowed by a shorter one starting later |
| `PsMaps.ShadowHides` | agent/src/os/linux/ps_core.c:152-174 | an address that a shadowed map contains and the search misses |
| `PsMaps.SearchAgrees` | agent/src/os/linux/ps_core.c:152-174 | on disjoint maps the search gives what a linear search of the list gives |
| `PsMaps.LinearIsFirst` | agent/src/os/linux/ps_core.c:177-195 | normal maps first and class share maps after them is a search of the joined list |
| `PsMaps.LookupIsFirst` | agent/src/os/linux/ps_core.c:152-196 | with an index of separate maps a lookup finds what a search of both lists in a row finds |
| `PsCore.CoreData.AddMapInfo` | agent/src/os/linux/ps_core.c:121-134 | adds to the front of the list; the index is stale then, and when it was fresh with at least two maps a lookup reads past its end exactly for addresses from the start of its last map on |
| `PsCore.CoreData.AddClassShareMapInfo` | agent/src/os/linux/ps_core.c:137-148 | a fresh index stays fresh; lookups change exactly for addresses in the new map for which the index has no answer, and those find the new map |
| `PsMaps.QSort` | agent/src/os/linux/ps_core.c:405-446 | sorts by address and permutes |
| `PsCore.CoreData.SortMapArray` | agent/src/os/linux/ps_core.c:419-459 | the index is a sorted permutation of the map list afterwards |
| `PsMaps.Search` | agent/src/os/linux/ps_core.c:152-169 | the binary search in an index said to have more entries than it has: it stays inside if and only if the index is long enough or the last place it looks at in time starts above the address, and then finds the last map starting at or below it |
| `PsMaps.OneMissing` | agent/src/os/linux/ps_core.c:152-169 | with one map added since the index was built, it stays inside exactly below the start of the last map of the index |
| `PsMaps.InsideStep` | agent/src/os/linux/ps_core.c:156-163 | one step of the search decides whether the rest of it stays inside |
| `PsCore.CoreData.Lookup` | agent/src/os/linux/ps_core.c:152-196 | in every state, stale index or none included: says exactly when the search reads outside the index; otherwise the result is the last map of the index starting at or below the address if that contains it, and else the first class share map that does; with a fresh index of disjoint maps that is the result of linear search |
| `PsImage.SameMap` | agent/src/os/linux/ps_core.c:465-513 | the map found for an address is the one for all that a read takes from it, and where the read fills in zeros there is no map |
| `PsImage.RoundImage` | agent/src/os/linux/ps_core.c:469-504 | on layered maps the image is, up to the end of the last page of the map found, what a round of the read loop gives as far as the file goes |
| `PsImage.OneRound` | agent/src/os/linux/ps_core.c:469-504 | on any maps, layered or not: a read within the pages of the map found for its start succeeds and gives that map, file bytes and then zeros, whatever other maps there are |
| `PsImage.RoundIsImage` | agent/src/os/linux/ps_core.c:469-504 | on layered maps a round whose bytes the file has is a piece of the image, and ends the read or a page |
| `PsImage.ReadingComplete` | agent/src/os/linux/ps_core.c:465-513 | where the image is, the loop puts it together across any number of maps |
| `PsImage.ReadingExact` | agent/src/os/linux/ps_core.c:465-513 | on layered maps, however short the files: a read succeeds and gives the image if and only if it is empty or starts in a map and every byte of it has an image |
| `PsImage.HonestExact` | agent/src/os/linux/ps_core.c:484-503 | on layered maps every read that succeeds gives the image if and only if no read can come to the last file byte of a map that ends in a fraction of a page after the end of its file |
| `PsImage.ShortIsWrong` | agent/src/os/linux/ps_core.c:484-503 | two bytes at the end of the file of such a map: the read succeeds, and the second byte is a zero filled in where the file stopped |
| `PsImage.ShortFails` | agent/src/os/linux/ps_core.c:484-503 | otherwise a file that ends too early makes the read fail |
| `PsImage.CoveredNoShort` | agent/src/os/linux/ps_core.c:484-503 | maps that lie wholly inside their files meet the condition |
| `PsImage.LayeredExact` | agent/src/os/linux/ps_core.c:465-513 | with the class share maps in a file of their own: every read that succeeds gives the image, normal maps first, whatever the files hold, if and only if no normal map starts where a read of a share map goes on and no share map has bytes where a read of a normal map fills in zeros |
| `PsImage.CutIsWrong` | agent/src/os/linux/ps_core.c:480-489 | files and a read that succeeds with another byte than the image: a chunk of a share map runs past the start of a normal map inside it |
| `PsImage.TailIsWrong` | agent/src/os/linux/ps_core.c:491-503 | files and a read that succeeds with another byte than the image: zero filling of a normal map hides bytes of a share map |
| `PsImage.DisjointLayered` | agent/src/os/linux/ps_core.c:465-513 | maps that share no page at all meet the condition |
| `PsImage.BoundaryImage` | agent/src/os/linux/ps_core.c:465-513 | at a page boundary there is an image only where there is a map |
| `PsCore.CoreData.ReadFrom` | agent/src/os/linux/ps_core.c:469-504 | one round of the loop, on any maps and files: appends exactly the round to the buffer, moves address and count by its length, and stops exactly when the file gives nothing |
| `PsCore.CoreData.FillTail` | agent/src/os/linux/ps_core.c:491-503 | appends exactly the zeros up to the end of the request or of the fraction of a page, and nothing else |
| `PsCore.CoreData.ReadData` | agent/src/os/linux/ps_core.c:465-513 | always ends; on any maps and files the buffer gets exactly the bytes of the rounds in a row, nothing behind them is written, and the read succeeds if and only if they are as many as asked for; on layered maps it succeeds with the image if and only if the range is empty or starts in a map and every byte has an image, and success means the image unless it can come to the end of a file too short for its map |
| `PsProc.AlignRoundsDown` | agent/src/os/linux/ps_proc.c:46-48 | masking rounds down to the word boundary |
| `PsProc.PeeksOverlap` | agent/src/os/linux/ps_proc.c:59-106 | for a non-empty range the words peeked at are exactly the aligned words that overlap it |
| `PsProc.CopyBytes` | agent/src/os/linux/ps_proc.c:73-76 | copies from inside a word up to its end or the end of the range |
| `PsProc.ReadWord` | agent/src/os/linux/ps_proc.c:82-104 | one aligned word: peeked at once, copied whole or up to the end of the range |
| `PsProc.ReadData` | agent/src/os/linux/ps_proc.c:59-106 | for every address, size and alignment without wrap-around: succeeds if and only if every word that overlaps the range can be read (and the word around an unaligned address of an empty range); the buffer then holds the bytes of the range; words are peeked at once each in ascending order, up to the first that fails; nothing past the requested size is written |
| `Crc.FeedByte` | agent/src/os/linux/symtab.c:125-128 | eight bit-serial steps with the bits of a byte are eight shifts of the register with the byte added in first |
| `Crc.LowByteDecides` | agent/src/os/linux/symtab.c:125-128 | of the register only the low byte takes part in the division, the rest moves down |
| `Crc.ShiftNLinear` | agent/src/os/linux/symtab.c:125-128 | the register shift is linear |
| `CrcTable.TableCorrect` | agent/src/os/linux/symtab.c:68-122 | all 256 table entries are the index shifted through the register eight times |
| `CrcTable.TableStepCorrect` | agent/src/os/linux/symtab.c:127-127 | one table step is the eight bit steps of section 8 of RFC 1952 |
| `CrcTable.GnuDebuglinkCrc32` | agent/src/os/linux/symtab.c:65-129 | the table-driven function is the bitwise CRC-32 update on every byte string and every starting value; LeadingZeroCounts and Residue say what the inversions before and after are for |
| `CrcTable.LeadingZeroCounts` | agent/src/os/linux/symtab.c:125-128 | a zero byte in front of any message changes its checksum |
| `CrcTable.Residue` | agent/src/os/linux/symtab.c:125-128 | any message followed by four bytes, lowest first, has the checksum 0x2144DF1C if and only if the four bytes are the CRC-32 of the message |
| `CrcTable.FeedChecksum` | agent/src/os/linux/symtab.c:126-127 | feeding the four bytes of a number is adding it to the register and shifting 32 times |
| `Crc.UpdateAppend` | agent/src/os/linux/symtab.c:65-129 | feeding two pieces one after the other is feeding their concatenation |
| `CrcTable.ChecksumMatches` | agent/src/os/linux/symtab.c:133-160 | however read() cuts the file up, the file is accepted if and only if the CRC-32 of what was read, as one message, is the expected one, the CRC-32 being pinned down by Residue |
| `Crc.StepInjective` | agent/src/os/linux/symtab.c:127-127 | a step is injective in the register |
| `CrcTable.ByteInjective` | agent/src/os/linux/symtab.c:127-127 | a step is injective in the byte |
| `Crc.FeedInjective` | agent/src/os/linux/symtab.c:126-127 | so is any number of steps in the register |
| `Crc.FeedPacked` | agent/src/os/linux/symtab.c:126-127 | up to 32 bits act as one number added to the register |
| `Crc.FeedStream` | agent/src/os/linux/symtab.c:126-127 | feeding bytes is feeding their bits one by one, lowest first |
| `Crc.BurstDetected` | agent/src/os/linux/symtab.c:65-129 | two inputs of any length that differ only inside 32 consecutive bits, at any bit position, never have the same checksum |
| `Crc.BytesDetected` | agent/src/os/linux/symtab.c:65-129 | in particular when they differ only inside four consecutive bytes |

## Left out

- PsCore.CoreData.AddMapInfo: allocation does not fail, and the maps that `read_lib_segments` rewrites in place are not modelled.
- PsCore.CoreData.ReadData: needs a fresh index of at least one map, since a lookup without one can read outside it, as PsMaps.Search says; what the bytes mean is said for normal maps that share no page with each other, and share maps likewise.
- PsImage.Pread: returns all that the file has of the request; a `pread` that returns fewer bytes although more exist is not modelled, and files do not change during a read.
- PsMaps.QSort: stands for the C library's qsort, of which callers only get a sorted permutation.
- PsProc.ReadData: words of eight bytes and ranges that do not wrap around the address space; ptrace is a map from addresses to words that does not change during the read.
- CrcTable.ChecksumMatches: opening, seeking and closing the file are left out; read() is the list of its results.
- PpcBytes.Reverse: the byte swaps of the little-endian build come from the C library and are byte reversal by definition here.
- MxBuild.MakeTasks: what the file system says of a project is an input; native builds, copying of resources, Jasmin files, the `--only` mode and sequential builds are left out.
- MxDeps.DepList.AllDeps: the annotation processors of a project are an input, and entries are told apart by name, while libraries of different names can be equal in the source when they share path and URLs or the jar.
- MxDistances.CanonicalDeps: needs an acyclic graph, since the recursion of the source ends on no other; returns a set; the source returns the declared list when it has the same elements.
- MxScheduler.MainKeepsInv: any order of the worklist is allowed at any time, so the comparison by remaining depth and work is left out; sleeping is a step without effect; a compile process is only its exit code.
- MxRuns.SafeStartsExact: the run that starts a task over a failure picks the order of the worklist; whether the heuristic of sortWorklist ever gives that order is not modelled.
- PpcAccess.LoadRoc: addressing that goes past a page, alignment interrupts and traps are not part of the machine.
- PpcBranch.PatchRoundTrip: the AA bit of absolute branches has no meaning to the source either and is only kept.
- `andi` and the remaining mnemonics of the assembler: one-line encoders that would repeat the field theorems.
- Cache flushing and concurrent execution of code while it is patched.
- Inline caches (`compiledIC_ppc.cpp`) and the bytecode interpreter wrappers: they rest on code outside these files or on single expressions.
- ELF parsing, `read_lib_segments`, thread and JNI glue of the agent, and its BSD and macOS twins.
- Distributions, archives, IDE configuration, downloads and command-line chunking in mx.
