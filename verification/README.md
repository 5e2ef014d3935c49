# vpoline in Dafny

vpoline intercepts system calls on RISC-V by rewriting the code of a running
process. Every `ecall` in glibc becomes `jalr gp, gp, 0`. The global pointer is
moved into an execute-only shadow page, where that jump finds a trampoline into
`asm_syscall_hook`; one of three return paths just below the relocated gp leads
back. The data accesses that the moved gp breaks are repaired by a SIGSEGV
handler. This project models those parts on a small RV64 machine and proves that
the program does not notice.

`dafny verify dfyconfig.toml` checks the project.

## How the model is built

- **Machine** (`Bits`, `Isa`, `AccessBytes`, `Encoding`). 32 integer and 32 float registers, pc, byte
  memory; addresses are naturals modulo 2^64. `Isa` is the reference: the
  decoder and the meaning of the loads, stores and integer instructions used
  here follow The RISC-V Instruction Set Manual, Volume I: Unprivileged ISA,
  version 20191213, sections 1.5, 2.2 to 2.6, 5.2, 5.3, 11.5, 12.2, 12.3
  and 16.3. `AccessBytes` says byte by byte what its loads and stores move, and
  `Encoding` reads back through its decoder what an encoder assembles field by
  field.
- **Code generator** (`Patcher`, `Trampoline`). The two functions of
  `src/patcher.c` fill word arrays. Their contracts say what the reference
  decoder reads back, and `Trampoline` runs the result.
- **One interception** (`HookCode`, `HookPath`, `Interception`, `Sigreturn`).
  The 98 instructions of `asm_syscall_hook` are a listing. `AtLoc` describes
  registers, frame slots and decisions at each of the 132 instructions between
  the patched call and the return to it, and each instruction is proved to lead
  from one description to the next.
- **The original program** (`Program`, `Original`, `SpecLaws`). Any number of threads over
  one memory, a kernel that may answer and write in any way, may create threads
  and may end them, and optionally an interposer that answers calls or writes
  user memory. `SpecLaws` says what that system is without its own definitions:
  register numbers written out, and stack bytes hidden or not by what the run did.
- **The patched system** (`Patched`). The same threads in the rewritten text,
  interleaved instruction by instruction through the trampoline, the assembly,
  the hooks (which may themselves make intercepted calls, to any depth) and the
  return paths. An ecall that the rewriting has not visited goes to the kernel
  directly.
- **The proof** (`Refinement`, `Steps`, `Clone`, `Theorems`, `Completeness`,
  `Safety`, `Reentry`, `Children`). A relation between the two systems, kept by
  every action, gives the results about whole runs in both directions. `Reentry`
  shows how free a hook is and that hooks really nest, `Children` where a new
  thread begins.
- **The text** (`Sweep`, `Rewriting`). The sweep over the bytes of libc, and that
  the operations of the program model are what the processor, with the fault
  handler behind it, fetches from the bytes in memory: those the sweep leaves, and
  the main program's, which it is not given.
- **The rest of the library** (`Handler`, `Layout`, `NoIntercept`, `Setup`,
  `Example`). The fault handler against the ISA, the geometry of the shadow page,
  `syscall_no_intercept`, the state initialisation leaves, and a program that
  meets every assumption.

## What the results assume

`MatchingRun` turns a run of the patched system into one run of the original
program: the same program steps, system calls, answers and writes, without the
instructions of the interception path. `OkAlong` asks the following of the
original program in the states of that one run, with whatever the kernel and the
hooks did in it. `RunRefines` does without: the patched system follows the
original up to the first state of that run in which the original breaks one of
these.

- gp is used only as the base of loads and stores: no access loads or stores gp
  itself, and every other operation leaves gp alone and does the same whichever gp
  it is given (`GpOnlyBase`, `GpUnused`).
- Accesses relative to gp stay in the page gp points into. With pages of 4096 bytes
  and gp at offset 2048 this holds by itself along every run (`GpClauseAlong`);
  `DisplacementsStayInPage` has the exact condition.
- Threads keep sp inside their stacks with 304 free bytes at a rewritten system
  call, and never read stack bytes that have been below sp since they were last
  written. New threads get stacks of their own.
- Loads and stores avoid vpoline's own memory and the rewritten text (`own`), and
  stores avoid the other code. No stack reaches into the first 304 bytes of the
  address space.
- The calls are not rt_sigreturn (see below).
- Hooks keep the calling convention of the RISC-V ELF psABI: callee-saved
  registers, gp, and everything at and above their sp, except that they may
  write the program's visible memory, which the specification then shows as a
  write by the interposer.
- For the step from bytes to operations: an instruction that is executed is a
  visited ecall, lies in the swept text with none of its bytes changed (`Intact`),
  or lies outside the swept text (`Unswept`); `InstructionKeptIff` has the exact
  condition.

`Example.Boot` starts a main program that copies a variable relative to gp, makes
a system call of its own and calls a function of libc, which opens a frame, saves
its return address there, makes a system call, reloads the address and returns. It
meets all of these on every run in which kernel and hooks spare the saved return
address.

## Where the code differs from its documentation

- `src/main.h:68-73` speaks of a one- or two-page area. For a gp less than 56
  bytes into its page, `src/utils.c:88` still puts the relocated gp into the
  first page, and the return sequence begins before the mapping
  (`ReturnSequenceOutside`). `LayoutSafeIff` gives the exact condition.
- `src/main.c:250-255` says t0 to t3 and sp have to be restored for rt_sigreturn,
  but the normal path of `src/patcher.c:129-132` executes `ecall` first.
  `SigreturnReachesKernel` runs that call: the kernel finds sp 304 lower, and in t0
  the address of the ecall.
- The LOAD opcode with the reserved funct3 7 is fatal to the handler except when
  rd is x0 (`src/sigsegv_handler.c:49`), and the reserved C.LWSP and C.LDSP with
  rd x0 are stepped over. `SegfaultHandler` states both.
- A second sweep of the same text need not be harmless: a failed decode in front
  of an ecall may succeed after the rewriting. `SecondSweepMayDiffer` has an
  image, `SecondSweepSameBoundaries` and `SecondSweepChangesNothing` the exact
  conditions.
- Comments name the patched instruction `JALR GP, GP, A0` and `JALR GP, A7, 0`
  (`src/main.c:410`, `src/main.c:691`); the word written is `jalr gp, gp, 0`.

## Model

| member | source | states |
|---|---|---|
| `Theorems.RunRefines` | src/main.c:85-288 | every run of the patched system, with any threads, interleaving, hooks and kernel, follows its matching run of the original program until its end or until that program reaches, on this very run, a state in which it breaks the conventions, use of gp as data included; no other hypothesis |
| `Theorems.PatchedRefinesInterposed` | src/main.c:85-288 | where the matching run keeps the conventions, both end with the same log of requests and answers; threads in program code have the same pc and registers but gp, and memory agrees wherever the program may look |
| `Theorems.ForwardingPreservesMeaning` | src/main.c:270-288 | with hooks that only forward, or none, the matching run is one of the original program alone |
| `Completeness.OriginalIsFollowed` | src/main.c:85-261 | conversely, every run of the original program that keeps the conventions is followed by a run of the patched system in which hooks only forward, ending related to it with every thread back in program code |
| `Theorems.StepRefines` | src/main.c:85-288 | every action of the patched system is one action of the specification or none |
| `SpecLaws.HiddenLaw` | src/patcher.c:56 | in every state of every run of the original program, a stack byte is hidden from it if and only if it has been below some thread's sp since the program, the kernel or the interposer last wrote it |
| `SpecLaws.ConventionsMet` | src/patcher.c:56-60 | the conventions ask nothing more of a thread than the listed conditions on gp, sp, its number and the bytes it touches |
| `SpecLaws.KernelIsFree` | src/patcher.c:128-138 | at any system call of the original program the kernel may answer anything, write whatever the program can reach, end the thread and, for 220 and 435, create one on any free stack |
| `SpecLaws.SystemCallAnswered` | src/patcher.c:128-139 | after it, register by register, the thread has the reply in a0 and nothing else changed; a child has a0 zero, its sp and tp and the rest from its parent; memory has the kernel's writes, and the log the number in a7 with a0 to a5 |
| `SpecLaws.InterposerAnswered` | src/main.c:285-287 | an answer of the interposer is that reply in a0, with no other register, thread or byte of memory changed, and the same request in the log |
| `SpecLaws.BlindToGp` | src/main.c:676-681 | an operation that keeps gp and does the same to the other registers and pc with the relocated gp is among those the conventions allow |
| `Rewriting.StepsAreFetched` | src/main.c:429-446 | in every reachable state, at a visited ecall, an intact instruction of the swept text or any instruction of unswept code, a thread enters the path exactly where it fetches `jalr gp, gp, 0` from memory, calls the kernel unseen exactly where it fetches an ecall, and otherwise does what the fetched instruction, or the handler on a fault, does to registers and memory |
| `Rewriting.RunIsFetched` | src/main.c:429-446 | a whole run of the patched system through such instructions is, step by step of program code, a run of the machine over the bytes in memory |
| `Rewriting.SiteFetchesJump` | src/main.c:439-441 | at every ecall the sweep visits, the processor fetched an ecall before and fetches `jalr gp, gp, 0` after |
| `Rewriting.IntactFetched` | src/main.c:429-446 | an instruction none of whose bytes is changed is fetched as before |
| `Rewriting.UnsweptFetched` | src/main.c:482-528 | code outside the swept mapping is fetched as it was |
| `Rewriting.InstructionKeptIff` | src/main.c:439-441 | an instruction's bytes survive the sweep if and only if none of them is among the first three of a visited ecall |
| `Rewriting.HandlerCarriesOutAccess` | src/sigsegv_handler.c:222-368 | for a fault on the shadow page the handler's result is the redirected access of the program model |
| `Rewriting.GpAccessesCovered` | src/sigsegv_handler.c:243-263 | with gp 2048 bytes from both ends of its page, every byte of an aligned gp-relative access is in the data page and is what its shadow address is redirected to |
| `Rewriting.GpClauseHolds` | src/main.c:592-598 | with pages of 4096 bytes and gp at offset 2048, whatever gp-relative load or store is fetched falls into gp's page |
| `Rewriting.GpClauseAlong` | src/main.c:592-598 | in that layout the convention about gp-relative accesses follows from the others along every run, gp staying the original program's |
| `Safety.GpStaysRelocated` | src/main.c:98-99 | in every reachable state, gp is the relocated one in every thread's program code and throughout every hook at any depth |
| `Safety.ReturnsToOwnSite` | src/patcher.c:124-139 | in every reachable state, a thread at the last jump resumes just after its own innermost patched call with every register of that caller but a0, memory untouched, the hook having run once and the kernel having been asked once unless the hook answered |
| `Safety.FramesPairwiseDisjoint` | src/patcher.c:56-60 | in every reachable state, no two calls in flight with open frames, nested or of two threads, share a byte of frame; only an answered clone or clone3 has closed its own |
| `Safety.NeverStuck` | src/main.c:211-214 | in every reachable state, a thread on the path can execute its next instruction or its ecall, and none is at the ebreak |
| `Safety.EveryStepAdvances` | src/main.c:85-261 | in every reachable state, the next instruction of a thread on the path, or the kernel's answer, calls the hook or lowers a measure below 220 that is 0 at the last jump |
| `Safety.ExactlyOnce` | src/main.c:105-155 | in every reachable state, for every call in flight: the hook has run once behind its call and not before, the kernel has been asked once if it has replied, and it is about to be asked only for a forwarded call it has not been asked for |
| `Safety.ReturnEntries` | src/main.c:228-248 | the three jumps out of the assembly land 56, 40 and 20 bytes below the relocated gp, on the first word of the path meant for the call |
| `Safety.SpAtKernel` | src/patcher.c:128-138 | in every reachable state, the kernel is about to find the caller's request and, if and only if it is clone or clone3, the caller's sp, otherwise 304 less; 16-byte alignment is kept |
| `Sigreturn.SigreturnReachesKernel` | src/main.c:250-260 | from the patched instruction with number 139 the path never calls the hook and reaches the normal path's ecall with every register of the caller but sp, which is 304 lower, and t0, which holds the address of the ecall, and with memory changed only in the frame |
| `Sigreturn.WalkOn` | src/main.c:85-261 | from any point of the path a single call runs on to the hook call, an ecall or the last jump |
| `HookPath.PathStep` | src/main.c:85-261 | every instruction of trampoline, assembly and return paths leads from the description of its point to that of the next, and writes only inside the 304-byte frame |
| `HookPath.SlotWritten` | src/main.c:116-146 | storing one frame slot changes no other slot and nothing outside the frame |
| `Interception.Enters` | src/main.c:440 | the patched instruction enters the trampoline with the return address in gp and everything else as the caller had it |
| `Interception.HookCalled` | src/main.c:153-155 | the hook gets the caller's arguments, the return address in a6, the relocated gp, and a frame holding the whole caller-saved context |
| `Interception.HookReturned` | src/main.c:270-288 | whatever a conventional hook clobbers, the path goes on with the verdict and a0 that `syscall_hook` computes from the hook's answer |
| `Interception.RequestUnchanged` | src/main.c:179-186 | at either ecall the kernel sees the caller's number and six arguments |
| `Interception.KernelAnswers` | src/patcher.c:129-138 | the kernel's answer is carried on as the caller's a0 |
| `Interception.Returns` | src/patcher.c:139 | the last jump gives back every integer and float register but a0, resumes after the patched call and regenerates the relocated gp |
| `Reentry.HookMayClobber` | src/main.c:109-146 | with register numbers written out: a hook may return in a state if and only if pc is its return address, the callee-saved registers of the psABI, sp, gp and tp are as on entry and a0 and a1 hold the pair for its answer; every other register is free |
| `Reentry.HookIsFree` | src/main.c:270-288 | while it runs, a hook may go to any code off the path, with any registers but gp and sp within its stack, and write the library's data, its own stack and all memory the program can reach |
| `Reentry.ContextSurvivesHook` | src/main.c:175-209 | from a hook at any depth and every state it may return in, whatever its answer, a run of the path and at most one ecall puts its caller just after the patched instruction with every integer and float register but a0, which is the answer |
| `Reentry.NestedCall` | src/main.c:92-155 | a hook at any depth that makes an intercepted call enters the hook one level deeper; when that forwards it and the kernel answers in any way, the outer hook goes on after its call with the same calls in flight and every register but a0 |
| `Reentry.HooksNest` | src/main.c:92-99 | for every n, a hook with n frames of stack left is followed by a run that is n levels deeper |
| `Steps.PathIsUnnoticed` | src/main.c:85-261 | an instruction of the path changes nothing the program or another thread can see |
| `Steps.EnterIsUnnoticed` | src/main.c:440 | nor does entering it, from program code or from a hook |
| `Steps.AccessMatched` | src/sigsegv_handler.c:243-263 | a load or store of the patched program, direct or redirected, has the effect of the original one, gp apart |
| `Steps.ComputeMatched` | src/main.c:676-681 | an operation that leaves gp alone and does not depend on it is the same with the relocated one |
| `Steps.HookRunsMatched` | src/main.c:282 | what a hook does while it runs is at most a write of the interposer into visible memory |
| `Steps.AnswerMatched` | src/main.c:285-287 | a hook that answers the program's call is an answer of the interposer |
| `Steps.ForwardUnnoticed` | src/main.c:277-284 | forwarding, or any verdict on an inner call, is not noticed |
| `Steps.KernelMatched` | src/patcher.c:128-133 | the forwarded ecall is the original program's system call, with the same request, answer and writes |
| `Steps.InnerKernelMatched` | src/patcher.c:128-133 | a system call made inside a hook shows only its visible writes |
| `Steps.UnseenMatched` | src/main.c:434-437 | an ecall the sweep has not visited is the original program's system call |
| `Steps.ExitMatched` | src/patcher.c:128-138 | a thread that the kernel ends at its forwarded call ends in the original program, and its stack is free again |
| `Clone.CloneReadsNoFrame` | src/patcher.c:138-139 | from the clone path's ecall on, the description of a thread does not depend on memory |
| `Clone.CloneBothResume` | src/patcher.c:134-139 | whatever memory holds, parent and child resume at the same place with the caller's full context but for a0 and the child's sp and tp |
| `Clone.CloneMatched` | src/main.c:234-248 | a thread born at an intercepted clone or clone3, with any stack and tp of its own and no room for a frame needed, is the thread the original program would have got |
| `Clone.ForkMatched` | src/main.c:234-248 | a child with its own copy of memory starts related to the original program's child |
| `Children.ChildStartsInProgram` | src/patcher.c:134-139 | a thread born at an intercepted clone or clone3 takes one jump and is in program code just after the patched instruction, with a0 zero, its own sp and tp and every other integer and float register its parent had at the call; the parent has the kernel's reply |
| `Children.UnseenChildStarts` | src/main.c:434-437 | the same at an ecall the sweep has not visited, where the child is in program code at once |
| `Completeness.Drive` | src/main.c:85-261 | a thread on the path runs on by itself until the hook, the kernel or the last jump is due, changing only its frame |
| `Completeness.SyscallFollowed` | src/main.c:85-261 | one system call of the original program, with any answer, writes and child, or one that ends the thread, is followed by a whole interception of it |
| `Trampoline.AddressSynthesisExact` | src/patcher.c:52-96 | for every 64-bit target and every register state, the emitted words leave exactly the target in t0, jump to it (bit 0 cleared) and change only t0 to t3 |
| `Patcher.SplitImmediate` | src/patcher.c:62-70 | both branches and the carry: the lui field has low bits 0 and, with the sign-extended addi field added, gives the value modulo 2^32 |
| `Patcher.EmitImmediate` | src/patcher.c:71-85 | the two encoded words decode to that lui and addi on the given register |
| `Patcher.SetupShadowPageTrampoline` | src/patcher.c:46-97 | all 20 words decode to the trampoline's instructions for the given target |
| `Patcher.SetupReturn` | src/patcher.c:112-139 | all 14 words decode to the three return paths |
| `Setup.InstallShadowPage` | src/main.c:668-674 | both generators written to memory give a page that holds the whole code, and nothing outside 56 bytes below and 80 above gp changes |
| `Setup.SafeLayoutIsValid` | src/utils.c:88-96 | the geometry computed for a safe layout is the one the results about runs ask for |
| `Setup.InitiallyRelated` | src/main.c:658-687 | after initialisation, with the page installed and the rewritten text in memory, the patched system is related to the unpatched program |
| `Example.Boot` | src/main.c:658-687 | there is a system, with a libc function that opens a frame, spills its return address, makes a system call and reloads it, and a main program with gp-relative accesses and an unseen system call, all in bytes, that meets every assumption of the results on every run sparing that address; a run of the original program leads it to the rewritten call |
| `Example.ProgramIsCovered` | src/main.c:429-446 | every instruction of that program is the visited ecall, survives the sweep, or was never swept |
| `Handler.Context.SegfaultHandler` | src/sigsegv_handler.c:222-368 | outside exactly when the address is out of range; resumed exactly for the instructions it supports; then registers, floats, memory and pc are exactly those of the ISA's instruction at the redirected address, and byte by byte what such an access moves, otherwise untouched; the slot shared by pc and x0 ends at the old pc plus the length, a store of x0 writes zeros, a load to x0 changes nothing else |
| `AccessBytes.AccessMovesBytes` | src/sigsegv_handler.c:41-149 | for every load and store of the reference: the bytes of the loaded register are those in memory, lowest first, filled with the sign, zeros or, for a float, ones; a store writes the operand's bytes and no others; nothing else changes |
| `Encoding.DecodeEncode` | src/sigsegv_handler.c:283-314 | every 32-bit load and store, with any registers and any 12-bit displacement, assembled from its fields, is read back |
| `Encoding.DecodeCW` | src/sigsegv_handler.c:324-337 | likewise C.LW and C.SW with every offset |
| `Encoding.DecodeCD` | src/sigsegv_handler.c:324-337 | likewise C.LD, C.SD, C.FLD and C.FSD |
| `Encoding.DecodeLwsp` | src/sigsegv_handler.c:339-350 | likewise C.LWSP |
| `Encoding.DecodeLdsp` | src/sigsegv_handler.c:339-350 | likewise C.LDSP and C.FLDSP |
| `Encoding.DecodeSwsp` | src/sigsegv_handler.c:339-350 | likewise C.SWSP |
| `Encoding.DecodeSdsp` | src/sigsegv_handler.c:339-350 | likewise C.SDSP and C.FSDSP |
| `Handler.Context.EmulateLoad` | src/sigsegv_handler.c:41-81 | sign or zero extension per funct3, x0 and every other register untouched, which funct3 is refused |
| `Handler.Context.EmulateFLoad` | src/sigsegv_handler.c:83-102 | NaN-boxed single or whole double into the one float register |
| `Handler.Context.EmulateStore` | src/sigsegv_handler.c:104-129 | the ISA's little-endian bytes of the operand, zero for x0 |
| `Handler.Context.EmulateFStore` | src/sigsegv_handler.c:131-149 | the low four or all eight bytes of the float register |
| `Handler.Context.EmulateC` | src/sigsegv_handler.c:151-182 | the six compressed operations on x8-x15 and f8-f15 |
| `Handler.Context.EmulateSpC` | src/sigsegv_handler.c:184-220 | the six sp-relative compressed operations, x0 as source and destination included |
| `Handler.Context.Emulate32` | src/sigsegv_handler.c:283-314 | accepted exactly for the ISA's loads and stores and the stepped-over encoding, with the ISA's effect |
| `Handler.Context.Emulate16` | src/sigsegv_handler.c:316-357 | the same for the 16-bit encodings |
| `Handler.FieldIs` | src/sigsegv_handler.c:33-37 | the extracted field is the quotient and remainder it stands for, for fields of at most eight bits |
| `Handler.CompressedAct` | src/sigsegv_handler.c:318-350 | the handler's fields and the ISA's compressed decoder name the same operation |
| `Layout.RetSequence.DefineRetSequenceInfo` | src/utils.c:36-60 | every field in terms of pages of gp - 56 and gp - 1, for any power-of-two page size |
| `Layout.RetSequence.AllocateRetSequencePage` | src/utils.c:67-97 | the second step overwrites the addresses and leaves the page fields of the first |
| `Layout.LayoutSafeIff` | src/utils.c:69-96 | return words and trampoline lie inside the mapping if and only if gp's page offset is between 56 and the page size minus 80 |
| `Layout.ReturnSequenceOutside` | src/main.h:68-73 | for gp at offset 32 two pages are mapped and the return sequence begins 24 bytes before them |
| `Layout.RangesCoincide` | src/patcher.c:152-153 | in that case the execute-only range after page rounding, the mapping and the handler's accepted range are one page |
| `Layout.TranslationIsBijection` | src/sigsegv_handler.c:261-263 | the redirection is one to one onto gp's page, keeps offsets, and takes the relocated gp plus d to the original gp plus d |
| `Layout.DisplacementsStayInPage` | src/utils.c:41 | all 12-bit displacements from gp stay in its page if and only if gp is 2048 bytes from both ends, for 4 KiB pages exactly offset 2048 |
| `Layout.AlignedAccessInPage` | src/sigsegv_handler.c:261-263 | a naturally aligned access that begins in a page ends in it |
| `Sweep.DisassembleAndRewrite` | src/main.c:413-457 | for every image and disassembler the in-place loop visits the boundaries and leaves the image that sweeping a pristine copy would |
| `Sweep.OnlyVisitedEcallsChange` | src/main.c:429-446 | each byte is either byte o of a visited ecall and becomes byte o of the jump, or is unchanged |
| `Sweep.SweepLeavesAloneIff` | src/main.c:429-446 | a sweep leaves an image unchanged if and only if it visits no ecall |
| `Sweep.SecondSweepSameBoundaries` | src/main.c:434-437 | a second sweep visits the same boundaries if and only if every position that failed to decode still fails |
| `Sweep.SecondSweepChangesNothing` | src/main.c:429-446 | a second sweep changes nothing if and only if it visits no ecall in the rewritten image, and it visits none if every failed position still fails |
| `Sweep.SweepIsIdempotent` | src/main.c:429-446 | where every position decodes, the second sweep has the same boundaries and changes nothing |
| `Sweep.SecondSweepMayDiffer` | src/main.c:434-437 | an image and a local disassembler for which the second sweep patches further bytes |
| `NoIntercept.AsksAndReturns` | src/main.c:69-83 | called with a number and six arguments it makes exactly that request, returns the answer, and keeps callee-saved registers |
| `NoIntercept.HandlingEqualsForwarding` | src/main.c:282-287 | from any related state with a thread in the hook of its call, clone and clone3 apart: the run in which the hook passes its arguments to `syscall_no_intercept`, stores what that returns and returns 0, and the run in which it returns another code and the return path asks the kernel, end with the same threads, the same memory outside vpoline's and below the caller's sp, and the caller's request and the same answer in the log |

## Left out

- Finding the text: the scan of /proc/self/maps, mprotect of the text, and the choice of glibc's mapping; the sweep is given its buffer.
- Loading the hook library (dlopen, dlsym, environment variables) and everything under DEBUG.
- The inside of the disassembler: it is any function of the remaining bytes that keeps to `ValidDecoder`, and for a second sweep to `LocalDecoder`.
- The kernel: a system call may answer anything and write any memory visible to the program; clone may create a thread with a stack of its own.
- rt_sigreturn in whole runs, because its sp is not the caller's when the kernel sees it; `Sigreturn` has the run of that one call.
- Signals that arrive between the patched call and the reload of gp.
- Atomic and vector instructions and fcsr, which neither the handler nor the frame supports.
- Faults outside the execute-only range and the exit branches: the handler's outcome says which, and nothing follows.
- Threads created, or ended, by a system call made inside a hook; children that share their parent's stack (vfork); system calls that end all threads at once.
- The instruction pair behind `la` and the one behind `call` count as one instruction of four bytes, so addresses inside `asm_syscall_hook` are those of the listing.
- The two word generators fill arrays, which `InstallShadowPage` then copies to memory; mprotect appears only as the range it is given.
- Steps.InnerKernelMatched: inner system calls are kept in a list of their own and do not appear in the program's log.
- Completeness.OriginalIsFollowed: the run it gives completes one interception before the next action of another thread; other interleavings are covered by the refinement only.
