# brainfuck-rust: front end, optimizer and interpreter in Dafny

This project models the interpreted pipeline of `brainfuck-rust`, which runs
programs in the eight-instruction tape language (`+ - > < , . [ ]`):

- **`compile`** (`src/ir.rs`) reads the source text once. It emits one IR
  instruction per instruction character, links each `[` with its `]` through a
  stack of open positions, and reports the first stray `]` or the innermost
  unclosed `[` with its line and column.
- **`optimize_ir`** (`src/ir.rs`) rewrites the vector in place. A read index
  `i` and a write index `pc` fold each run of one arithmetic variant into a
  single instruction with the wrapping sum of its arguments and copy `,` and
  `.` down. The brackets are relinked with a fresh stack, and the vector is
  truncated to `pc`.
- **`Interpreter`** (`src/inter.rs`) holds `pc`, `ptr`, the code and a fixed
  tape of 4 MiB zero bytes. `run` is a fetch/execute loop: wrapping cell
  arithmetic, pointer moves that fail with `PointerOverflow` instead of leaving
  the tape, `,` that leaves the cell alone at end of input, `[` that skips to
  after its `]` on a zero cell, and `]` that always jumps back to its `[`.
- **The error types** of `src/error.rs` are plain datatypes (`errors.dfy`).

The Dafny modules follow the source:

| file | module | contents |
|---|---|---|
| `base.dfy` | `Base` | `u8`/`u32`, the wrapping operations, `as u32`, `Result`, `Option` |
| `ir.dfy` | `Ir` | `BfIR`, `CompileErrorKind`, `CompileError`, the bracket invariant (`Linked`, `PartialLinked`) and how pushing and popping brackets preserves it |
| `frontend.dfy` | `Frontend` | reference definitions over the source text (`Tokens`, `Depth`, `LineOf`, `ColOf`, `StrayClose`, `LastOpen`) and the imperative `Compile` |
| `optimizer.dfy` | `Optimizer` | the specification `Fold` with its properties, and the in-place `OptimizeIr` on an `array` |
| `errors.dfy` | `Errors` | `RuntimeError`, `VMError` |
| `interp.dfy` | `Interp` | the step function `Exec`, a bounded run `RunFor`, and the `Interpreter` class with `memory` as an `array` |
| `tests.dfy` | `IrTests` | the unit tests of `src/ir.rs`, derived from the contracts alone |

Integer semantics are those of a release build: `+=`, `-=` and `+` on `u8`
and `u32` wrap around, and `as u32` keeps the low 32 bits. The content
guarantees of `Compile` and `OptimizeIr` hold for inputs with fewer than
2^32 elements. For longer inputs the source's `as u32` casts truncate
positions. There `Compile` still states when it succeeds, the error kind and
the truncated line and column of every error it reports, and one instruction
per instruction character on success, but not the instructions or their links.
`OptimizeIr` states only that the kept prefix is no longer than its input and
that its stack holds one entry per unclosed `[`.

Where the repository's description and its code differ, the model follows
the code:

- The tape is a fixed `MEM_SIZE` = 4 MiB array. It does not grow.
- Moving off either end of the tape is `PointerOverflow`.
- `]` jumps back unconditionally, and its `[` tests the cell again.
- A folded run whose sum is zero is kept, e.g. as `AddVal(0)`: `Optimizer.ZeroRunKept`.
- `+` and `-` runs are never merged with each other.
- There are no `SetValue` or `ScanUntilZero` instructions.

## Model

| member | source | states |
|---|---|---|
| Base.AsU32 | src/ir.rs:67 | `n as u32` is the identity below 2^32 and never larger than n |
| Base.WrappingAdd8 | src/inter.rs:54 | `u8::wrapping_add`: the plain sum below 256, the sum minus 256 otherwise |
| Base.WrappingSub8 | src/inter.rs:57 | `u8::wrapping_sub`: the plain difference when it is not negative, plus 256 otherwise |
| Base.WrappingAdd32 | src/ir.rs:103 | `u32::wrapping_add`, the same in 32 bits |
| Base.WrappingSub32 | src/inter.rs:94 | u32 subtraction with wrap-around, as `*pos - 1` behaves in a release build |
| Base.AsU32Succ | src/ir.rs:54 | counting a `u32` up with wrap-around equals counting in `nat` and truncating at the end |
| Ir.PartialLinkedDone | src/ir.rs:83-90 | with the bracket stack empty, the invariant under construction is the finished one: every `Jz`/`Jnz` cross-linked, pairs nested |
| Ir.LinkPlain | src/ir.rs:60-65 | pushing a non-bracket instruction keeps the bracket invariant |
| Ir.LinkOpen | src/ir.rs:66-70 | pushing a `Jz(0)` placeholder and its index onto the stack keeps the bracket invariant |
| Ir.LinkClose | src/ir.rs:71-79 | popping the top index s, patching `code[s] = Jz(len)` and pushing `Jnz(s)` keeps the invariant with one bracket fewer open |
| Frontend.Tokens | src/ir.rs:53-81 | the characters that emit an instruction: never more than the source has, and every one of them an instruction character |
| Frontend.Unit | src/ir.rs:60-79 | the instruction an instruction character compiles to has that character and argument 1 |
| Frontend.ShapedUnits | src/ir.rs:60-79 | code with one instruction per instruction character, arithmetic arguments 1, is, jump targets aside, exactly the unit instructions of those characters (both directions) |
| Frontend.StrayCloseUnique | src/ir.rs:71-76 | there is at most one `]` at which the depth first drops below zero |
| Frontend.StrayCloseIsFirst | src/ir.rs:71-76 | after the first stray `]`, every longer prefix has gone negative |
| Frontend.LastOpenSpec | src/ir.rs:66-70 | the entry at level m of the bracket stack is the last `[` opened at depth m, and the depth never falls back to m after it |
| Frontend.LastUnclosed | src/ir.rs:83-89 | the `[` reported for an unclosed bracket is never closed, and every `[` after it is closed |
| Frontend.Compile | src/ir.rs:45-91 | `Ok` iff the brackets balance; `UnexpectedRightBracket` iff some prefix closes more than it opens, at the line/column of that first stray `]`; otherwise `UncloseLeftBracket` at the line/column of the top-of-stack `[`; on success one instruction per instruction character, in order, arguments 1, brackets cross-linked and nested |
| Optimizer.RunLen | src/ir.rs:100-107 | the inner `j` scan: the length of the leading run of one variant, the next instruction not of that variant |
| Optimizer.Fold | src/ir.rs:93-149 | the specification of the fold: never longer than its input, and the head keeps its kind and variant |
| Optimizer.FoldMaximal | src/ir.rs:98-113 | no two neighbours in the folded vector are of the same arithmetic variant: every run was folded whole |
| Optimizer.FoldErased | src/ir.rs:132-144 | the fold forgets old jump targets: every bracket comes out as `Jz(0)`/`Jnz(0)` until relinked |
| Optimizer.FoldFixpointIf | src/ir.rs:93-149 | a vector with no mergeable neighbours and erased targets is left as it is |
| Optimizer.FoldFixpointOnlyIf | src/ir.rs:93-149 | and only such a vector is left as it is |
| Optimizer.FoldIdempotent | src/ir.rs:93-149 | optimizing twice gives the same instructions as optimizing once |
| Optimizer.FoldControl | src/ir.rs:130-144 | `,` `.` `[` `]` come out in the same order: only arithmetic is touched |
| Optimizer.FoldDepth | src/ir.rs:132-144 | folding keeps the number of `[` minus `]` |
| Optimizer.FoldSkeleton | src/ir.rs:132-144 | the fold does not depend on the jump targets of its input |
| Optimizer.ZeroRunKept | src/ir.rs:98-113 | `AddVal(255), AddVal(1)` folds to `AddVal(0)`, which is kept |
| Optimizer.FoldRun | src/ir.rs:98-113 | `fold_ir!`: returns the end of the run starting at i and its wrapping sum in the variant's width, and `Fold` of the rest of the input starts with that folded instruction |
| Optimizer.FoldStep | src/ir.rs:126-129 | one `fold_ir!` pass of the main loop keeps the loop invariant (written prefix = fold so far, brackets linked, `pc <= i`) |
| Optimizer.CopyStep | src/ir.rs:115-121 | one `normal_ir!` pass (the `,` and `.` arms at lines 130-131) keeps the loop invariant |
| Optimizer.OpenStep | src/ir.rs:132-137 | the `Jz` arm keeps the loop invariant |
| Optimizer.CloseStep | src/ir.rs:138-144 | the `Jnz` arm pops a bracket (the stack is never empty here) and keeps the loop invariant |
| Optimizer.OptimizeIr | src/ir.rs:93-149 | the kept prefix (`truncate(pc)`) is never longer than the input and is `Fold` of the input with every bracket relinked; on a balanced input it satisfies the full bracket invariant |
| Interp.CodeLen | src/inter.rs:49 | `code.len() as u32` is at most the real length |
| Interp.Exec | src/inter.rs:50-97 | one pass of the loop body; a successful step keeps the tape at 4 MiB and the pointer on it |
| Interp.RunFor | src/inter.rs:48-100 | `run` for a bounded number of passes; the pointer stays on the tape in every state reached |
| Interp.FaultIff | src/inter.rs:59-71 | a step fails iff it is `>x` with `ptr + x >= MEM_SIZE` or `<x` with `ptr < x`, and the error is `PointerOverflow` |
| Interp.ExecEffect | src/inter.rs:53-87 | what a step changes: only the current cell (mod 256 for `+ -`, the byte read for `,`), the pointer by exactly x for `> <`, one input byte for `,` unless at end of input, where the cell is left unchanged, one output byte equal to the current cell for `.` |
| Interp.ExecFallThrough | src/inter.rs:97 | every non-jump instruction advances pc by 1 |
| Interp.ExecJump | src/inter.rs:88-97 | on linked code `[` goes to after its `]` on a zero cell and to the next instruction otherwise; `]` goes to its `[` (the net effect of `*pos - 1` then `+= 1`); pc stays within the code |
| Interp.ExecInverseVal | src/inter.rs:53-58 | `+x` then `-x` restore the machine, for every cell value |
| Interp.ExecInversePtr | src/inter.rs:59-71 | `>x` then `<x` restore the machine whenever the first move stays on the tape |
| Interp.MergeVal | src/ir.rs:98-113 | two `+` (or two `-`) in a row leave the machine as the one instruction with the wrapping sum of their arguments does, apart from pc |
| Interp.MergePtr | src/ir.rs:98-113 | two `>` (or two `<`) in a row fault exactly when the merged move faults and otherwise leave the same machine, for offsets summing below 2^32 |
| Interp.FirstLoopSkipped | src/inter.rs:37-45 | from a fresh interpreter a `[` at index 0 is skipped, because all cells start at zero |
| Interp.RunEnd | src/inter.rs:50-99 | `run` returns `Ok` only with pc past the code, and an error only at an instruction whose move leaves the tape |
| Interp.RunPcBound | src/inter.rs:49-50 | on linked code pc never exceeds the code length, so `Ok` means pc == code length |
| Interp.RunStreams | src/inter.rs:72-87 | output only grows and input is consumed from the front |
| Interp.RunMoreFuel | src/inter.rs:50-98 | a run that finished is not changed by a larger step budget |
| Interp.RunSplit | src/inter.rs:50-98 | running a + b passes is running a passes and then b more from where they stopped |
| Interp.Interpreter.Init | src/inter.rs:37-45 | pc = 0, ptr = 0, an all-zero tape of MEM_SIZE bytes, nothing written |
| Interp.Interpreter.Step | src/inter.rs:52-97 | the loop body on the object's fields and memory array: on success the state is `Exec`'s, on error it is unchanged |
| Interp.Interpreter.Run | src/inter.rs:48-100 | the `while` loop, bounded by a step budget: the final state is `RunFor`'s and the result is `run`'s |
| Interp.Interpreter.New | src/inter.rs:24-46 | fails iff the brackets are unbalanced, with the compile error's kind, line and column as `compile` reports them; otherwise a fresh interpreter in the initial state whose code is bracket-linked and is the compiled instructions, folded if `optimize` is set |
| IrTests.CompileLoop | src/ir.rs:159-168 | `compile("+[,.]")` is `[AddVal(1), Jz(4), GetByte, PutByte, Jnz(1)]` |
| IrTests.CompileUnclosed | src/ir.rs:170-173 | `compile("[")` fails with `UncloseLeftBracket` at line 0, column 1 |
| IrTests.CompileStray | src/ir.rs:175-178 | `compile("]")` fails with `UnexpectedRightBracket` at line 0, column 1 |
| IrTests.OptimizeLoop | src/ir.rs:181-186 | optimizing `compile("[+++++++]")` gives `[Jz(2), AddVal(7), Jnz(0)]` |
| IrTests.FoldLoopOnes | src/ir.rs:98-113 | a loop around n `+` folds to a loop around `AddVal(n mod 256)` |

## Left out

- `src/jit.rs` is not part of this model: it emits x86-64 machine code, which cannot be modelled without a semantics of that machine.
- `src/main.rs` (argument parsing, locking stdin/stdout, the exit code) is not part of this model.
- Reading the source file in `Interpreter::new`: `New` takes the source text as a parameter.
- The I/O `Err` branches of `,` and `.`: input is a byte sequence the reader delivers, and output is the byte sequence written. A read of 0 bytes is end of input. `RuntimeError::IO` and `VMError::IO` are present as variants but never produced.
- The payloads of the I/O error variants (`std::io::Error`) and all `Display` implementations. The `Display` text of `UnexpectedRightBracket` is "Unclosed left bracket", the same as for `UncloseLeftBracket`.
- `shrink_to_fit` only changes the allocation. `truncate(pc)` is modelled by the returned length n, with the result `code[..n]`.
- Interp.Interpreter.Run: `run` has no step budget and may loop forever. The model runs for at most `fuel` passes and reports `None` when they run out.
- Interp.Interpreter.New: requires a source of fewer than 2^32 characters, where the `as u32` casts in `compile` lose nothing. For longer sources the source links brackets to truncated positions, and nothing is promised.
- Frontend.Compile and Optimizer.OptimizeIr: the content and link guarantees are stated only for fewer than 2^32 elements, for the same reason.
- Optimizer.OptimizeIr: requires that no prefix of the input has more `Jnz` than `Jz`. Otherwise `stk.pop().unwrap()` panics, and every vector `compile` returns meets this.
- Optimizer.OptimizeIr: the model does not prove that the optimized program behaves under `run` as the original does. That needs a simulation between two runs of `RunFor` that take different numbers of steps and fault at different instructions, which is beyond this model. What it proves are the structural facts above and the local facts `Interp.MergeVal` and `Interp.MergePtr`: two merged instructions act as the one `fold_ir!` writes.
- A debug build panics on `*pos - 1` when `pos == 0`, on overflow of the `line += 1` and `col += 1` counters in `compile`, and on `self.pc += 1` after a `Jz(u32::MAX)`; `wrapping_add` and `wrapping_sub` never panic. The model follows a release build. `Interp.FirstLoopSkipped` shows that a fresh interpreter skips a `[` at index 0 the first time it executes it. The model does not prove that the `]` linked to index 0 is never reached later.
