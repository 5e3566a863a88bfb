# Execution core of an EVM-style bytecode machine

This project models `Core::step`, the single-step state machine of a stack-based bytecode
virtual machine patterned on the Ethereum Virtual Machine. It proves the step contract for
every choice of the modules that `step` calls.

A `Core` holds:
- the immutable code;
- a program counter, which is either a running offset or the terminal `ExitReason` already reached;
- the jump-validity map;
- the return range, the memory and the stack.

Each call of `step` does one of six things:
- re-reports a machine that has already halted;
- halts with `CodeEnded` when the counter is past the code;
- suspends to the host on an external opcode, one byte further on and still running;
- falls through by `n` bytes (`Continue(n)`);
- jumps, but only to a target the validity map accepts, and otherwise halts with `InvalidJump`;
- halts with the reason that instruction evaluation returns (`Exit(e)`).

Layout:
- `results.dfy`: the host language's `Result`.
- `trap.dfy` (module `Outcomes`): `ExitReason` and `Trap`.
- `eval.dfy` (module `Eval`): the `Control` directive, the `Workspace` that evaluation
  updates, and `Semantics`, which bundles the collaborators `step` calls as function values:
  - `parse`: one code byte to a known or external opcode;
  - `eval`: a known opcode at a position to a directive and a new workspace;
  - `exitTrap`: the conversion of a terminal reason into the trap a halted machine reports.
- `core.dfy` (module `Core`): `Transition`, one step as a function of the state, with the
  step contract as its postconditions; and the class `Core`, whose `Step` method updates its
  fields in place and is proved to agree with `Transition`.
- `runs.dfy` (module `Runs`): `Run`, the effect of repeated calls of `step` as the driver
  outside the core makes them, and lemmas about such runs.

Opcodes, external opcodes, memory and stack are type parameters. The jump-validity map is the
lookup function `valids`. The proofs hold for every instance of these.

## Model

| member | source | states |
|---|---|---|
| Core.Transition | core/src/lib.rs:40-74 | All six outcomes are stated. A halted machine is left unchanged and the call fails. Past the end of the code: `Err(CodeEnded)` stored and `Trap::Exit(CodeEnded)` returned, workspace untouched. An external byte: `Ok(pc + 1)` and `Trap::External` carrying the decoded opcode, workspace untouched. A known opcode: the workspace evaluation returns, then `Continue(n)` gives `Ok(pc + n)` and `Ok(())`; `Exit(e)` gives `Err(e)` and `Trap::Exit(e)`; `Jump(p)` gives `Ok(p)` and `Ok(())` if `p` is valid, else `Err(InvalidJump)` and `Trap::Exit(InvalidJump)`. It also states properties that hold across the cases. A call succeeds only if the machine is running afterwards. From a running machine, it halts exactly when the call reports `Trap::Exit`, and the reason reported is the one stored. Only a known opcode's evaluation changes the workspace. A jump never commits an invalid target. Control moves backwards only onto a valid target. |
| Core.Core.Step | core/src/lib.rs:40-74 | The new fields and the result are those `Transition` gives for the old fields. Each of the six outcomes is stated case by case: halted means no field changes and an error is returned; past the end means `Err(CodeEnded)`; external means `Ok(pc + 1)` and `Trap::External`; `Continue(n)` means `Ok(pc + n)` and `Ok(())`; `Exit(e)` means `Err(e)` and `Trap::Exit(e)`; `Jump(p)` means `Ok(p)` if `p` is valid, else `Err(InvalidJump)`. |
| Core.Core.constructor | core/src/lib.rs:24-37 | A core holds the struct's fields: code, validity map, memory and stack as given, the counter at offset 0 and an empty return range. |
| Runs.Run | core/src/lib.rs:40 | `n` calls of `step` yield exactly `n` results. |
| Runs.HaltedRunRepeats | core/src/lib.rs:41 | Any number of calls on a halted machine leave its whole state unchanged and every call reports the same terminal error. |
| Runs.HaltIsPermanent | core/src/lib.rs:41 | Once a run has halted, no number of further calls changes the state, so the terminal reason is produced once and never replaced. |
| Runs.HaltIsReported | core/src/lib.rs:50-72 | A run that starts running and ends halted contains a call `i` that returned `Trap::Exit` with exactly the final terminal reason. The machine was running before call `i` and halted after it. |
| Runs.FallThroughRun | core/src/lib.rs:46-49 | On code whose every instruction falls through by one byte, `k` calls from offset `j` all succeed and reach offset `j + k` (for `j + k` within the code). |
| Runs.StraightLineEndsInCodeEnded | core/src/lib.rs:43-72 | On such code, a run from offset 0 ends after `len + 1` calls in `CodeEnded`, and the last call reports `Trap::Exit(CodeEnded)`. |

## Left out

- The source of `memory`, `stack`, `valids`, `opcode`, `trap` and `eval` (declared at core/src/lib.rs:6-11) is not part of this model. Decoding, evaluation, the validity lookup and the conversion at core/src/lib.rs:41 are parameters, and the proofs hold for all of them.
- `eval` receives the whole core in the source. Here it is given the opcode, its position, the code and the workspace (return range, memory, stack), and it returns a new workspace. So it can change only the return range, memory and stack, and never the program counter. This loses nothing, because `step` overwrites the counter after every evaluation.
- Core.Core.Step: for an already halted machine it states only that an error is returned and that nothing is assigned. Which `Trap` the `From<ExitReason>` conversion builds is not visible, so the model leaves it abstract (`exitTrap`).
- `ExitReason`: `step` itself names only `CodeEnded` and `InvalidJump`, and the source uses them as direct variants. trap.rs is not part of this model. The other variants are assumed reasons for explicit halts and stack or memory faults, written flat in the same way. They serve only as values evaluation may return.
- Positions are unbounded naturals. The unchecked `usize` addition `position + p` (core/src/lib.rs:47) is not given wrap-around or overflow behaviour.
- Core.Core.constructor: the shown code has no constructor. The model starts at offset 0 with an empty return range, which is an assumption. The validity map is passed in rather than computed from the code, because `Valids` is not part of this model.
- `Rc` sharing of the code is not modelled. The code is an immutable `seq<bv8>`.
- The `no_std`/`alloc` crate configuration (core/src/lib.rs:1-4) is left out.
- The host's handling of external opcodes, gas and the outer driver loop are outside the core. `Run` only describes what repeated calls of `step` produce.
