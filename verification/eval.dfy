/** The interface between the stepping state machine and the modules it
    calls: opcode decoding, per-instruction evaluation, jump validity and the
    conversion of a terminal reason into a trap. Their implementations are not
    part of this model; the core is proved correct for every choice of them. */
module Eval {
  import opened Results
  import opened Outcomes

  /** A half-open interval of memory offsets. */
  datatype Range = Range(start: nat, end: nat)

  /** The directive instruction evaluation returns to the core. */
  datatype Control =
    | Continue(n: nat)         // fall through by `n` bytes
    | Jump(target: nat)        // go to an absolute offset, to be validated by the core
    | Exit(reason: ExitReason) // halt

  /** The part of the machine an instruction's own semantics updates: the
      return range, the memory and the stack. */
  datatype Workspace<Mem, Stk> = Workspace(returnRange: Range, memory: Mem, stack: Stk)

  /** The collaborators of `step`:
      - `parse` decodes one code byte into a known opcode or an external one;
      - `eval` runs a known opcode found at a position of the code against the
        workspace and says how control goes on;
      - `exitTrap` turns the reason of an already halted machine into the
        error a further step reports. */
  datatype Semantics<!Op, Ext, !Mem, !Stk> = Semantics(
    parse: bv8 -> Result<Op, Ext>,
    eval: (Op, nat, seq<bv8>, Workspace<Mem, Stk>) -> (Control, Workspace<Mem, Stk>),
    exitTrap: ExitReason -> Trap<Ext>)

}
