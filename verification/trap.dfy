/** Outcomes of a step: the terminal reasons and the trap handed to the driver. */
module Outcomes {

  /** Why execution halted. The core itself produces only `CodeEnded` and
      `InvalidJump`; the other reasons are those instruction evaluation
      reports (explicit halts and stack or memory faults). */
  datatype ExitReason =
    | Stopped
    | Returned
    | SelfDestructed
    | Reverted
    | StackUnderflow
    | StackOverflow
    | InvalidJump
    | InvalidRange
    | OutOfOffset
    | PCUnderflow
    | DesignatedInvalid
    | CodeEnded
    | Other
    | Fatal

  /** What a step that does not simply continue returns: a terminal exit, or
      a suspension that hands an external opcode to the host. */
  datatype Trap<+Ext> = Exit(reason: ExitReason) | External(opcode: Ext)

}
