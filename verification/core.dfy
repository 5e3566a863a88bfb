/** The execution core: a program counter that is either running or frozen
    at a terminal reason, the code, its jump-validity map, and the workspace
    (return range, memory, stack), advanced one instruction per `Step`. */
module Core {
  import opened Results
  import opened Outcomes
  import opened Eval

  /** Everything `step` may change: the program counter (a running offset or
      the terminal reason) and the workspace. */
  datatype State<Mem, Stk> = State(position: Result<nat, ExitReason>, ws: Workspace<Mem, Stk>)

  /** What `step` returns: success, or a trap. */
  type StepResult<Ext> = Result<(), Trap<Ext>>

  /** True when the byte at running position `pc` decodes to a known opcode. */
  predicate Decodes<Op, Ext, Mem, Stk>(sem: Semantics<Op, Ext, Mem, Stk>, code: seq<bv8>, pc: nat)
  {
    pc < |code| && sem.parse(code[pc]).Ok?
  }

  /** The control directive that evaluation returns at `pc`, for a known opcode there. */
  function ControlAt<Op, Ext, Mem, Stk>(sem: Semantics<Op, Ext, Mem, Stk>, code: seq<bv8>, pc: nat, ws: Workspace<Mem, Stk>): Control
    requires Decodes(sem, code, pc)
  {
    sem.eval(sem.parse(code[pc]).value, pc, code, ws).0
  }

  /** One step of the machine, as a function of its state. */
  function Transition<Op, Ext, Mem, Stk>(
    sem: Semantics<Op, Ext, Mem, Stk>, code: seq<bv8>, valids: nat -> bool, s: State<Mem, Stk>)
    : (r: (State<Mem, Stk>, StepResult<Ext>))
    // A halted machine is left exactly as it is, and the call fails.
    ensures s.position.Err? ==> r.0 == s && r.1.Err?
    // A call succeeds only if the machine is running afterwards.
    ensures r.1.Ok? ==> r.0.position.Ok?
    // From a running machine: it halts exactly when the call reports an
    // exit, and the reported reason is the stored one.
    ensures s.position.Ok? ==> (r.0.position.Err? <==> r.1.Err? && r.1.error.Exit?)
    ensures s.position.Ok? && r.0.position.Err? ==> r.1 == Err(Trap.Exit(r.0.position.error))
    // Running off the end of the code halts with `CodeEnded`, workspace untouched.
    ensures s.position.Ok? && s.position.value >= |code| ==>
              r == (State(Err(CodeEnded), s.ws), Err(Trap.Exit(CodeEnded)))
    // A known opcode: the workspace is the one evaluation returns, and the
    // directive decides the program counter and the result.
    ensures s.position.Ok? && Decodes(sem, code, s.position.value) ==>
              var pc := s.position.value;
              var (control, ws) := sem.eval(sem.parse(code[pc]).value, pc, code, s.ws);
              r.0.ws == ws &&
              match control
              case Continue(n) => r.0.position == Ok(pc + n) && r.1 == Ok(())
              case Exit(e) => r.0.position == Err(e) && r.1 == Err(Trap.Exit(e))
              case Jump(p) =>
                if valids(p) then r.0.position == Ok(p) && r.1 == Ok(())
                else r.0.position == Err(InvalidJump) && r.1 == Err(Trap.Exit(InvalidJump))
    // An external opcode suspends to the host, one byte further on.
    ensures s.position.Ok? && s.position.value < |code| && sem.parse(code[s.position.value]).Err? ==>
              r == (State(Ok(s.position.value + 1), s.ws), Err(Trap.External(sem.parse(code[s.position.value]).error)))
    // A suspension to the host leaves the machine running one byte further
    // on with the workspace untouched, and hands over the decoded opcode.
    ensures s.position.Ok? && r.1.Err? && r.1.error.External? ==>
              s.position.value < |code| &&
              sem.parse(code[s.position.value]) == Err(r.1.error.opcode) &&
              r.0 == State(Ok(s.position.value + 1), s.ws)
    // Only the evaluation of a known opcode touches the workspace.
    ensures r.0.ws != s.ws ==> s.position.Ok? && Decodes(sem, code, s.position.value)
    // A jump never commits a target the validity map rejects.
    ensures s.position.Ok? && Decodes(sem, code, s.position.value) &&
            ControlAt(sem, code, s.position.value, s.ws).Jump? && r.0.position.Ok? ==>
              r.0.position.value == ControlAt(sem, code, s.position.value, s.ws).target &&
              valids(r.0.position.value)
    // A jump to a target the validity map rejects halts with `InvalidJump`.
    ensures s.position.Ok? && Decodes(sem, code, s.position.value) &&
            ControlAt(sem, code, s.position.value, s.ws).Jump? &&
            !valids(ControlAt(sem, code, s.position.value, s.ws).target) ==>
              r.0.position == Err(InvalidJump)
    // Control moves backwards only onto a valid jump target.
    ensures s.position.Ok? && r.0.position.Ok? ==>
              r.0.position.value >= s.position.value || valids(r.0.position.value)
  {
    match s.position
    case Err(e) => (s, Err(sem.exitTrap(e)))
    case Ok(pc) =>
      if pc >= |code| then
        (State(Err(CodeEnded), s.ws), Err(Trap.Exit(CodeEnded)))
      else
        match sem.parse(code[pc])
        case Ok(op) =>
          var (control, ws) := sem.eval(op, pc, code, s.ws);
          (match control
           case Continue(n) => (State(Ok(pc + n), ws), Ok(()))
           case Exit(e) => (State(Err(e), ws), Err(Trap.Exit(e)))
           case Jump(p) =>
             if valids(p) then (State(Ok(p), ws), Ok(()))
             else (State(Err(InvalidJump), ws), Err(Trap.Exit(InvalidJump))))
        case Err(external) => (State(Ok(pc + 1), s.ws), Err(Trap.External(external)))
  }

  /** The execution core of one invocation. `sem` stands for the modules the
      core calls; `valids` is the jump-validity map as its lookup. */
  class Core<Op, Ext, Mem, Stk> {
    const sem: Semantics<Op, Ext, Mem, Stk>
    /** Program code. */
    const code: seq<bv8>
    /** Code validity map. */
    const valids: nat -> bool
    /** Program counter, or the reason execution halted. */
    var position: Result<nat, ExitReason>
    /** Return value range. */
    var returnRange: Range
    var memory: Mem
    var stack: Stk

    /** The part of the object that `Step` may change. */
    function Current(): State<Mem, Stk>
      reads this
    {
      State(position, Workspace(returnRange, memory, stack))
    }

    /** A core at the start of the code, with an empty return range. */
    constructor (sem: Semantics<Op, Ext, Mem, Stk>, code: seq<bv8>, valids: nat -> bool, memory: Mem, stack: Stk)
      ensures this.sem == sem && this.code == code && this.valids == valids
      ensures position == Ok(0) && returnRange == Range(0, 0)
      ensures this.memory == memory && this.stack == stack
    {
      this.sem, this.code, this.valids := sem, code, valids;
      position := Ok(0);
      returnRange := Range(0, 0);
      this.memory, this.stack := memory, stack;
    }

    /** Executes the instruction at the program counter. */
    method Step() returns (r: StepResult<Ext>)
      modifies this
      ensures (Current(), r) == Transition(sem, code, valids, old(Current()))
      // Already halted: nothing is assigned, and the call fails.
      ensures old(position).Err? ==> unchanged(this) && r == Err(sem.exitTrap(old(position).error))
      // Past the end of the code: halt with `CodeEnded`.
      ensures old(position).Ok? && old(position).value >= |code| ==>
                position == Err(CodeEnded) && r == Err(Trap.Exit(CodeEnded)) &&
                Current().ws == old(Current()).ws
      // External opcode: suspend, still running, one byte further on.
      ensures old(position).Ok? && old(position).value < |code| && sem.parse(code[old(position).value]).Err? ==>
                position == Ok(old(position).value + 1) &&
                r == Err(Trap.External(sem.parse(code[old(position).value]).error)) &&
                Current().ws == old(Current()).ws
      // Known opcode: the workspace is the one evaluation returns, and the
      // directive decides the program counter and the result.
      ensures old(position).Ok? && Decodes(sem, code, old(position).value) ==>
                var pc := old(position).value;
                var (control, ws) := sem.eval(sem.parse(code[pc]).value, pc, code, old(Current()).ws);
                Current().ws == ws &&
                match control
                case Continue(n) => position == Ok(pc + n) && r == Ok(())
                case Exit(e) => position == Err(e) && r == Err(Trap.Exit(e))
                case Jump(p) =>
                  if valids(p) then position == Ok(p) && r == Ok(())
                  else position == Err(InvalidJump) && r == Err(Trap.Exit(InvalidJump))
    {
      if position.Err? {
        r := Err(sem.exitTrap(position.error));
        return;
      }
      var pc := position.value;
      if pc >= |code| {
        position := Err(CodeEnded);
        r := Err(Trap.Exit(CodeEnded));
        return;
      }
      match sem.parse(code[pc])
      case Ok(op) =>
        var (control, ws) := sem.eval(op, pc, code, Workspace(returnRange, memory, stack));
        returnRange, memory, stack := ws.returnRange, ws.memory, ws.stack;
        match control {
          case Continue(n) =>
            position := Ok(pc + n);
            r := Ok(());
          case Exit(e) =>
            position := Err(e);
            r := Err(Trap.Exit(e));
          case Jump(p) =>
            if valids(p) {
              position := Ok(p);
              r := Ok(());
            } else {
              position := Err(InvalidJump);
              r := Err(Trap.Exit(InvalidJump));
            }
        }
      case Err(external) =>
        position := Ok(pc + 1);
        r := Err(Trap.External(external));
    }
  }
}
