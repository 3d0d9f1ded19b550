/** The ways a run of any of the machines can stop short. */
module Faults {
  import opened JsValues

  /** The quoted texts are what mark_sweep_gc and compiler.js print. go_vm
      calls the same `error` but never defines it, so there each of these
      faults stops the run with "ReferenceError: error is not defined"
      instead of its text. */
  datatype Fault =
    | NodeTooLarge                // "limitation: nodes cannot be larger than 10 words"
    | HeapExhausted               // "heap memory exhausted" (mark_sweep_gc; go_vm's exhaustion)
    | OutOfMemory                 // "Out of memory" (compiler.js)
    | UnassignedAccess            // "access of unassigned variable"
    | MutexAlreadyUnlocked        // go_vm's "Mutex already unlocked" call
    | ProgramError(value: JsValue) // the program called the `error` builtin
    | OperatorError(err: OpError) // an operator got operands it rejects or the model omits
    | NotAValue                   // a value with no heap representation was to be stored
    | NoThreadToRun               // the ready queue was empty when a thread was needed
    | NoCallframe                 // RESET found no callframe; the source loops for ever
    | PcOutOfRange(pc: int)       // the program counter left the instruction array
    | TooDeep                     // a pair structure nested deeper than the conversion's bound
    | UnknownOperator(sym: string) // the operator table has no entry for the symbol
    | UnknownBuiltin(id: int)     // the builtin table has no entry for the id
    | NoMicrocode(name: string)   // the machine has no microcode for the instruction
}
