/** Whole runs: of the x86 machine over the decoded code, and of the lifted program. */
module Runs {
  import opened Words
  import opened Memory
  import opened Semantics
  import opened Machine
  import opened Decode
  import opened Ssa

  /** One instruction; a near return leaves through the return address on the stack. */
  function MachineStep(code: Code, m: State): StepResult {
    if !code.Decodes(m.rip) || !Modelled(code.OpAt(m.rip)) then Stuck
    else
      var after := Effect(code.OpAt(m.rip), m);
      match code.OpAt(m.rip)
      case Ret => Returned(after.(rip := Load(m.mem, Get(m.regs, RSP), WORD_BYTES)))
      case Jmp => Next(after.(rip := code.At(m.rip).target))
      case Jcc(c) => Next(after.(rip := if Holds(c, m.flags) then code.At(m.rip).target else code.NextIp(m.rip)))
      case _ => Next(after.(rip := code.NextIp(m.rip)))
  }

  function MachineRun(code: Code, m0: State, steps: nat): StepResult {
    if steps == 0 then Next(m0)
    else
      match MachineRun(code, m0, steps - 1)
      case Next(m) => MachineStep(code, m)
      case r => r
  }

  function SsaRun(prog: Program, arguments: seq<Word>, steps: nat): SsaResult {
    if steps == 0 then Start(prog, arguments)
    else
      match SsaRun(prog, arguments, steps - 1)
      case Running(c) => SsaStep(prog, arguments, c)
      case r => r
  }
}
