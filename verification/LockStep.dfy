/** Whole runs: the machine and the lifted program take the same branches and return the same value. */
module LockStep {
  import opened Wrappers
  import opened Words
  import opened Memory
  import opened Semantics
  import opened Machine
  import opened Decode
  import opened CfgRecovery
  import opened Fields
  import opened DefiniteAssignment
  import opened ScalarRecovery
  import opened StackSoundness
  import opened Agreement
  import opened Simulation
  import opened Ssa
  import opened Emit
  import opened Compile
  import opened Runs
  import opened Paths
  import opened LiftCorrect
  import StackProof

  /** A near return with the stack discipline kept: pointers and the caller's memory as at entry. */
  ghost predicate CleanReturn(m0: State, m: State) {
    && Get(m.regs, RSP) == Wrap(Get(m0.regs, RSP) + 8)
    && Get(m.regs, RBP) == Get(m0.regs, RBP)
    && m.rip == Load(m0.mem, Get(m0.regs, RSP), WORD_BYTES)
    && (forall x :: OutsideFrame(x) ==> At(m.mem, Get(m0.regs, RSP) + x) == At(m0.mem, Get(m0.regs, RSP) + x))
  }

  /** Machine and program both stand at the end of path p. */
  ghost predicate InStep(code: Code, nodes: Nodes, prog: Program, m0: State, p: seq<nat>, m: State, c: Config) {
    && FlowPath(nodes, code.address, p) && (forall ip :: ip in p ==> ip in nodes && ip in prog.blocks)
    && m == MachineAlong(code, m0, p) && m.rip == Last(p)
    && c == Config(Last(p), EnvAlong(prog, Arguments(m0), p))
  }

  // ----- the same way out of a block -----

  lemma {:induction false} HoldsReads(c: Condition, f: Flags, g: Flags)
    requires forall flag :: flag in ConditionReads(c) ==> FlagBit(f, flag) == FlagBit(g, flag)
    ensures Machine.Holds(c, f) == Machine.Holds(c, g)
  {
    assert forall flag :: flag in ConditionReads(c) ==> FlagBit(f, flag) == FlagBit(g, flag);
    match c {
      case E => assert ZF in ConditionReads(c);
      case Ne => assert ZF in ConditionReads(c);
      case S => assert SF in ConditionReads(c);
      case Ns => assert SF in ConditionReads(c);
      case O => assert OF in ConditionReads(c);
      case No => assert OF in ConditionReads(c);
      case B => assert CF in ConditionReads(c);
      case Ae => assert CF in ConditionReads(c);
      case Be => assert CF in ConditionReads(c) && ZF in ConditionReads(c);
      case A => assert CF in ConditionReads(c) && ZF in ConditionReads(c);
      case L => assert SF in ConditionReads(c) && OF in ConditionReads(c);
      case Ge => assert SF in ConditionReads(c) && OF in ConditionReads(c);
      case Le => assert ZF in ConditionReads(c) && SF in ConditionReads(c) && OF in ConditionReads(c);
      case G => assert ZF in ConditionReads(c) && SF in ConditionReads(c) && OF in ConditionReads(c);
    }
  }

  /** Clean flag reads decide a branch as the machine's flags do. */
  lemma SameBranch(node: Node, ip: nat, env: Env, available: set<Field>, taint: set<Field>, m: State, e: int,
                   slots: seq<StackProof.StackSlot>)
    requires node.op.Jcc? && Tracks(env, ip, available, taint, Values(m, e, slots))
    requires Reads(node) <= available && Reads(node) !! taint
    ensures Machine.Holds(node.op.condition, FlagsView(env, ip)) == Machine.Holds(node.op.condition, m.flags)
  {
    forall flag | flag in ConditionReads(node.op.condition)
      ensures FlagBit(FlagsView(env, ip), flag) == FlagBit(m.flags, flag)
    {
      assert FlagField(flag) in FlagFields(ConditionReads(node.op.condition));
      assert FlagField(flag) in Reads(node);
      assert Look(env, In(FlagField(flag), ip)) == I1(FlagBit(m.flags, flag));
    }
    HoldsReads(node.op.condition, FlagsView(env, ip), m.flags);
  }

  /** A clean read of RAX returns the machine's RAX. */
  lemma SameReturn(node: Node, ip: nat, env: Env, available: set<Field>, taint: set<Field>, m: State, e: int,
                   slots: seq<StackProof.StackSlot>)
    requires node.op.Ret? && Tracks(env, ip, available, taint, Values(m, e, slots))
    requires Reads(node) <= available && Reads(node) !! taint
    ensures Get(RegsView(env, ip), RAX) == Get(m.regs, RAX)
  {
    assert RegisterField(RAX) in Reads(node);
    TrackedInputs(env, ip, available, taint, Values(m, e, slots), Reads(node));
    RegisterInput(env, ip, Reads(node), RAX);
  }

  function Choice(node: Node, f: Flags): nat {
    if node.op.Jcc? && !Machine.Holds(node.op.condition, f) then 1 else 0
  }

  /** The machine moves to the chosen successor of its node. */
  lemma MachineMoves(code: Code, nodes: Nodes, m: State)
    requires NodesExact(code, Scalar(CALL_FREE), nodes) && m.rip in nodes && Emittable(nodes[m.rip]) &&
             !nodes[m.rip].op.Ret?
    ensures Choice(nodes[m.rip], m.flags) < |nodes[m.rip].successors|
    ensures MachineStep(code, m) == Next(Effect(nodes[m.rip].op, m).(rip :=
            nodes[m.rip].successors[Choice(nodes[m.rip], m.flags)]))
  {
  }

  /** A balanced return leaves the stack and the caller's memory as the discipline demands. */
  lemma ReturnsCleanly(code: Code, m0: State, m: State, s: StackProof.FrameState)
    requires code.Decodes(m.rip) && code.OpAt(m.rip).Ret? && FrameHolds(m0, m, s) && StackProof.Balanced(s)
    ensures MachineStep(code, m).Returned? && CleanReturn(m0, MachineStep(code, m).state)
    ensures Get(MachineStep(code, m).state.regs, RAX) == Get(m.regs, RAX)
  {
    assert Get(m.regs, RSP) == Get(m0.regs, RSP) && Get(m.regs, RBP) == Get(m0.regs, RBP) by {
      WrapSmall(Get(m0.regs, RSP));
    }
    assert Load(m.mem, Get(m0.regs, RSP), WORD_BYTES) == Load(m0.mem, Get(m0.regs, RSP), WORD_BYTES) by {
      ReturnAddressKept(m0, m, s);
    }
    var after := MachineStep(code, m).state;
    assert after.mem == m.mem && after.regs == m.regs[RSP := Wrap(Get(m0.regs, RSP) + 8)];
  }

  lemma ReturnAddressKept(m0: State, m: State, s: StackProof.FrameState)
    requires FrameHolds(m0, m, s)
    ensures Load(m.mem, Get(m0.regs, RSP), WORD_BYTES) == Load(m0.mem, Get(m0.regs, RSP), WORD_BYTES)
  {
    var e: int := Get(m0.regs, RSP);
    forall x | e <= x < e + WORD_BYTES
      ensures At(m.mem, x) == At(m0.mem, x + 0)
    {
      assert OutsideFrame(x - e);
      assert e + (x - e) == x;
    }
    LoadCongruent(m.mem, e, m0.mem, 0, WORD_BYTES);
  }

  // ----- one step of both -----

  /** What holds at the end of p: the block's contract, tracked clean reads, the frame. */
  ghost predicate Poised(code: Code, nodes: Nodes, slots: seq<StackProof.StackSlot>, flow: Flow, prog: Program,
                         m0: State, p: seq<nat>, s: StackProof.FrameState)
    requires |p| > 0 && forall ip :: ip in p ==> ip in prog.blocks
  {
    var ip := Last(p);
    && ip in nodes && ip in flow.incoming && Emittable(nodes[ip]) && BlockExact(ip, nodes[ip], prog.blocks[ip])
    && TracksAlong(code, nodes, slots, flow, prog, m0, p)
    && Reads(nodes[ip]) <= flow.incoming[ip] && Reads(nodes[ip]) !! TaintAlong(nodes, slots, p)
    && FrameHolds(m0, MachineAlong(code, m0, p), s) && StackProof.Accepted(code, false, ip, s)
    && code.Decodes(ip) && nodes[ip].op == code.OpAt(ip)
    && (forall next :: next in nodes[ip].successors ==> next in nodes && next in prog.blocks)
  }

  lemma BecomePoised(code: Code, nodes: Nodes, slots: seq<StackProof.StackSlot>, flow: Flow, prog: Program, m0: State,
                     p: seq<nat>)
    returns (s: StackProof.FrameState)
    requires Lifted(code, nodes, slots, flow, prog) && FlowPath(nodes, code.address, p) &&
             forall ip :: ip in p ==> ip in prog.blocks
    requires CleanBefore(nodes, slots, p) && SlotsCleanAt(nodes, slots, p)
    ensures Poised(code, nodes, slots, flow, prog, m0, p, s) && CleanAt(nodes, slots, p)
  {
    LiftedBlocks(code, nodes, slots, flow, prog);
    assert Unfold(true);
    CleanFlagsToo(nodes, slots, code.address, p);
    PathTracks(code, nodes, slots, flow, prog, m0, p);
    s := PathFrame(code, nodes, m0, p);
  }

  lemma LeavesTogether(code: Code, nodes: Nodes, slots: seq<StackProof.StackSlot>, flow: Flow, prog: Program, m0: State,
                       p: seq<nat>, s: StackProof.FrameState)
    requires |p| > 0 && (forall ip :: ip in p ==> ip in prog.blocks) && Poised(code, nodes, slots, flow, prog, m0, p, s)
    ensures var node, m := nodes[Last(p)], MachineAlong(code, m0, p);
            var block, env := prog.blocks[Last(p)], EnvAlong(prog, Arguments(m0), p);
            Leave(Run(block.body, env), block.terminator) ==
              if node.op.Ret? then Returns(I64(Get(m.regs, RAX))) else Goto(node.successors[Choice(node, m.flags)])
  {
    var ip, e: int := Last(p), Get(m0.regs, RSP);
    var node, m, env, taint := nodes[ip], MachineAlong(code, m0, p), EnvAlong(prog, Arguments(m0), p),
      TaintAlong(nodes, slots, p);
    TrackedInputs(env, ip, flow.incoming[ip], taint, Values(m, e, slots), Reads(node));
    assert Leaves(ip, node, env, Run(prog.blocks[ip].body, env), prog.blocks[ip].terminator);
    if node.op.Jcc? {
      SameBranch(node, ip, env, flow.incoming[ip], taint, m, e, slots);
    } else if node.op.Ret? {
      SameReturn(node, ip, env, flow.incoming[ip], taint, m, e, slots);
    }
  }

  /** Both move along the same edge. */
  lemma MoveTogether(code: Code, nodes: Nodes, slots: seq<StackProof.StackSlot>, flow: Flow, prog: Program, m0: State,
                     p: seq<nat>, m: State, c: Config, s: StackProof.FrameState)
    returns (q: seq<nat>)
    requires NodesExact(code, Scalar(CALL_FREE), nodes) && InStep(code, nodes, prog, m0, p, m, c)
    requires Poised(code, nodes, slots, flow, prog, m0, p, s) && !nodes[Last(p)].op.Ret?
    ensures |q| == |p| + 1 && Front(q) == p
    ensures MachineStep(code, m) == Next(MachineAlong(code, m0, q)) && (forall ip :: ip in q ==> ip in prog.blocks)
    ensures SsaStep(prog, Arguments(m0), c) == Running(Config(Last(q), EnvAlong(prog, Arguments(m0), q)))
    ensures InStep(code, nodes, prog, m0, q, MachineAlong(code, m0, q),
            Config(Last(q), EnvAlong(prog, Arguments(m0), q)))
  {
    var ip := Last(p);
    MachineMoves(code, nodes, m);
    LeavesTogether(code, nodes, slots, flow, prog, m0, p, s);
    var next := nodes[ip].successors[Choice(nodes[ip], m.flags)];
    PathSnoc(NodeEdges(nodes), code.address, p, next);
    q := p + [next];
    assert forall x :: x in q ==> x in p || x == next;
    assert MachineAlong(code, m0, q) == Effect(code.OpAt(ip), m).(rip := next);
  }

  /** Both return, with the same value and the stack discipline kept. */
  lemma ReturnTogether(code: Code, nodes: Nodes, slots: seq<StackProof.StackSlot>, flow: Flow, prog: Program, m0: State,
                       p: seq<nat>, m: State, c: Config, s: StackProof.FrameState)
    requires InStep(code, nodes, prog, m0, p, m, c)
    requires Poised(code, nodes, slots, flow, prog, m0, p, s) && nodes[Last(p)].op.Ret?
    ensures MachineStep(code, m).Returned? && CleanReturn(m0, MachineStep(code, m).state)
    ensures SsaStep(prog, Arguments(m0), c) == Finished(I64(Get(MachineStep(code, m).state.regs, RAX)))
  {
    LeavesTogether(code, nodes, slots, flow, prog, m0, p, s);
    ReturnsCleanly(code, m0, m, s);
  }

  // ----- whole runs -----

  /**
   Machine and program after equally many steps. Either both stand at the end of the same path p and
   every available field has the machine's value, unless an erased instruction of p overwrote it and
   nothing has defined it since; or both have returned, with equal RAX.
   */
  ghost predicate Agree(code: Code, nodes: Nodes, slots: seq<StackProof.StackSlot>, flow: Flow, m0: State, steps: nat,
                        p: seq<nat>, machine: StepResult, ssa: SsaResult) {
    match (machine, ssa)
    case (Next(m), Running(c)) =>
      && FlowPath(nodes, code.address, p) && |p| == steps + 1 && Last(p) == m.rip == c.at
      && m.rip in nodes && m.rip in flow.incoming && Reads(nodes[m.rip]) !! TaintAlong(nodes, slots, p)
      && Tracks(c.env, m.rip, flow.incoming[m.rip], TaintAlong(nodes, slots, p), Values(m, Get(m0.regs, RSP), slots))
    case (Returned(m), Finished(v)) => v == I64(Get(m.regs, RAX)) && CleanReturn(m0, m)
    case _ => false
  }

  /** The addresses a run passes, until it returns or is stuck. */
  ghost function Trace(code: Code, m0: State, steps: nat): (p: seq<nat>)
    ensures |p| > 0
  {
    if steps == 0 then [m0.rip]
    else
      match MachineRun(code, m0, steps)
      case Next(m) => Trace(code, m0, steps - 1) + [m.rip]
      case _ => Trace(code, m0, steps - 1)
  }

  /** Where the run stands it reads no slot that a push of RBP overwrote since the run last defined it. */
  ghost predicate CleanRead(code: Code, nodes: Nodes, slots: seq<StackProof.StackSlot>, m0: State, steps: nat) {
    MachineRun(code, m0, steps).Next? ==> SlotsCleanAt(nodes, slots, Trace(code, m0, steps))
  }

  /** All reads before this many steps are clean. */
  ghost predicate CleanRun(code: Code, nodes: Nodes, slots: seq<StackProof.StackSlot>, m0: State, steps: nat) {
    steps > 0 ==> CleanRun(code, nodes, slots, m0, steps - 1) && CleanRead(code, nodes, slots, m0, steps - 1)
  }

  /** The states of a run, kept with the path it took until it returns. */
  ghost predicate RunsAlong(code: Code, nodes: Nodes, prog: Program, m0: State, steps: nat, p: seq<nat>) {
    match (MachineRun(code, m0, steps), SsaRun(prog, Arguments(m0), steps))
    case (Next(m), Running(c)) => |p| == steps + 1 && InStep(code, nodes, prog, m0, p, m, c)
    case (Returned(m), Finished(v)) => v == I64(Get(m.regs, RAX)) && CleanReturn(m0, m)
    case _ => false
  }

  lemma StartTogether(code: Code, nodes: Nodes, slots: seq<StackProof.StackSlot>, flow: Flow, prog: Program, m0: State)
    requires Lifted(code, nodes, slots, flow, prog) && m0.rip == code.address
    ensures RunsAlong(code, nodes, prog, m0, 0, [code.address])
  {
    assert prog.entry == code.address && code.address in nodes && code.address in prog.blocks by {
      EntersAtEntry(code, nodes, slots, flow, prog);
    }
    StartConfig(prog, Arguments(m0));
  }

  lemma EntersAtEntry(code: Code, nodes: Nodes, slots: seq<StackProof.StackSlot>, flow: Flow, prog: Program)
    requires Lifted(code, nodes, slots, flow, prog)
    ensures prog.entry == code.address && code.address in nodes && code.address in prog.blocks
  {
    LiftedBlocks(code, nodes, slots, flow, prog);
    assert Unfold(true);
  }

  lemma StartConfig(prog: Program, arguments: seq<Word>)
    requires prog.entry in prog.blocks
    ensures SsaRun(prog, arguments, 0) == Running(Config(prog.entry, EnvAlong(prog, arguments, [prog.entry])))
  {
  }

  lemma StepTogether(code: Code, nodes: Nodes, slots: seq<StackProof.StackSlot>, flow: Flow, prog: Program, m0: State,
                     steps: nat, before: seq<nat>)
    returns (p: seq<nat>)
    requires Lifted(code, nodes, slots, flow, prog) && RunsAlong(code, nodes, prog, m0, steps, before)
    requires MachineRun(code, m0, steps).Next? ==>
             CleanBefore(nodes, slots, before) && SlotsCleanAt(nodes, slots, before)
    ensures RunsAlong(code, nodes, prog, m0, steps + 1, p)
    ensures MachineRun(code, m0, steps + 1).Next? ==>
            |before| > 0 && |p| > 1 && Front(p) == before && CleanBefore(nodes, slots, p)
  {
    p := before;
    match (MachineRun(code, m0, steps), SsaRun(prog, Arguments(m0), steps)) {
      case (Next(m), Running(c)) =>
        var s := BecomePoised(code, nodes, slots, flow, prog, m0, before);
        if nodes[Last(before)].op.Ret? {
          ReturnTogether(code, nodes, slots, flow, prog, m0, before, m, c, s);
        } else {
          assert NodesExact(code, Scalar(CALL_FREE), nodes) by {
            assert Unfold(true);
          }
          p := MoveTogether(code, nodes, slots, flow, prog, m0, before, m, c, s);
          CleanGrows(nodes, slots, p);
        }
      case _ =>
    }
  }

  lemma CleanGrows(nodes: Nodes, slots: seq<StackProof.StackSlot>, p: seq<nat>)
    requires |p| > 1 && CleanBefore(nodes, slots, Front(p)) && CleanAt(nodes, slots, Front(p))
    ensures CleanBefore(nodes, slots, p)
  {
    forall i | 1 <= i < |p|
      ensures CleanAt(nodes, slots, p[..i])
    {
      assert i < |p| - 1 ==> p[..i] == Front(p)[..i];
      assert i == |p| - 1 ==> p[..i] == Front(p);
    }
  }

  /** A run stays in lock step as long as its own reads have been clean. */
  lemma {:induction false} RunTogether(code: Code, nodes: Nodes, slots: seq<StackProof.StackSlot>, flow: Flow,
                                       prog: Program, m0: State, steps: nat)
    requires Lifted(code, nodes, slots, flow, prog) && CleanRun(code, nodes, slots, m0, steps) && m0.rip == code.address
    ensures RunsAlong(code, nodes, prog, m0, steps, Trace(code, m0, steps))
    ensures MachineRun(code, m0, steps).Next? ==> CleanBefore(nodes, slots, Trace(code, m0, steps))
  {
    if steps == 0 {
      StartTogether(code, nodes, slots, flow, prog, m0);
    } else {
      RunTogether(code, nodes, slots, flow, prog, m0, steps - 1);
      assert CleanRead(code, nodes, slots, m0, steps - 1);
      FollowTrace(code, nodes, slots, flow, prog, m0, steps - 1);
    }
  }

  lemma FollowTrace(code: Code, nodes: Nodes, slots: seq<StackProof.StackSlot>, flow: Flow, prog: Program, m0: State,
                    steps: nat)
    requires Lifted(code, nodes, slots, flow, prog) && CleanRead(code, nodes, slots, m0, steps)
    requires RunsAlong(code, nodes, prog, m0, steps, Trace(code, m0, steps))
    requires MachineRun(code, m0, steps).Next? ==> CleanBefore(nodes, slots, Trace(code, m0, steps))
    ensures RunsAlong(code, nodes, prog, m0, steps + 1, Trace(code, m0, steps + 1))
    ensures MachineRun(code, m0, steps + 1).Next? ==> CleanBefore(nodes, slots, Trace(code, m0, steps + 1))
  {
    var p := StepTogether(code, nodes, slots, flow, prog, m0, steps, Trace(code, m0, steps));
    if MachineRun(code, m0, steps + 1).Next? {
      EndsWhereItIs(code, nodes, prog, m0, steps + 1, p);
      TraceGrows(code, m0, steps + 1, p);
    } else {
      PathForgotten(code, nodes, prog, m0, steps + 1, p, Trace(code, m0, steps + 1));
    }
  }

  lemma EndsWhereItIs(code: Code, nodes: Nodes, prog: Program, m0: State, steps: nat, p: seq<nat>)
    requires RunsAlong(code, nodes, prog, m0, steps, p) && MachineRun(code, m0, steps).Next?
    ensures |p| == steps + 1 && Last(p) == MachineRun(code, m0, steps).state.rip && FlowPath(nodes, code.address, p)
  {
  }

  lemma TraceGrows(code: Code, m0: State, steps: nat, p: seq<nat>)
    requires steps > 0 && MachineRun(code, m0, steps).Next? && |p| > 1 && Front(p) == Trace(code, m0, steps - 1)
    requires Last(p) == MachineRun(code, m0, steps).state.rip
    ensures Trace(code, m0, steps) == p
  {
    assert p == Front(p) + [Last(p)];
  }

  /** After the return no path is kept. */
  lemma PathForgotten(code: Code, nodes: Nodes, prog: Program, m0: State, steps: nat, p: seq<nat>, q: seq<nat>)
    requires RunsAlong(code, nodes, prog, m0, steps, p) && !MachineRun(code, m0, steps).Next?
    ensures RunsAlong(code, nodes, prog, m0, steps, q)
  {
  }

  /** A clean read gives the program the machine's values. */
  lemma AgreeWhereClean(code: Code, nodes: Nodes, slots: seq<StackProof.StackSlot>, flow: Flow, prog: Program,
                        m0: State, steps: nat)
    requires Lifted(code, nodes, slots, flow, prog) && CleanRun(code, nodes, slots, m0, steps + 1) &&
             m0.rip == code.address
    ensures Agree(code, nodes, slots, flow, m0, steps, Trace(code, m0, steps), MachineRun(code, m0, steps),
            SsaRun(prog, Arguments(m0), steps))
    ensures ReadsAlike(nodes, slots, m0, MachineRun(code, m0, steps), SsaRun(prog, Arguments(m0), steps))
  {
    RunTogether(code, nodes, slots, flow, prog, m0, steps);
    if MachineRun(code, m0, steps).Next? {
      assert CleanRead(code, nodes, slots, m0, steps);
      var s := BecomePoised(code, nodes, slots, flow, prog, m0, Trace(code, m0, steps));
    }
  }

  /** Both stand at the same node and all it reads agrees, or both returned the same RAX. */
  ghost predicate ReadsAlike(nodes: Nodes, slots: seq<StackProof.StackSlot>, m0: State, machine: StepResult,
                             ssa: SsaResult) {
    match (machine, ssa)
    case (Next(m), Running(c)) =>
      && m.rip == c.at && m.rip in nodes
      && forall f :: f in Reads(nodes[m.rip]) ==> Look(c.env, In(f, m.rip)) == FieldOf(m, Get(m0.regs, RSP), slots, f)
    case (Returned(m), Finished(v)) => v == I64(Get(m.regs, RAX)) && CleanReturn(m0, m)
    case _ => false
  }

  lemma CleanPathCleanRead(code: Code, nodes: Nodes, slots: seq<StackProof.StackSlot>, flow: Flow, prog: Program,
                           m0: State, steps: nat)
    requires Lifted(code, nodes, slots, flow, prog) && SlotsClean(nodes, slots, code.address) && m0.rip == code.address
    requires CleanRun(code, nodes, slots, m0, steps)
    ensures CleanRead(code, nodes, slots, m0, steps)
  {
    if MachineRun(code, m0, steps).Next? {
      RunTogether(code, nodes, slots, flow, prog, m0, steps);
      EndsWhereItIs(code, nodes, prog, m0, steps, Trace(code, m0, steps));
    }
  }

  /** Code whose paths are clean has clean runs only. */
  lemma {:induction false} CleanPathsCleanRuns(code: Code, nodes: Nodes, slots: seq<StackProof.StackSlot>, flow: Flow,
                                               prog: Program, m0: State, steps: nat)
    requires Lifted(code, nodes, slots, flow, prog) && SlotsClean(nodes, slots, code.address) && m0.rip == code.address
    ensures CleanRun(code, nodes, slots, m0, steps)
  {
    if steps > 0 {
      CleanPathsCleanRuns(code, nodes, slots, flow, prog, m0, steps - 1);
      CleanPathCleanRead(code, nodes, slots, flow, prog, m0, steps - 1);
    }
  }

  /** Lift correctness: lock step over every run from every state, never stuck, never undefined. */
  lemma LiftIsCorrect(code: Code, nodes: Nodes, slots: seq<StackProof.StackSlot>, flow: Flow, prog: Program, m0: State,
                      steps: nat)
    returns (p: seq<nat>)
    requires Lifted(code, nodes, slots, flow, prog) && SlotsClean(nodes, slots, code.address) && m0.rip == code.address
    ensures Agree(code, nodes, slots, flow, m0, steps, p, MachineRun(code, m0, steps),
            SsaRun(prog, Arguments(m0), steps))
  {
    CleanPathsCleanRuns(code, nodes, slots, flow, prog, m0, steps + 1);
    AgreeWhereClean(code, nodes, slots, flow, prog, m0, steps);
    p := Trace(code, m0, steps);
  }
}
