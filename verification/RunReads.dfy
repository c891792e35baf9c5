/**
 The gap of the lift, exactly, on real runs: machine and program agree on all runs from all callers if
 and only if no run reads a slot that its own push of RBP overwrote. Until its first such read a run is
 in lock step with the program, so two callers that differ only in RBP come to that read together, and
 the program cannot be right for both.
 */
module RunReads {
  import opened Words
  import opened Semantics
  import opened Machine
  import opened Decode
  import opened Fields
  import opened DefiniteAssignment
  import opened Ssa
  import opened Runs
  import opened Paths
  import opened LiftCorrect
  import opened LockStep
  import opened SavedRbpSlots
  import StackProof

  /** Some caller's run comes to a tainted read. */
  lemma {:induction false} FirstTaintedRead(code: Code, nodes: Nodes, slots: seq<StackProof.StackSlot>, m0: State,
                                            steps: nat)
    returns (first: nat)
    requires !CleanRead(code, nodes, slots, m0, steps)
    ensures first <= steps && CleanRun(code, nodes, slots, m0, first) && !CleanRead(code, nodes, slots, m0, first)
  {
    first := 0;
    while CleanRead(code, nodes, slots, m0, first)
      invariant first <= steps && CleanRun(code, nodes, slots, m0, first)
      decreases steps - first
    {
      first := first + 1;
    }
  }

  /** A caller that differs only in RBP takes the same way, as long as its reads are clean. */
  lemma {:induction false} SameWay(code: Code, nodes: Nodes, slots: seq<StackProof.StackSlot>, flow: Flow,
                                   prog: Program, m0: State, rbp: Word, steps: nat)
    requires Lifted(code, nodes, slots, flow, prog) && m0.rip == code.address
    requires CleanRun(code, nodes, slots, m0, steps) && MachineRun(code, m0, steps).Next?
    ensures MachineRun(code, WithRbp(m0, rbp), steps).Next? && CleanRun(code, nodes, slots, WithRbp(m0, rbp), steps)
    ensures Trace(code, WithRbp(m0, rbp), steps) == Trace(code, m0, steps)
  {
    if steps > 0 {
      SameWay(code, nodes, slots, flow, prog, m0, rbp, steps - 1);
      SameStep(code, nodes, slots, flow, prog, m0, rbp, steps);
    }
  }

  lemma SameStep(code: Code, nodes: Nodes, slots: seq<StackProof.StackSlot>, flow: Flow, prog: Program, m0: State,
                 rbp: Word, steps: nat)
    requires Lifted(code, nodes, slots, flow, prog) && m0.rip == code.address && steps > 0
    requires CleanRun(code, nodes, slots, m0, steps) && MachineRun(code, m0, steps).Next?
    requires CleanRun(code, nodes, slots, WithRbp(m0, rbp), steps - 1)
    requires Trace(code, WithRbp(m0, rbp), steps - 1) == Trace(code, m0, steps - 1)
    ensures MachineRun(code, WithRbp(m0, rbp), steps).Next? && CleanRun(code, nodes, slots, WithRbp(m0, rbp), steps)
    ensures Trace(code, WithRbp(m0, rbp), steps) == Trace(code, m0, steps)
  {
    var other := WithRbp(m0, rbp);
    CallersAlike(m0, rbp);
    assert CleanRead(code, nodes, slots, other, steps - 1) by {
      assert CleanRead(code, nodes, slots, m0, steps - 1);
    }
    RunTogether(code, nodes, slots, flow, prog, m0, steps);
    RunTogether(code, nodes, slots, flow, prog, other, steps);
    SameEnd(code, nodes, prog, m0, other, steps);
  }

  /** Two runs in lock step with one run of the program stand at the same address. */
  lemma SameEnd(code: Code, nodes: Nodes, prog: Program, m0: State, m1: State, steps: nat)
    requires Arguments(m1) == Arguments(m0) && MachineRun(code, m0, steps).Next?
    requires RunsAlong(code, nodes, prog, m0, steps, Trace(code, m0, steps))
    requires RunsAlong(code, nodes, prog, m1, steps, Trace(code, m1, steps))
    ensures MachineRun(code, m1, steps).Next?
    ensures MachineRun(code, m1, steps).state.rip == MachineRun(code, m0, steps).state.rip
  {
  }

  /** At a run's first tainted read, all before it being clean, some caller's reads disagree. */
  lemma TaintedRunDisagrees(code: Code, nodes: Nodes, slots: seq<StackProof.StackSlot>, flow: Flow, prog: Program,
                            m0: State, steps: nat)
    returns (m1: State)
    requires Lifted(code, nodes, slots, flow, prog) && m0.rip == code.address
    requires CleanRun(code, nodes, slots, m0, steps) && !CleanRead(code, nodes, slots, m0, steps)
    ensures m1.rip == code.address && !ReadsAlike(nodes, slots, m1, MachineRun(code, m1, steps),
            SsaRun(prog, Arguments(m1), steps))
  {
    var p, zero, ones := Trace(code, m0, steps), WithRbp(m0, 0), WithRbp(m0, TWO64 - 1);
    RunTogether(code, nodes, slots, flow, prog, m0, steps);
    EndsWhereItIs(code, nodes, prog, m0, steps, p);
    var i: nat :| SlotField(i) in Reads(nodes[Last(p)]) && SlotField(i) in TaintAlong(nodes, slots, p);
    KnownSlots(code, nodes, slots, flow, prog);
    TaintedFieldsDiffer(code, nodes, slots, m0, p, i);
    ThereAlong(code, nodes, slots, flow, prog, m0, 0, steps);
    ThereAlong(code, nodes, slots, flow, prog, m0, TWO64 - 1, steps);
    m1 := if ReadsAlike(nodes, slots, zero, MachineRun(code, zero, steps),
      SsaRun(prog, Arguments(zero), steps)) then ones else zero;
  }

  /** The caller with another RBP stands at the end of the same path, and so does the program. */
  lemma ThereAlong(code: Code, nodes: Nodes, slots: seq<StackProof.StackSlot>, flow: Flow, prog: Program, m0: State,
                   rbp: Word, steps: nat)
    requires Lifted(code, nodes, slots, flow, prog) && m0.rip == code.address
    requires CleanRun(code, nodes, slots, m0, steps) && MachineRun(code, m0, steps).Next?
    ensures var m1, p := WithRbp(m0, rbp), Trace(code, m0, steps);
            MachineRun(code, m1, steps) == Next(MachineAlong(code, m1, p)) &&
              MachineRun(code, m1, steps).state.rip == Last(p) &&
            SsaRun(prog, Arguments(m1), steps) == SsaRun(prog, Arguments(m0), steps) &&
              Get(m1.regs, RSP) == Get(m0.regs, RSP)
    ensures SsaRun(prog, Arguments(m0), steps).Running?
  {
    var m1 := WithRbp(m0, rbp);
    CallersAlike(m0, rbp);
    SameWay(code, nodes, slots, flow, prog, m0, rbp, steps);
    RunTogether(code, nodes, slots, flow, prog, m0, steps);
    RunTogether(code, nodes, slots, flow, prog, m1, steps);
  }

  /** Agreement on every run of every caller, exactly when no run of any caller reads a tainted slot. */
  lemma RunsAgreeExactly(code: Code, nodes: Nodes, slots: seq<StackProof.StackSlot>, flow: Flow, prog: Program)
    requires Lifted(code, nodes, slots, flow, prog)
    ensures
      (forall m0: State, steps: nat :: m0.rip == code.address ==>
         ReadsAlike(nodes, slots, m0, MachineRun(code, m0, steps), SsaRun(prog, Arguments(m0), steps))) <==>
      (forall m0: State, steps: nat :: m0.rip == code.address ==> CleanRead(code, nodes, slots, m0, steps))
  {
    if forall m0: State, steps: nat :: m0.rip == code.address ==> CleanRead(code, nodes, slots, m0, steps) {
      forall m0: State, steps: nat | m0.rip == code.address
        ensures ReadsAlike(nodes, slots, m0, MachineRun(code, m0, steps), SsaRun(prog, Arguments(m0), steps))
      {
        AllClean(code, nodes, slots, m0, steps + 1);
        AgreeWhereClean(code, nodes, slots, flow, prog, m0, steps);
      }
    } else {
      var m0: State, steps: nat :| m0.rip == code.address && !CleanRead(code, nodes, slots, m0, steps);
      var first := FirstTaintedRead(code, nodes, slots, m0, steps);
      var m1 := TaintedRunDisagrees(code, nodes, slots, flow, prog, m0, first);
    }
  }

  lemma {:induction false} AllClean(code: Code, nodes: Nodes, slots: seq<StackProof.StackSlot>, m0: State, steps: nat)
    requires forall k: nat :: CleanRead(code, nodes, slots, m0, k)
    ensures CleanRun(code, nodes, slots, m0, steps)
  {
    if steps > 0 {
      AllClean(code, nodes, slots, m0, steps - 1);
    }
  }
}
