/**
 The stack proof over whole machine runs: whatever the branches do, accepted call-free code keeps the
 stack discipline of the System V AMD64 psABI, section 3.2.2, and never leaves the modelled machine.
 */
module StackDiscipline {
  import opened Wrappers
  import opened Machine
  import opened Decode
  import opened Fields
  import opened ScalarRecovery
  import opened StackSoundness
  import opened Compile
  import opened Runs
  import opened Paths
  import opened LiftCorrect
  import opened LockStep
  import opened Lift
  import StackProof

  /**
   Still running: pointers at their recorded offsets, the saved RBP in its word, the return address and
   the caller's memory untouched. Returned: RSP eight above its entry value, RBP and memory as at entry.
   */
  ghost predicate Disciplined(code: Code, m0: State, r: StepResult) {
    match r
    case Next(m) => exists s :: StackProof.Arrives(code, false, m.rip, s) && FrameHolds(m0, m, s)
    case Returned(m) => CleanReturn(m0, m)
    case Stuck => false
  }

  ghost predicate OnPath(code: Code, nodes: Nodes, m0: State, r: StepResult, p: seq<nat>) {
    match r
    case Next(m) => FlowPath(nodes, code.address, p) && m == MachineAlong(code, m0, p) && m.rip == Last(p)
    case Returned(m) => CleanReturn(m0, m)
    case Stuck => false
  }

  /** What recovery establishes, folded. */
  ghost predicate Ready(code: Code, nodes: Nodes) {
    forall b: bool {:trigger Unfold(b)} :: Unfold(b) ==>
      ScalarRecovered(code, CALL_FREE, nodes) && AllEmittable(nodes) && ClosedGraph(nodes, code.address)
  }

  lemma RunOnPath(code: Code, nodes: Nodes, m0: State, m: State, before: seq<nat>) returns (p: seq<nat>)
    requires Ready(code, nodes) && OnPath(code, nodes, m0, Next(m), before)
    ensures OnPath(code, nodes, m0, MachineStep(code, m), p)
  {
    assert Unfold(true);
    PathInNodes(nodes, code.address, before);
    var s := PathFrame(code, nodes, m0, before);
    assert StackProof.Accepted(code, false, m.rip, s);
    if nodes[m.rip].op.Ret? {
      ReturnsCleanly(code, m0, m, s);
      p := before;
    } else {
      MachineMoves(code, nodes, m);
      var next := nodes[m.rip].successors[Choice(nodes[m.rip], m.flags)];
      PathSnoc(NodeEdges(nodes), code.address, before, next);
      p := before + [next];
    }
  }

  lemma {:induction false} RunsOnPaths(code: Code, nodes: Nodes, m0: State, steps: nat) returns (p: seq<nat>)
    requires Ready(code, nodes) && m0.rip == code.address
    ensures OnPath(code, nodes, m0, MachineRun(code, m0, steps), p)
  {
    p := [code.address];
    if steps > 0 {
      p := RunsOnPaths(code, nodes, m0, steps - 1);
      if MachineRun(code, m0, steps - 1).Next? {
        p := RunOnPath(code, nodes, m0, MachineRun(code, m0, steps - 1).state, p);
      }
    }
  }

  /** Stack discipline of every run from every caller, whether or not the slots are safe to lift. */
  lemma RunsKeepDiscipline(code: Code, m0: State, steps: nat)
    requires Liftable(code) && m0.rip == code.address
    ensures Disciplined(code, m0, MachineRun(code, m0, steps))
  {
    var nodes: Nodes :| ScalarRecovered(code, CALL_FREE, nodes);
    RecoveredNodes(code, nodes);
    LiftedGraph(code, nodes);
    var p := RunsOnPaths(code, nodes, m0, steps);
    assert Unfold(true);
    if MachineRun(code, m0, steps).Next? {
      var s := PathFrame(code, nodes, m0, p);
    }
  }
}
