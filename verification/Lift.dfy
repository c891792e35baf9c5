/** The call-free lifter (`lift_cfg`): exactly which code it accepts, and what its program does. */
module Lift {
  import opened Wrappers
  import opened Semantics
  import opened Machine
  import opened Decode
  import opened CfgRecovery
  import opened Fields
  import opened DefiniteAssignment
  import opened GenKill
  import opened ScalarRecovery
  import opened Ssa
  import opened Emit
  import opened Compile
  import opened Runs
  import opened Paths
  import opened LiftCorrect
  import opened LockStep
  import StackProof

  datatype LiftError = BadSize | RecoveryRefused(recovery: RecoveryError) | ReadsRefused(flow: FlowError)

  /** The code `lift_cfg` accepts, said without its algorithm. */
  ghost predicate Liftable(code: Code) {
    && 1 <= |code.table| <= 4096
    && Accepts(code, CALL_FREE)
    && exists nodes: Nodes :: ScalarRecovered(code, CALL_FREE, nodes) && ReadsInitialized(nodes, code.address)
  }

  /** Some lift of the code ends in this program. */
  ghost predicate IsLift(code: Code, prog: Program) {
    exists nodes: Nodes, slots: seq<StackProof.StackSlot>, flow: Flow :: Lifted(code, nodes, slots, flow, prog)
  }

  method LiftCfg(code: Code) returns (r: Result<Program, LiftError>)
    requires code.Valid()
    ensures r.Success? <==> Liftable(code)
    ensures r.Success? ==> IsLift(code, r.value)
    ensures r.Failure? ==>
              match r.error
              case BadSize => !(1 <= |code.table| <= 4096)
              case RecoveryRefused(_) => !Accepts(code, CALL_FREE)
              case ReadsRefused(_) => Accepts(code, CALL_FREE)
  {
    if |code.table| == 0 || |code.table| > 4096 {
      return Failure(BadSize);
    }
    var recovered := RecoverScalar(code, CALL_FREE);
    if recovered.Failure? {
      return Failure(RecoveryRefused(recovered.error));
    }
    var nodes := recovered.value;
    RecoveredNodes(code, nodes);
    var flow := Analyze(nodes, code.address);
    if flow.Failure? {
      OnlyNodes(code, nodes);
      return Failure(ReadsRefused(flow.error));
    }
    IncomingKeys(nodes, code.address, flow.value);
    var prog := EmitProgram(nodes, code.address, flow.value);
    LiftEstablished(code, nodes, flow.value, prog);
    r := Success(prog);
  }

  // ----- what recovery hands to the dataflow -----

  lemma RecoveredEmittable(code: Code, nodes: Nodes, slots: seq<StackProof.StackSlot>)
    requires NodesExact(code, Scalar(CALL_FREE), nodes) && SlotsAssigned(code, false, nodes, slots)
    ensures AllEmittable(nodes)
  {
    forall ip | ip in nodes
      ensures Emittable(nodes[ip])
    {
      assert Admissible(code, Scalar(CALL_FREE), ip);
      assert !CallRejected(Scalar(CALL_FREE), code.OpAt(ip));
    }
  }

  lemma GprsComplete(r: Gpr)
    ensures r in GPRS
  {
    match r
    case RAX => case RBX => case RDI => case RSI => case RDX => case RCX => case R8 => case R9 =>
    case R10 => case R11 => case R12 => case R13 => case R14 => case R15 =>
  }

  lemma KnownField(f: Field)
    requires f.SlotField? ==> f.index < 8
    ensures f in ALL_FIELDS
  {
    match f {
      case RegisterField(r) => GprsComplete(r);
      case FlagField(flag) => WritesAllFlags(Nop);
      case SlotField(i) =>
    }
  }

  lemma FieldsBounded(node: Node)
    requires node.slot.Some? ==> node.slot.value < 8
    ensures Defs(node) <= ALL_FIELDS && Reads(node) <= ALL_FIELDS
  {
    forall f | f in Defs(node) || f in Reads(node)
      ensures f in ALL_FIELDS
    {
      KnownField(f);
    }
  }

  lemma SlotIndexBounded(code: Code, nodes: Nodes, slots: seq<StackProof.StackSlot>, ip: nat)
    requires NodesExact(code, Scalar(CALL_FREE), nodes) && FramesSound(code, false) &&
             SlotsAssigned(code, false, nodes, slots)
    requires AllEmittable(nodes) && ip in nodes && nodes[ip].slot.Some?
    ensures nodes[ip].slot.value < |slots| <= 8
  {
    NodesReachable(code, nodes, ip);
    var p: seq<nat> :| FlowPath(nodes, code.address, p) && Last(p) == ip;
    var s := PathFrame(code, nodes, State(0, map[], Flags(false, false, false, false), map[]), p);
    NodeOwnsSlot(code, nodes, slots, ip, s);
  }

  lemma RecoveredNodes(code: Code, nodes: Nodes)
    requires ScalarRecovered(code, CALL_FREE, nodes)
    ensures Recovered(nodes, code.address) && AllEmittable(nodes)
  {
    var slots :| SlotsAssigned(code, false, nodes, slots);
    RecoveredEmittable(code, nodes, slots);
    LiftedGraph(code, nodes);
    forall ip | ip in nodes
      ensures Reachable(NodeEdges(nodes), code.address, ip)
      ensures Defs(nodes[ip]) <= ALL_FIELDS && Reads(nodes[ip]) <= ALL_FIELDS
    {
      NodesReachable(code, nodes, ip);
      if nodes[ip].slot.Some? {
        SlotIndexBounded(code, nodes, slots, ip);
      }
      FieldsBounded(nodes[ip]);
    }
  }

  lemma IncomingKeys(nodes: Nodes, entry: nat, flow: Flow)
    requires MeetOverPaths(Initialization(nodes, entry), flow.incoming) &&
             PredecessorsExact(nodes, nodes.Keys, flow.predecessors)
    ensures flow.incoming.Keys == nodes.Keys && flow.predecessors.Keys == nodes.Keys
  {
  }

  lemma LiftEstablished(code: Code, nodes: Nodes, flow: Flow, prog: Program)
    requires ScalarRecovered(code, CALL_FREE, nodes) && AllEmittable(nodes)
    requires ReadsInitialized(nodes, code.address) && Recovered(nodes, code.address)
    requires MeetOverPaths(Initialization(nodes, code.address), flow.incoming)
    requires PredecessorsExact(nodes, nodes.Keys, flow.predecessors) && Compiled(nodes, code.address, flow, prog)
    ensures IsLift(code, prog)
  {
    var slots :| SlotsAssigned(code, false, nodes, slots);
    ReadsChecked(nodes, code.address, flow.incoming);
    assert LiftedFacts(code, nodes, slots, flow, prog);
    assert Lifted(code, nodes, slots, flow, prog);
  }

  // ----- recovery has one outcome -----

  lemma HasMember(a: seq<StackProof.StackSlot>)
    ensures a == [] || exists x :: x in a
  {
    if a != [] {
      assert a[0] in a;
    }
  }

  lemma OneIndex(slots: seq<StackProof.StackSlot>, i: nat, j: nat)
    requires StackProof.Ordered(slots) && i < |slots| && j < |slots| && slots[i] == slots[j]
    ensures i == j
  {
  }

  lemma {:induction false} OrderedUnique(a: seq<StackProof.StackSlot>, b: seq<StackProof.StackSlot>)
    requires StackProof.Ordered(a) && StackProof.Ordered(b) && forall x :: x in a <==> x in b
    ensures a == b
  {
    if a == [] {
      HasMember(b);
    } else if b == [] {
      HasMember(a);
    } else {
      assert a[0] in b && b[0] in a;
      var i :| 0 <= i < |b| && b[i] == a[0];
      var j :| 0 <= j < |a| && a[j] == b[0];
      assert a[0] == b[0];
      forall x
        ensures x in a[1..] <==> x in b[1..]
      {
        assert x in a <==> x == a[0] || x in a[1..];
        assert x in b <==> x == b[0] || x in b[1..];
      }
      OrderedUnique(a[1..], b[1..]);
    }
  }

  lemma SameSlotIndex(code: Code, nodes: Nodes, other: Nodes, slots: seq<StackProof.StackSlot>, ip: nat)
    requires NodesExact(code, Scalar(CALL_FREE), nodes) && NodesExact(code, Scalar(CALL_FREE), other) &&
             FramesSound(code, false)
    requires SlotsAssigned(code, false, nodes, slots) && SlotsAssigned(code, false, other, slots)
    requires AllEmittable(nodes) && ip in nodes && ip in other
    ensures nodes[ip].slot == other[ip].slot
  {
    if nodes[ip].slot.Some? {
      NodesReachable(code, nodes, ip);
      var p: seq<nat> :| FlowPath(nodes, code.address, p) && Last(p) == ip;
      var s := PathFrame(code, nodes, State(0, map[], Flags(false, false, false, false), map[]), p);
      NodeOwnsSlot(code, nodes, slots, ip, s);
      NodeOwnsSlot(code, other, slots, ip, s);
      OneIndex(slots, nodes[ip].slot.value, other[ip].slot.value);
    }
  }

  /** Which nodes and slots come out is settled by the code. */
  lemma OnlyNodes(code: Code, nodes: Nodes)
    requires ScalarRecovered(code, CALL_FREE, nodes)
    ensures forall other: Nodes :: ScalarRecovered(code, CALL_FREE, other) ==> other == nodes
  {
    RecoveredNodes(code, nodes);
    var slots :| SlotsAssigned(code, false, nodes, slots);
    forall other: Nodes | ScalarRecovered(code, CALL_FREE, other)
      ensures other == nodes
    {
      var otherSlots :| SlotsAssigned(code, false, other, otherSlots);
      OrderedUnique(slots, otherSlots);
      SameNodes(code, nodes, other, slots);
    }
  }

  lemma SameNodes(code: Code, nodes: Nodes, other: Nodes, slots: seq<StackProof.StackSlot>)
    requires NodesExact(code, Scalar(CALL_FREE), nodes) && NodesExact(code, Scalar(CALL_FREE), other) &&
             FramesSound(code, false)
    requires SlotsAssigned(code, false, nodes, slots) && SlotsAssigned(code, false, other, slots) && AllEmittable(nodes)
    ensures other == nodes
  {
    assert forall ip :: ip in other <==> ip in nodes;
    forall ip | ip in nodes
      ensures other[ip] == nodes[ip]
    {
      SameSlotIndex(code, nodes, other, slots, ip);
    }
  }

  // ----- what a lift does -----

  /** No path reads a stack slot that a later push of RBP overwrote; a property of the code alone. */
  ghost predicate SlotSafe(code: Code) {
    forall nodes: Nodes, slots: seq<StackProof.StackSlot> ::
      ScalarRecovered(code, CALL_FREE, nodes) && SlotsAssigned(code, false, nodes, slots) ==>
        SlotsClean(nodes, slots, code.address)
  }

  /** Both still run and stand at the same address, or both returned: same RAX, stack and caller memory restored. */
  ghost predicate SameSoFar(m0: State, machine: StepResult, ssa: SsaResult) {
    match (machine, ssa)
    case (Next(m), Running(c)) => m.rip == c.at
    case (Returned(m), Finished(v)) => v == I64(Get(m.regs, RAX)) && CleanReturn(m0, m)
    case _ => false
  }

  /** Lift correctness of accepted code, for every caller and every number of steps. */
  lemma LiftedCodeRunsAlike(code: Code, prog: Program, m0: State, steps: nat)
    requires IsLift(code, prog) && SlotSafe(code) && m0.rip == code.address
    ensures SameSoFar(m0, MachineRun(code, m0, steps), SsaRun(prog, Arguments(m0), steps))
  {
    var nodes: Nodes, slots: seq<StackProof.StackSlot>, flow: Flow :| Lifted(code, nodes, slots, flow, prog);
    LiftedRecovery(code, nodes, slots, flow, prog);
    var p := LiftIsCorrect(code, nodes, slots, flow, prog, m0, steps);
  }

  lemma LiftedRecovery(code: Code, nodes: Nodes, slots: seq<StackProof.StackSlot>, flow: Flow, prog: Program)
    requires Lifted(code, nodes, slots, flow, prog)
    ensures ScalarRecovered(code, CALL_FREE, nodes) && SlotsAssigned(code, false, nodes, slots)
  {
    assert Unfold(true);
  }
}
