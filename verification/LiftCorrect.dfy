/** The lift theorem: the lifted program and the machine run in lock step, and return alike. */
module LiftCorrect {
  import opened Wrappers
  import opened Words
  import opened Semantics
  import opened Machine
  import opened Decode
  import opened CfgRecovery
  import opened Fields
  import opened FlagUse
  import opened GenKill
  import opened DefiniteAssignment
  import opened ScalarRecovery
  import opened StackSoundness
  import opened Agreement
  import opened Simulation
  import opened Ssa
  import opened Emit
  import opened Compile
  import opened Paths
  import StackProof

  const CALL_FREE: Option<set<nat>> := Some({})

  /** Everything `lift_cfg` has established when it emits a program. */
  ghost predicate LiftedFacts(code: Code, nodes: Nodes, slots: seq<StackProof.StackSlot>, flow: Flow, prog: Program) {
    && NodesExact(code, Scalar(CALL_FREE), nodes)
    && FramesSound(code, false)
    && SlotsAssigned(code, false, nodes, slots)
    && FlagSafe(nodes, code.address)
    && AllEmittable(nodes)
    && MeetOverPaths(Initialization(nodes, code.address), flow.incoming)
    && PredecessorsExact(nodes, nodes.Keys, flow.predecessors)
    && (forall ip :: ip in nodes ==> Reads(nodes[ip]) <= flow.incoming[ip])
    && Compiled(nodes, code.address, flow, prog)
  }

  /** The same facts, folded so that proofs which only pass them on stay small. */
  ghost predicate Lifted(code: Code, nodes: Nodes, slots: seq<StackProof.StackSlot>, flow: Flow, prog: Program) {
    forall b: bool {:trigger Unfold(b)} :: Unfold(b) ==> LiftedFacts(code, nodes, slots, flow, prog)
  }

  /** The six integer arguments a caller passes in registers. */
  function Arguments(m0: State): seq<Word> {
    [Get(m0.regs, RDI), Get(m0.regs, RSI), Get(m0.regs, RDX), Get(m0.regs, RCX), Get(m0.regs, R8), Get(m0.regs, R9)]
  }

  // ----- states along a path -----

  ghost function MachineAlong(code: Code, m0: State, p: seq<nat>): State
    requires |p| > 0
    decreases |p|
  {
    if |p| == 1 then m0
    else
      var previous, m := Last(Front(p)), MachineAlong(code, m0, Front(p));
      if code.Decodes(previous) then Effect(code.OpAt(previous), m).(rip := Last(p)) else m
  }

  ghost function EnvAlong(prog: Program, arguments: seq<Word>, p: seq<nat>): Env
    requires |p| > 0 && forall ip :: ip in p ==> ip in prog.blocks
    decreases |p|
  {
    if |p| == 1 then Enter(map[], arguments, prog.blocks[p[0]], Prologue)
    else
      var previous := Last(Front(p));
      Enter(Run(prog.blocks[previous].body, EnvAlong(prog, arguments, Front(p))), arguments, prog.blocks[Last(p)],
        BlockAt(previous))
  }

  ghost function TaintAlong(nodes: Nodes, slots: seq<StackProof.StackSlot>, p: seq<nat>): set<Field>
    requires |p| > 0
    decreases |p|
  {
    if |p| == 1 then {}
    else
      var previous, taint := Last(Front(p)), TaintAlong(nodes, slots, Front(p));
      if previous in nodes then TaintAfter(nodes[previous], slots, taint) else taint
  }

  /** The node at the end of p reads nothing tainted. */
  ghost predicate CleanAt(nodes: Nodes, slots: seq<StackProof.StackSlot>, p: seq<nat>)
    requires |p| > 0
  {
    Last(p) in nodes ==> Reads(nodes[Last(p)]) !! TaintAlong(nodes, slots, p)
  }

  /** The node at the end of p reads no slot that p overwrote by a push of RBP after last defining it. */
  ghost predicate SlotsCleanAt(nodes: Nodes, slots: seq<StackProof.StackSlot>, p: seq<nat>)
    requires |p| > 0
  {
    Last(p) in nodes ==> forall i: nat :: SlotField(i) in Reads(nodes[Last(p)]) ==>
      SlotField(i) !in TaintAlong(nodes, slots, p)
  }

  /** No path brings a slot overwritten by a later push of RBP to a read of it. */
  ghost predicate SlotsClean(nodes: Nodes, slots: seq<StackProof.StackSlot>, entry: nat) {
    forall p: seq<nat> :: FlowPath(nodes, entry, p) ==> SlotsCleanAt(nodes, slots, p)
  }

  // ----- consequences of a successful lift -----

  lemma LiftedGraph(code: Code, nodes: Nodes)
    requires NodesExact(code, Scalar(CALL_FREE), nodes)
    ensures ClosedGraph(nodes, code.address)
  {
    GraphClosed(code, Scalar(CALL_FREE), nodes);
  }

  lemma {:induction false} PathAllNodes(nodes: Nodes, entry: nat, p: seq<nat>)
    requires ClosedGraph(nodes, entry) && FlowPath(nodes, entry, p)
    ensures forall ip :: ip in p ==> ip in nodes
    decreases |p|
  {
    PathInNodes(nodes, entry, p);
    if |p| > 1 {
      PathFront(NodeEdges(nodes), entry, p);
      PathAllNodes(nodes, entry, Front(p));
      assert p == Front(p) + [Last(p)];
    }
  }

  /** What the stack proof arrives with stays in the bounded frame. */
  lemma {:induction false} ArrivesInFrame(code: Code, q: seq<(nat, StackProof.FrameState)>)
    requires PathFrom(StackProof.FrameEdges(code, false), (code.address, StackProof.ENTRY_FRAME), q)
    ensures InFrame(Last(q).1)
    decreases |q|
  {
    if |q| > 1 {
      PathFront(StackProof.FrameEdges(code, false), (code.address, StackProof.ENTRY_FRAME), q);
      ArrivesInFrame(code, Front(q));
    }
  }

  lemma SlotInWindow(code: Code, slot: StackProof.StackSlot)
    requires StackProof.SlotUsed(code, false, slot)
    ensures -4224 <= slot.offset && slot.offset + slot.width <= 0 && slot.width > 0
  {
    var ip, s :| StackProof.Arrives(code, false, ip, s) && StackProof.Accepted(code, false, ip, s) &&
      StackProof.Accesses(code, ip) &&
                 StackProof.SlotAt(code, false, ip, s) == slot;
    var q :| PathFrom(StackProof.FrameEdges(code, false), (code.address, StackProof.ENTRY_FRAME), q) &&
      Last(q) == (ip, s);
    ArrivesInFrame(code, q);
  }

  lemma SlotsAreValid(code: Code, slots: seq<StackProof.StackSlot>)
    requires StackProof.SlotsExact(code, false, slots)
    ensures SlotsValid(slots)
  {
    forall i | 0 <= i < |slots|
      ensures -4224 <= slots[i].offset && slots[i].offset + slots[i].width <= 0
    {
      assert slots[i] in slots;
      SlotInWindow(code, slots[i]);
    }
    forall i, j | 0 <= i < j < |slots|
      ensures slots[i].offset + slots[i].width <= slots[j].offset || slots[j].offset + slots[j].width <= slots[i].offset
    {
      assert slots[i] in slots && slots[j] in slots && StackProof.Before(slots[i], slots[j]);
      assert !StackProof.Clash(slots[i], slots[j]);
    }
  }

  /** Availability flows along an edge at most through definitions. */
  lemma AvailableOverEdge(code: Code, nodes: Nodes, flow: Flow, ip: nat, next: nat)
    requires NodesExact(code, Scalar(CALL_FREE), nodes) &&
             MeetOverPaths(Initialization(nodes, code.address), flow.incoming)
    requires ip in nodes && next in nodes && next in nodes[ip].successors
    ensures flow.incoming[next] <= flow.incoming[ip] + Defs(nodes[ip])
  {
    var q := Initialization(nodes, code.address);
    NodesReachable(code, nodes, ip);
    forall f | f in flow.incoming[next] && f !in Defs(nodes[ip])
      ensures f in flow.incoming[ip]
    {
      if MissingAt(q, ip, f) {
        MissingFlows(q, ip, next, f);
      }
    }
  }

  lemma {:induction false} EdgesReach(code: Code, nodes: Nodes, p: seq<nat>)
    requires NodesExact(code, Scalar(CALL_FREE), nodes) && PathFrom(Edges(code, Scalar(CALL_FREE)), code.address, p)
    ensures Reachable(NodeEdges(nodes), code.address, Last(p))
    decreases |p|
  {
    if |p| == 1 {
      ReachSelf(NodeEdges(nodes), code.address);
    } else {
      PathFront(Edges(code, Scalar(CALL_FREE)), code.address, p);
      EdgesReach(code, nodes, Front(p));
      assert Reached(code, Scalar(CALL_FREE), Last(Front(p)));
      ReachStep(NodeEdges(nodes), code.address, Last(Front(p)), Last(p));
    }
  }

  lemma NodesReachable(code: Code, nodes: Nodes, ip: nat)
    requires NodesExact(code, Scalar(CALL_FREE), nodes) && ip in nodes
    ensures Reachable(NodeEdges(nodes), code.address, ip)
  {
    var p: seq<nat> :| PathFrom(Edges(code, Scalar(CALL_FREE)), code.address, p) && Last(p) == ip;
    EdgesReach(code, nodes, p);
  }

  /** Only slots that some node writes are ever available. */
  ghost predicate SlotBelow(f: Field, n: nat) { f.SlotField? ==> f.index < n }

  lemma {:induction false} SlotsAlongPath(nodes: Nodes, entry: nat, p: seq<nat>, n: nat)
    requires |p| > 0 && forall ip, f :: ip in nodes && f in Defs(nodes[ip]) ==> SlotBelow(f, n)
    ensures forall f :: f in AvailableAlong(Initialization(nodes, entry), p) ==> SlotBelow(f, n)
    decreases |p|
  {
    if |p| > 1 {
      SlotsAlongPath(nodes, entry, Front(p), n);
    }
  }

  lemma AvailableSlots(code: Code, nodes: Nodes, flow: Flow, ip: nat, n: nat)
    requires NodesExact(code, Scalar(CALL_FREE), nodes) &&
             MeetOverPaths(Initialization(nodes, code.address), flow.incoming)
    requires ip in nodes && forall x, f :: x in nodes && f in Defs(nodes[x]) ==> SlotBelow(f, n)
    ensures forall f :: f in flow.incoming[ip] ==> SlotBelow(f, n)
  {
    var q := Initialization(nodes, code.address);
    NodesReachable(code, nodes, ip);
    var p: seq<nat> :| PathFrom(NodeEdges(nodes), code.address, p) && Last(p) == ip;
    SlotsAlongPath(nodes, code.address, p, n);
    forall f | f in flow.incoming[ip]
      ensures SlotBelow(f, n)
    {
      assert !MissingAt(q, ip, f);
    }
  }

  // ----- the machine stays inside the stack proof -----

  /** The edges of a call-free node are those the stack proof follows. */
  lemma SameSuccessors(code: Code, nodes: Nodes, ip: nat, s: StackProof.FrameState)
    requires NodesExact(code, Scalar(CALL_FREE), nodes) && ip in nodes && StackProof.Accepted(code, false, ip, s)
    ensures StackProof.SuccessorsAfter(code, false, ip, s) == nodes[ip].successors
  {
  }

  /** Stack discipline: along any path the pointers and the caller's memory are as the proof says. */
  lemma {:induction false} PathFrame(code: Code, nodes: Nodes, m0: State, p: seq<nat>)
    returns (s: StackProof.FrameState)
    requires NodesExact(code, Scalar(CALL_FREE), nodes) && FramesSound(code, false) && AllEmittable(nodes)
    requires FlowPath(nodes, code.address, p)
    ensures StackProof.Arrives(code, false, Last(p), s) && FrameHolds(m0, MachineAlong(code, m0, p), s)
    decreases |p|
  {
    var edges, start := StackProof.FrameEdges(code, false), (code.address, StackProof.ENTRY_FRAME);
    if |p| == 1 {
      s := StackProof.ENTRY_FRAME;
      ReachSelf(edges, start);
      EntryFrameHolds(m0);
    } else {
      PathFront(NodeEdges(nodes), code.address, p);
      var before := PathFrame(code, nodes, m0, Front(p));
      var ip, next := Last(Front(p)), Last(p);
      assert StackProof.Accepted(code, false, ip, before);
      SameSuccessors(code, nodes, ip, before);
      s := StackProof.StateAfter(code, false, ip, before);
      ReachStep(edges, start, (ip, before), (next, s));
      StepKeepsFrame(m0, MachineAlong(code, m0, Front(p)), before, code.OpAt(ip));
    }
  }

  lemma NodeOwnsSlot(code: Code, nodes: Nodes, slots: seq<StackProof.StackSlot>, ip: nat, s: StackProof.FrameState)
    requires NodesExact(code, Scalar(CALL_FREE), nodes) && FramesSound(code, false) &&
             SlotsAssigned(code, false, nodes, slots)
    requires ip in nodes && StackProof.Arrives(code, false, ip, s)
    ensures OwnSlot(nodes[ip], s, slots) && StackProof.Transfer(nodes[ip].op, s, false).Some?
  {
    assert StackProof.Accepted(code, false, ip, s);
  }

  // ----- lock step along a path -----

  /** Every node before the end of the path reads nothing tainted. */
  ghost predicate CleanBefore(nodes: Nodes, slots: seq<StackProof.StackSlot>, p: seq<nat>) {
    forall i :: 1 <= i < |p| ==> CleanAt(nodes, slots, p[..i])
  }

  lemma CleanFront(nodes: Nodes, slots: seq<StackProof.StackSlot>, p: seq<nat>)
    requires |p| > 1 && CleanBefore(nodes, slots, p)
    ensures CleanBefore(nodes, slots, Front(p)) && CleanAt(nodes, slots, Front(p))
  {
    forall i | 1 <= i < |Front(p)|
      ensures CleanAt(nodes, slots, Front(p)[..i])
    {
      assert Front(p)[..i] == p[..i];
    }
  }

  lemma LiftedBlocks(code: Code, nodes: Nodes, slots: seq<StackProof.StackSlot>, flow: Flow, prog: Program)
    requires Lifted(code, nodes, slots, flow, prog)
    ensures prog.blocks.Keys == nodes.Keys && flow.incoming.Keys == nodes.Keys && ClosedGraph(nodes, code.address)
  {
    assert Unfold(true);
    LiftedGraph(code, nodes);
  }

  /** The lifted program tracks the machine along any path whose reads are clean. */
  ghost predicate TracksAlong(code: Code, nodes: Nodes, slots: seq<StackProof.StackSlot>, flow: Flow, prog: Program,
                              m0: State, p: seq<nat>)
    requires |p| > 0 && (forall ip :: ip in p ==> ip in prog.blocks) && Last(p) in flow.incoming
  {
    Tracks(EnvAlong(prog, Arguments(m0), p), Last(p), flow.incoming[Last(p)], TaintAlong(nodes, slots, p),
           Values(MachineAlong(code, m0, p), Get(m0.regs, RSP), slots))
  }

  lemma EntryAvailable(code: Code, nodes: Nodes, flow: Flow)
    requires code.address in nodes && MeetOverPaths(Initialization(nodes, code.address), flow.incoming)
    ensures flow.incoming[code.address] <= INPUTS
  {
    var q, p := Initialization(nodes, code.address), [code.address];
    assert PathFrom(q.succ, q.entry, p) && AvailableAlong(q, p) == INPUTS;
    forall f | f in flow.incoming[code.address]
      ensures f in INPUTS
    {
      assert !MissingAt(q, code.address, f);
    }
  }

  lemma PredecessorListed(nodes: Nodes, entry: nat, flow: Flow, ip: nat, next: nat)
    requires ClosedGraph(nodes, entry) && PredecessorsExact(nodes, nodes.Keys, flow.predecessors)
    requires ip in nodes && next in nodes[ip].successors
    ensures next in nodes && ip in flow.predecessors[next]
  {
    ExactEdges(nodes, entry, flow.predecessors);
  }

  lemma AllSlotsBelow(code: Code, nodes: Nodes, slots: seq<StackProof.StackSlot>)
    requires NodesExact(code, Scalar(CALL_FREE), nodes) && FramesSound(code, false) &&
             SlotsAssigned(code, false, nodes, slots)
    requires AllEmittable(nodes)
    ensures forall ip, f :: ip in nodes && f in Defs(nodes[ip]) ==> SlotBelow(f, |slots|)
  {
    forall ip, f | ip in nodes && f in Defs(nodes[ip])
      ensures SlotBelow(f, |slots|)
    {
      if f.SlotField? {
        DefinedSlotBelow(code, nodes, slots, ip, f.index);
      }
    }
  }

  lemma DefinedSlotBelow(code: Code, nodes: Nodes, slots: seq<StackProof.StackSlot>, ip: nat, i: nat)
    requires NodesExact(code, Scalar(CALL_FREE), nodes) && FramesSound(code, false) &&
             SlotsAssigned(code, false, nodes, slots)
    requires AllEmittable(nodes) && ip in nodes && SlotField(i) in Defs(nodes[ip])
    ensures i < |slots|
  {
    var p: seq<nat> :| PathFrom(Edges(code, Scalar(CALL_FREE)), code.address, p) && Last(p) == ip;
    EdgesReach(code, nodes, p);
    var q: seq<nat> :| FlowPath(nodes, code.address, q) && Last(q) == ip;
    var s := PathFrame(code, nodes, State(0, map[], Flags(false, false, false, false), map[]), q);
    NodeOwnsSlot(code, nodes, slots, ip, s);
    DefinesOwnSlot(nodes[ip], i);
  }

  lemma DefinesOwnSlot(node: Node, i: nat)
    requires SlotField(i) in Defs(node)
    ensures node.slot == Some(i) && StackAccess(node.op).Some?
  {
  }

  /** What a lifted edge offers the simulation. */
  ghost predicate EdgeReady(nodes: Nodes, entry: nat, ip: nat, next: nat, slots: seq<StackProof.StackSlot>, flow: Flow,
                            prog: Program, s: StackProof.FrameState) {
    && ip in nodes && next in nodes && Emittable(nodes[ip]) && !nodes[ip].op.Ret?
    && prog.blocks.Keys == nodes.Keys && flow.incoming.Keys == nodes.Keys && flow.predecessors.Keys == nodes.Keys
    && BlockExact(ip, nodes[ip], prog.blocks[ip])
    && PhisExact(nodes, entry, next, flow.incoming[next], flow.predecessors[next], prog.blocks[next].phis)
    && ip in flow.predecessors[next]
    && SlotsValid(slots) && OwnSlot(nodes[ip], s, slots) && StackProof.Transfer(nodes[ip].op, s, false).Some?
    && (forall f :: f in flow.incoming[ip] ==> SlotBelow(f, |slots|))
    && Reads(nodes[ip]) <= flow.incoming[ip] && flow.incoming[next] <= flow.incoming[ip] + Defs(nodes[ip])
  }

  lemma LiftedEdge(code: Code, nodes: Nodes, slots: seq<StackProof.StackSlot>, flow: Flow, prog: Program, ip: nat,
                   next: nat, s: StackProof.FrameState)
    requires Lifted(code, nodes, slots, flow, prog) && ClosedGraph(nodes, code.address)
    requires ip in nodes && next in nodes[ip].successors && StackProof.Arrives(code, false, ip, s)
    ensures EdgeReady(nodes, code.address, ip, next, slots, flow, prog, s)
  {
    assert Unfold(true);
    assert OwnSlot(nodes[ip], s, slots) && StackProof.Transfer(nodes[ip].op, s, false).Some? by {
      NodeOwnsSlot(code, nodes, slots, ip, s);
    }
    assert SlotsValid(slots) by {
      SlotsAreValid(code, slots);
    }
    assert forall f :: f in flow.incoming[ip] ==> SlotBelow(f, |slots|) by {
      AllSlotsBelow(code, nodes, slots);
      AvailableSlots(code, nodes, flow, ip, |slots|);
    }
    assert flow.incoming[next] <= flow.incoming[ip] + Defs(nodes[ip]) by {
      AvailableOverEdge(code, nodes, flow, ip, next);
    }
    assert next in nodes && ip in flow.predecessors[next] by {
      PredecessorListed(nodes, code.address, flow, ip, next);
    }
  }

  /** One edge of the path, from what holds at its source. */
  lemma TrackEdge(code: Code, nodes: Nodes, slots: seq<StackProof.StackSlot>, flow: Flow, prog: Program, m0: State,
                  p: seq<nat>, s: StackProof.FrameState)
    requires |p| > 1 && (forall ip :: ip in p ==> ip in nodes) && (forall ip :: ip in Front(p) ==> ip in nodes)
    requires EdgeReady(nodes, code.address, Last(Front(p)), Last(p), slots, flow, prog, s)
    requires code.Decodes(Last(Front(p))) && nodes[Last(Front(p))].op == code.OpAt(Last(Front(p)))
    requires FrameHolds(m0, MachineAlong(code, m0, Front(p)), s)
    requires CleanAt(nodes, slots, Front(p)) && TracksAlong(code, nodes, slots, flow, prog, m0, Front(p))
    ensures TracksAlong(code, nodes, slots, flow, prog, m0, p)
  {
    var ip, next := Last(Front(p)), Last(p);
    NodeStep(nodes, code.address, ip, next, flow.incoming[ip], flow.incoming[next], flow.predecessors[next],
             EnvAlong(prog, Arguments(m0), Front(p)), Arguments(m0), prog.blocks[ip], prog.blocks[next],
             TaintAlong(nodes, slots, Front(p)), slots, m0, MachineAlong(code, m0, Front(p)), s);
    RipIrrelevant(EnvAlong(prog, Arguments(m0), p), next, flow.incoming[next], TaintAlong(nodes, slots, p),
                  Effect(code.OpAt(ip), MachineAlong(code, m0, Front(p))), next, Get(m0.regs, RSP), slots);
  }

  /** The instruction pointer is not a field. */
  lemma RipIrrelevant(env: Env, ip: nat, available: set<Field>, taint: set<Field>, m: State, rip: nat, e: int,
                      slots: seq<StackProof.StackSlot>)
    requires Tracks(env, ip, available, taint, Values(m, e, slots))
    ensures Tracks(env, ip, available, taint, Values(m.(rip := rip), e, slots))
  {
    forall f
      ensures Values(m.(rip := rip), e, slots)(f) == Values(m, e, slots)(f)
    {
    }
  }

  ghost predicate EntryReady(nodes: Nodes, entry: nat, flow: Flow, prog: Program) {
    && entry in prog.blocks && entry in flow.incoming && entry in flow.predecessors
    && PhisExact(nodes, entry, entry, flow.incoming[entry], flow.predecessors[entry], prog.blocks[entry].phis)
    && flow.incoming[entry] <= INPUTS
  }

  lemma LiftedEntry(code: Code, nodes: Nodes, slots: seq<StackProof.StackSlot>, flow: Flow, prog: Program)
    requires Lifted(code, nodes, slots, flow, prog) && code.address in nodes
    ensures EntryReady(nodes, code.address, flow, prog)
  {
    assert Unfold(true);
    EntryAvailable(code, nodes, flow);
  }

  lemma TrackEntry(code: Code, nodes: Nodes, slots: seq<StackProof.StackSlot>, flow: Flow, prog: Program, m0: State)
    requires EntryReady(nodes, code.address, flow, prog)
    ensures TracksAlong(code, nodes, slots, flow, prog, m0, [code.address])
  {
    EntryTracks(nodes, code.address, flow.incoming[code.address], flow.predecessors[code.address],
                prog.blocks[code.address], Arguments(m0), m0, slots);
  }

  lemma TrackStep(code: Code, nodes: Nodes, slots: seq<StackProof.StackSlot>, flow: Flow, prog: Program, m0: State,
                  p: seq<nat>)
    requires Lifted(code, nodes, slots, flow, prog)
    requires prog.blocks.Keys == nodes.Keys && flow.incoming.Keys == nodes.Keys && ClosedGraph(nodes, code.address)
    requires |p| > 1 && FlowPath(nodes, code.address, p)
    requires (forall ip :: ip in p ==> ip in nodes) && (forall ip :: ip in Front(p) ==> ip in nodes)
    requires CleanAt(nodes, slots, Front(p)) && TracksAlong(code, nodes, slots, flow, prog, m0, Front(p))
    ensures TracksAlong(code, nodes, slots, flow, prog, m0, p)
  {
    PathFront(NodeEdges(nodes), code.address, p);
    assert Unfold(true);
    var s := PathFrame(code, nodes, m0, Front(p));
    LiftedEdge(code, nodes, slots, flow, prog, Last(Front(p)), Last(p), s);
    TrackEdge(code, nodes, slots, flow, prog, m0, p, s);
  }

  /** Lock step along a path: induction over its edges. */
  lemma {:induction false} PathTracks(code: Code, nodes: Nodes, slots: seq<StackProof.StackSlot>, flow: Flow,
                                      prog: Program, m0: State, p: seq<nat>)
    requires Lifted(code, nodes, slots, flow, prog)
    requires prog.blocks.Keys == nodes.Keys && flow.incoming.Keys == nodes.Keys && ClosedGraph(nodes, code.address)
    requires FlowPath(nodes, code.address, p) && CleanBefore(nodes, slots, p)
    ensures (forall ip :: ip in p ==> ip in nodes) && TracksAlong(code, nodes, slots, flow, prog, m0, p)
    decreases |p|
  {
    PathAllNodes(nodes, code.address, p);
    if |p| == 1 {
      assert p == [code.address];
      LiftedEntry(code, nodes, slots, flow, prog);
      TrackEntry(code, nodes, slots, flow, prog, m0);
    } else {
      PathFront(NodeEdges(nodes), code.address, p);
      CleanFront(nodes, slots, p);
      PathTracks(code, nodes, slots, flow, prog, m0, Front(p));
      TrackStep(code, nodes, slots, flow, prog, m0, p);
    }
  }

  // ----- the flag check makes flag reads clean -----

  /** A tainted flag is one a stack adjustment left behind; registers are never tainted. */
  lemma {:induction false} TaintIsLive(nodes: Nodes, slots: seq<StackProof.StackSlot>, p: seq<nat>, f: Field)
    requires |p| > 0 && f in TaintAlong(nodes, slots, p)
    ensures f.SlotField? || (f.FlagField? && LiveAlong(nodes, p))
    decreases |p|
  {
    if |p| > 1 {
      var previous, taint := Last(Front(p)), TaintAlong(nodes, slots, Front(p));
      if previous in nodes {
        if f in taint {
          TaintIsLive(nodes, slots, Front(p), f);
        }
        FlagWriters(nodes[previous]);
      } else {
        TaintIsLive(nodes, slots, Front(p), f);
      }
    }
  }

  /** Whatever ends flag liveness defines every flag. */
  lemma FlagWriters(node: Node)
    ensures !node.op.AdjustStack? && EffectsOf(node.op).writeFlags != {} && !node.op.CallDirect? ==>
              forall flag :: FlagField(flag) in Defs(node)
    ensures node.op.CallDirect? ==> EffectsOf(node.op).writeFlags == {}
  {
    if !node.op.AdjustStack? && EffectsOf(node.op).writeFlags != {} && !node.op.CallDirect? {
      forall flag
        ensures FlagField(flag) in Defs(node)
      {
        WritesAllFlags(node.op);
        assert flag in ALL_FLAGS;
      }
    }
  }

  lemma WritesAllFlags(op: Op)
    ensures EffectsOf(op).writeFlags == {} || EffectsOf(op).writeFlags == ALL_FLAGS
    ensures forall flag: Flag :: flag in ALL_FLAGS
  {
    forall flag: Flag
      ensures flag in ALL_FLAGS
    {
      match flag case ZF => case SF => case OF => case CF =>
    }
  }

  lemma FlagReader(node: Node, flag: Flag)
    requires Emittable(node) && FlagField(flag) in Reads(node)
    ensures node.op.Jcc?
  {
  }

  /** After the flag check, a path's end that reads clean slots reads nothing tainted. */
  lemma CleanFlagsToo(nodes: Nodes, slots: seq<StackProof.StackSlot>, entry: nat, p: seq<nat>)
    requires FlagSafe(nodes, entry) && AllEmittable(nodes) && FlowPath(nodes, entry, p) && SlotsCleanAt(nodes, slots, p)
    ensures CleanAt(nodes, slots, p)
  {
    assert Last(p) in nodes;
    SafeByLiveness(nodes, entry);
    forall f | f in Reads(nodes[Last(p)]) && f in TaintAlong(nodes, slots, p)
      ensures false
    {
      TaintIsLive(nodes, slots, p, f);
      if f.FlagField? {
        FlagReader(nodes[Last(p)], f.flag);
      }
    }
  }

  /** With clean slots every read on every path is clean. */
  lemma CleanEverywhere(nodes: Nodes, slots: seq<StackProof.StackSlot>, entry: nat, p: seq<nat>)
    requires FlagSafe(nodes, entry) && AllEmittable(nodes) && SlotsClean(nodes, slots, entry) &&
             FlowPath(nodes, entry, p)
    ensures CleanAt(nodes, slots, p)
  {
    CleanFlagsToo(nodes, slots, entry, p);
  }

  lemma {:induction false} PrefixPath(nodes: Nodes, entry: nat, p: seq<nat>, i: nat)
    requires FlowPath(nodes, entry, p) && 1 <= i <= |p|
    ensures FlowPath(nodes, entry, p[..i])
  {
    forall j | 0 <= j < i - 1
      ensures p[..i][j + 1] in NodeEdges(nodes)(p[..i][j])
    {
      assert p[j + 1] in NodeEdges(nodes)(p[j]);
    }
  }

  lemma CleanPath(nodes: Nodes, slots: seq<StackProof.StackSlot>, entry: nat, p: seq<nat>)
    requires FlagSafe(nodes, entry) && AllEmittable(nodes) && SlotsClean(nodes, slots, entry) &&
             FlowPath(nodes, entry, p)
    ensures CleanBefore(nodes, slots, p) && CleanAt(nodes, slots, p)
  {
    forall i | 1 <= i <= |p|
      ensures CleanAt(nodes, slots, p[..i])
    {
      PrefixPath(nodes, entry, p, i);
      CleanEverywhere(nodes, slots, entry, p[..i]);
    }
    assert p[..|p|] == p;
  }
}
