/**
 Recovery for the scalar lifter (`recover`): reachable control flow, then, if the code touches the
 stack, the stack proof, the slot of each access and the flag-use check.
 */
module ScalarRecovery {
  import opened Wrappers
  import opened Semantics
  import opened Decode
  import opened CfgRecovery
  import opened Fields
  import opened FlagUse
  import opened Paths
  import StackProof

  datatype RecoveryError =
    | CfgError(cfg: CfgRecovery.Error)
    | StackRefused(stack: StackProof.StackError)
    | FlagsRefused(flags: FlagError)
    | MissingSlot(ip: nat)
    | MissingInstruction(ip: nat)

  function Scalar(allowedCalls: Option<set<nat>>): Options {
    Options(allowedCalls, None, None, true)
  }

  /** Calls are followed unless the set of allowed callees is known to be empty. */
  predicate FollowsCalls(allowedCalls: Option<set<nat>>) {
    allowedCalls != Some({})
  }

  predicate StackRelated(op: Op) {
    IsFrameOp(op) || StackAccess(op).Some? || op.CallDirect?
  }

  ghost predicate UsesStack(nodes: Nodes) {
    exists ip :: ip in nodes && StackRelated(nodes[ip].op)
  }

  /** Every state the stack proof can arrive with is accepted and unique. */
  ghost predicate FramesSound(code: Code, allowCalls: bool) {
    && (forall ip, s :: StackProof.Arrives(code, allowCalls, ip, s) ==> StackProof.Accepted(code, allowCalls, ip, s))
    && (forall ip, s, t ::
      StackProof.Arrives(code, allowCalls, ip, s) && StackProof.Arrives(code, allowCalls, ip, t) ==> s == t)
  }

  /** Each access node carries the index of its own slot; other nodes carry none. */
  ghost predicate SlotsAssigned(code: Code, allowCalls: bool, nodes: Nodes, slots: seq<StackProof.StackSlot>) {
    && StackProof.SlotsExact(code, allowCalls, slots)
    && (forall ip :: ip in nodes ==> (nodes[ip].slot.Some? <==> StackAccess(nodes[ip].op).Some?))
    && (forall ip, s :: ip in nodes && StackProof.Arrives(code, allowCalls, ip, s) &&
                        StackProof.Accepted(code, allowCalls, ip, s) && StackProof.Accesses(code, ip) ==>
          nodes[ip].slot.Some? && nodes[ip].slot.value < |slots| &&
          slots[nodes[ip].slot.value] == StackProof.SlotAt(code, allowCalls, ip, s))
  }

  /** The nodes are exactly the reachable instructions, slots aside. */
  ghost predicate NodesExact(code: Code, opt: Options, nodes: Nodes) {
    && (forall ip :: ip in nodes <==> Reached(code, opt, ip))
    && (forall ip :: ip in nodes ==>
          Admissible(code, opt, ip) && nodes[ip] == NodeAt(code, opt, ip).(slot := nodes[ip].slot))
  }

  /** What a successful scalar recovery establishes. */
  ghost predicate ScalarRecovered(code: Code, allowedCalls: Option<set<nat>>, nodes: Nodes) {
    && NodesExact(code, Scalar(allowedCalls), nodes)
    && FramesSound(code, FollowsCalls(allowedCalls))
    && (exists slots :: SlotsAssigned(code, FollowsCalls(allowedCalls), nodes, slots))
    && FlagSafe(nodes, code.address)
  }

  ghost predicate Accepts(code: Code, allowedCalls: Option<set<nat>>) {
    && Recoverable(code, Scalar(allowedCalls))
    && forall nodes: Nodes :: ExactClosure(code, Scalar(allowedCalls), nodes) && UsesStack(nodes) ==>
         StackProof.Provable(code, FollowsCalls(allowedCalls)) && FlagSafe(nodes, code.address)
  }

  method AssignSlots(nodes: Nodes, slotByIp: map<nat, StackProof.StackSlot>, slots: seq<StackProof.StackSlot>)
    returns (r: Result<Nodes, RecoveryError>)
    ensures r.Success? <==> forall ip :: ip in slotByIp ==> slotByIp[ip] in slots && ip in nodes
    ensures r.Success? ==> r.value.Keys == nodes.Keys && forall ip :: ip in nodes ==>
              r.value[ip] == if ip in slotByIp then nodes[ip].(slot := StackProof.IndexOf(slots, slotByIp[ip]))
                else nodes[ip]
  {
    var placed := nodes;
    var todo := slotByIp.Keys;
    while todo != {}
      invariant todo <= slotByIp.Keys && placed.Keys == nodes.Keys
      invariant forall ip :: ip in slotByIp && ip !in todo ==> slotByIp[ip] in slots && ip in nodes
      invariant forall ip :: ip in nodes ==>
        placed[ip] == if ip in slotByIp &&
          ip !in todo then nodes[ip].(slot := StackProof.IndexOf(slots, slotByIp[ip])) else nodes[ip]
      decreases todo
    {
      var ip :| ip in todo;
      todo := todo - {ip};
      var index := StackProof.IndexOf(slots, slotByIp[ip]);
      if index.None? {
        return Failure(MissingSlot(ip));
      }
      if ip !in placed {
        return Failure(MissingInstruction(ip));
      }
      placed := placed[ip := placed[ip].(slot := index)];
    }
    r := Success(placed);
  }

  method RecoverScalar(code: Code, allowedCalls: Option<set<nat>>) returns (r: Result<Nodes, RecoveryError>)
    requires code.Valid()
    ensures r.Success? <==> Accepts(code, allowedCalls)
    ensures r.Success? ==> ScalarRecovered(code, allowedCalls, r.value)
    ensures r.Failure? ==>
              match r.error
              case CfgError(_) => !Recoverable(code, Scalar(allowedCalls))
              case StackRefused(_) =>
                Recoverable(code, Scalar(allowedCalls)) && !StackProof.Provable(code, FollowsCalls(allowedCalls))
              case FlagsRefused(_) =>
                Recoverable(code, Scalar(allowedCalls)) && StackProof.Provable(code, FollowsCalls(allowedCalls))
              case _ => false
  {
    var opt := Scalar(allowedCalls);
    var recovered := Recover(code, opt);
    if recovered.Failure? {
      return Failure(CfgError(recovered.error));
    }
    var nodes := recovered.value;
    UniqueClosure(code, opt, nodes);
    if exists ip | ip in nodes :: StackRelated(nodes[ip].op) {
      var evidence := StackProof.AnalyzeStack(code, FollowsCalls(allowedCalls));
      if evidence.Failure? {
        return Failure(StackRefused(evidence.error));
      }
      EvidenceInNodes(code, allowedCalls, nodes, evidence.value);
      var placed := AssignSlots(nodes, evidence.value.slotByIp, evidence.value.slots);
      // The internal errors of this step cannot occur.
      assert placed.Success?;
      var checked := RejectStackFlagUses(placed.value, code.address);
      SlotsIrrelevant(nodes, placed.value, code.address);
      if checked.Failure? {
        return Failure(FlagsRefused(checked.error));
      }
      SlotsComplete(code, allowedCalls, nodes, placed.value, evidence.value);
      nodes := placed.value;
    } else {
      NoStack(code, allowedCalls, nodes);
    }
    r := Success(nodes);
  }

  lemma UniqueClosure(code: Code, opt: Options, nodes: Nodes)
    requires ExactClosure(code, opt, nodes)
    ensures forall other: Nodes :: ExactClosure(code, opt, other) ==> other == nodes
  {
    forall other: Nodes | ExactClosure(code, opt, other)
      ensures other == nodes
    {
      assert forall ip :: ip in other <==> ip in nodes;
    }
  }

  // ----- the stack proof sees the recovered instructions -----

  /** Where the stack proof arrives, recovery arrived. */
  lemma {:induction false} ArrivesReached(code: Code, allowedCalls: Option<set<nat>>,
                                          q: seq<(nat, StackProof.FrameState)>)
    requires Recoverable(code, Scalar(allowedCalls))
    requires PathFrom(StackProof.FrameEdges(code, FollowsCalls(allowedCalls)), (code.address, StackProof.ENTRY_FRAME),
             q)
    ensures Reached(code, Scalar(allowedCalls), Last(q).0)
    decreases |q|
  {
    var opt := Scalar(allowedCalls);
    if |q| == 1 {
      ReachSelf(Edges(code, opt), code.address);
    } else {
      PathFront(StackProof.FrameEdges(code, FollowsCalls(allowedCalls)), (code.address, StackProof.ENTRY_FRAME), q);
      ArrivesReached(code, allowedCalls, Front(q));
      var ip, next := Last(Front(q)).0, Last(q).0;
      assert next in SuccessorsOf(code, opt, ip);
      ReachStep(Edges(code, opt), code.address, ip, next);
    }
  }

  lemma ArrivalInNodes(code: Code, allowedCalls: Option<set<nat>>, nodes: Nodes, ip: nat, s: StackProof.FrameState)
    requires Recoverable(code, Scalar(allowedCalls)) && ExactClosure(code, Scalar(allowedCalls), nodes)
    requires StackProof.Arrives(code, FollowsCalls(allowedCalls), ip, s)
    ensures ip in nodes
  {
    var q :| PathFrom(StackProof.FrameEdges(code, FollowsCalls(allowedCalls)), (code.address, StackProof.ENTRY_FRAME),
      q) &&
             Last(q) == (ip, s);
    ArrivesReached(code, allowedCalls, q);
  }

  /** The stack proof's accesses are all nodes, and their slots are all listed. */
  lemma EvidenceInNodes(code: Code, allowedCalls: Option<set<nat>>, nodes: Nodes, e: StackProof.Evidence)
    requires Recoverable(code, Scalar(allowedCalls)) && ExactClosure(code, Scalar(allowedCalls), nodes)
    requires StackProof.Provable(code, FollowsCalls(allowedCalls))
    requires StackProof.EvidenceExact(code, FollowsCalls(allowedCalls), e)
    ensures forall ip :: ip in e.slotByIp ==> ip in nodes && e.slotByIp[ip] in e.slots
  {
    var calls := FollowsCalls(allowedCalls);
    forall ip | ip in e.slotByIp
      ensures ip in nodes && e.slotByIp[ip] in e.slots
    {
      var s :| StackProof.Arrives(code, calls, ip, s);
      ArrivalInNodes(code, allowedCalls, nodes, ip, s);
      assert StackProof.SlotUsed(code, calls, StackProof.SlotAt(code, calls, ip, s));
    }
  }

  /** Wherever recovery arrives, the stack proof arrives too. */
  lemma {:induction false} ReachedArrives(code: Code, allowedCalls: Option<set<nat>>, p: seq<nat>)
    returns (s: StackProof.FrameState)
    requires Recoverable(code, Scalar(allowedCalls)) && FramesSound(code, FollowsCalls(allowedCalls))
    requires PathFrom(Edges(code, Scalar(allowedCalls)), code.address, p)
    ensures StackProof.Arrives(code, FollowsCalls(allowedCalls), Last(p), s)
    decreases |p|
  {
    var opt, calls := Scalar(allowedCalls), FollowsCalls(allowedCalls);
    var edges, start := StackProof.FrameEdges(code, calls), (code.address, StackProof.ENTRY_FRAME);
    if |p| == 1 {
      s := StackProof.ENTRY_FRAME;
      ReachSelf(edges, start);
    } else {
      PathFront(Edges(code, opt), code.address, p);
      var before := ReachedArrives(code, allowedCalls, Front(p));
      var ip, next := Last(Front(p)), Last(p);
      assert StackProof.Accepted(code, calls, ip, before);
      s := StackProof.StateAfter(code, calls, ip, before);
      assert next in StackProof.SuccessorsAfter(code, calls, ip, before);
      ReachStep(edges, start, (ip, before), (next, s));
    }
  }

  /** Slot indices play no part in the flag check. */
  lemma SlotsIrrelevant(nodes: Nodes, placed: Nodes, entry: nat)
    requires placed.Keys == nodes.Keys
    requires forall ip :: ip in nodes ==> placed[ip] == nodes[ip].(slot := placed[ip].slot)
    ensures FlagSafe(nodes, entry) <==> FlagSafe(placed, entry)
  {
    SafeByLiveness(nodes, entry);
    SafeByLiveness(placed, entry);
    forall p: seq<nat>
      ensures FlowPath(nodes, entry, p) <==> FlowPath(placed, entry, p)
      ensures |p| > 0 ==> LiveAlong(nodes, p) == LiveAlong(placed, p)
    {
      SamePath(nodes, placed, p);
      SamePath(placed, nodes, p);
      if |p| > 0 {
        SameLiveness(nodes, placed, p);
      }
    }
  }

  lemma SamePath(nodes: Nodes, other: Nodes, p: seq<nat>)
    requires other.Keys == nodes.Keys && forall ip :: ip in nodes ==> other[ip].successors == nodes[ip].successors
    ensures IsPath(NodeEdges(nodes), p) ==> IsPath(NodeEdges(other), p)
  {
    if IsPath(NodeEdges(nodes), p) {
      forall i | 0 <= i < |p| - 1
        ensures p[i + 1] in NodeEdges(other)(p[i])
      {
        assert p[i + 1] in NodeEdges(nodes)(p[i]);
      }
    }
  }

  lemma {:induction false} SameLiveness(nodes: Nodes, other: Nodes, p: seq<nat>)
    requires |p| > 0 && other.Keys == nodes.Keys && forall ip :: ip in nodes ==> other[ip].op == nodes[ip].op
    ensures LiveAlong(nodes, p) == LiveAlong(other, p)
    decreases |p|
  {
    if |p| > 1 {
      SameLiveness(nodes, other, Front(p));
    }
  }

  /** The proof records a slot for exactly the nodes that access the stack. */
  lemma AccessRecorded(code: Code, allowedCalls: Option<set<nat>>, e: StackProof.Evidence, ip: nat)
    requires Recoverable(code, Scalar(allowedCalls)) && FramesSound(code, FollowsCalls(allowedCalls))
    requires StackProof.EvidenceExact(code, FollowsCalls(allowedCalls), e)
    requires Reached(code, Scalar(allowedCalls), ip)
    ensures ip in e.slotByIp <==> StackAccess(code.OpAt(ip)).Some?
  {
    var p: seq<nat> :| PathFrom(Edges(code, Scalar(allowedCalls)), code.address, p) && Last(p) == ip;
    var s := ReachedArrives(code, allowedCalls, p);
    assert StackProof.Arrives(code, FollowsCalls(allowedCalls), ip, s);
    assert StackProof.Accepted(code, FollowsCalls(allowedCalls), ip, s);
  }

  lemma SlotsComplete(code: Code, allowedCalls: Option<set<nat>>, nodes: Nodes, placed: Nodes, e: StackProof.Evidence)
    requires Recoverable(code, Scalar(allowedCalls)) && ExactClosure(code, Scalar(allowedCalls), nodes)
    requires FramesSound(code, FollowsCalls(allowedCalls))
    requires StackProof.EvidenceExact(code, FollowsCalls(allowedCalls), e)
    requires placed.Keys == nodes.Keys && FlagSafe(placed, code.address)
    requires forall ip :: ip in e.slotByIp ==> ip in nodes && e.slotByIp[ip] in e.slots
    requires forall ip :: ip in nodes ==>
      placed[ip] == if ip in e.slotByIp then nodes[ip].(slot := StackProof.IndexOf(e.slots, e.slotByIp[ip]))
        else nodes[ip]
    ensures ScalarRecovered(code, allowedCalls, placed)
  {
    assert NodesExact(code, Scalar(allowedCalls), placed) by {
      PlacedExact(code, Scalar(allowedCalls), nodes, placed);
    }
    forall ip | ip in placed
      ensures placed[ip].slot.Some? <==> StackAccess(placed[ip].op).Some?
    {
      AccessRecorded(code, allowedCalls, e, ip);
    }
    SlotsOfEvidence(code, FollowsCalls(allowedCalls), placed, e);
  }

  lemma PlacedExact(code: Code, opt: Options, nodes: Nodes, placed: Nodes)
    requires Recoverable(code, opt) && ExactClosure(code, opt, nodes) && placed.Keys == nodes.Keys
    requires forall ip :: ip in nodes ==> placed[ip] == nodes[ip].(slot := placed[ip].slot)
    ensures NodesExact(code, opt, placed)
  {
    assert forall ip :: ip in placed <==> ip in nodes;
  }

  lemma SlotsOfEvidence(code: Code, allowCalls: bool, placed: Nodes, e: StackProof.Evidence)
    requires StackProof.EvidenceExact(code, allowCalls, e)
    requires forall ip :: ip in e.slotByIp ==> ip in placed && e.slotByIp[ip] in e.slots
    requires forall ip :: ip in e.slotByIp ==> placed[ip].slot == StackProof.IndexOf(e.slots, e.slotByIp[ip])
    requires forall ip :: ip in placed ==> (placed[ip].slot.Some? <==> StackAccess(placed[ip].op).Some?)
    ensures SlotsAssigned(code, allowCalls, placed, e.slots)
  {
  }

  // ----- code that never touches the stack -----

  lemma {:induction false} EntryFrameOnly(code: Code, allowedCalls: Option<set<nat>>, nodes: Nodes,
                                          q: seq<(nat, StackProof.FrameState)>)
    requires Recoverable(code, Scalar(allowedCalls)) && ExactClosure(code, Scalar(allowedCalls), nodes) &&
             !UsesStack(nodes)
    requires PathFrom(StackProof.FrameEdges(code, FollowsCalls(allowedCalls)), (code.address, StackProof.ENTRY_FRAME),
             q)
    ensures Last(q).1 == StackProof.ENTRY_FRAME &&
            StackProof.Accepted(code, FollowsCalls(allowedCalls), Last(q).0, Last(q).1)
    decreases |q|
  {
    ArrivesReached(code, allowedCalls, q);
    assert Last(q).0 in nodes && !StackRelated(nodes[Last(q).0].op);
    if |q| > 1 {
      PathFront(StackProof.FrameEdges(code, FollowsCalls(allowedCalls)), (code.address, StackProof.ENTRY_FRAME), q);
      EntryFrameOnly(code, allowedCalls, nodes, Front(q));
      ArrivesReached(code, allowedCalls, Front(q));
      assert !StackRelated(nodes[Last(Front(q)).0].op);
    }
  }

  lemma {:induction false} NeverLive(nodes: Nodes, p: seq<nat>)
    requires |p| > 0 && !UsesStack(nodes)
    ensures !LiveAlong(nodes, p)
    decreases |p|
  {
    if |p| > 1 {
      NeverLive(nodes, Front(p));
    }
  }

  lemma NoStack(code: Code, allowedCalls: Option<set<nat>>, nodes: Nodes)
    requires Recoverable(code, Scalar(allowedCalls)) && ExactClosure(code, Scalar(allowedCalls), nodes) &&
             !UsesStack(nodes)
    ensures ScalarRecovered(code, allowedCalls, nodes)
  {
    var calls := FollowsCalls(allowedCalls);
    var edges, start := StackProof.FrameEdges(code, calls), (code.address, StackProof.ENTRY_FRAME);
    forall ip, s | StackProof.Arrives(code, calls, ip, s)
      ensures s == StackProof.ENTRY_FRAME && StackProof.Accepted(code, calls, ip, s) && ip in nodes
    {
      var q :| PathFrom(edges, start, q) && Last(q) == (ip, s);
      EntryFrameOnly(code, allowedCalls, nodes, q);
      ArrivesReached(code, allowedCalls, q);
    }
    assert SlotsAssigned(code, calls, nodes, []);
    NoStackFlags(nodes, code.address) by {
      GraphClosed(code, Scalar(allowedCalls), nodes);
    }
  }

  lemma NoStackFlags(nodes: Nodes, entry: nat)
    requires ClosedGraph(nodes, entry) && !UsesStack(nodes)
    ensures FlagSafe(nodes, entry)
  {
    SafeByLiveness(nodes, entry);
    forall p: seq<nat> | FlowPath(nodes, entry, p)
      ensures Last(p) in nodes && !LiveAlong(nodes, p)
    {
      NeverLive(nodes, p);
      PathInNodes(nodes, entry, p);
    }
  }

  /** Without declared exits every successor of a recovered node is a node. */
  lemma GraphClosed(code: Code, opt: Options, nodes: Nodes)
    requires NodesExact(code, opt, nodes) && opt.boundaryExits.None?
    ensures ClosedGraph(nodes, code.address)
  {
    ReachSelf(Edges(code, opt), code.address);
    forall ip, s | ip in nodes && s in nodes[ip].successors
      ensures s in nodes
    {
      ReachStep(Edges(code, opt), code.address, ip, s);
    }
  }
}
