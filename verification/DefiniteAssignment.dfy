/** The must-initialised dataflow over the recovered graph (`analyze`). */
module DefiniteAssignment {
  import opened Wrappers
  import opened Semantics
  import opened CfgRecovery
  import opened Fields
  import opened GenKill
  import opened Paths

  datatype FlowError = SuccessorMissing | Uninitialized(ip: nat)

  datatype Flow = Flow(incoming: Facts<Field>, predecessors: PredecessorLists)

  /** Initialisation as a gen/kill problem: definitions generate, call clobbers kill. */
  function Initialization(nodes: Nodes, entry: nat): Problem<Field> {
    Problem(entry, nodes.Keys, NodeEdges(nodes),
            map ip | ip in nodes :: Defs(nodes[ip]), map ip | ip in nodes :: Kills(nodes[ip]), ALL_FIELDS, INPUTS)
  }

  /** What recovery hands over: a closed graph of reachable nodes, with slot indices below eight. */
  ghost predicate Recovered(nodes: Nodes, entry: nat) {
    && ClosedGraph(nodes, entry)
    && (forall ip :: ip in nodes ==> Reachable(NodeEdges(nodes), entry, ip))
    && (forall ip :: ip in nodes ==> Defs(nodes[ip]) <= ALL_FIELDS && Reads(nodes[ip]) <= ALL_FIELDS)
  }

  /** Path p holds f from position i on: defined there, or an argument register if i is -1, and not clobbered since. */
  ghost predicate HeldFrom(nodes: Nodes, p: seq<nat>, f: Field, i: int) {
    && -1 <= i < |p| - 1
    && (if i == -1 then f.RegisterField? && f.register in {RDI, RSI, RDX, RCX, R8, R9}
        else p[i] in nodes && f in Defs(nodes[p[i]]))
    && forall k :: i < k < |p| - 1 ==> p[k] in nodes && f !in Kills(nodes[p[k]])
  }

  ghost predicate Held(nodes: Nodes, p: seq<nat>, f: Field) {
    exists i :: HeldFrom(nodes, p, f, i)
  }

  /** Every path that reaches a read holds the field it reads. */
  ghost predicate ReadsInitialized(nodes: Nodes, entry: nat) {
    forall p: seq<nat>, f :: FlowPath(nodes, entry, p) && Last(p) in nodes && f in Reads(nodes[Last(p)]) ==>
      Held(nodes, p, f)
  }

  // ----- the flow problem's view of the same -----

  ghost predicate NoneMissing(nodes: Nodes, entry: nat) {
    forall ip, f :: ip in nodes && f in Reads(nodes[ip]) ==> !MissingAt(Initialization(nodes, entry), ip, f)
  }

  lemma InputFields(f: Field)
    ensures f in INPUTS <==> f.RegisterField? && f.register in {RDI, RSI, RDX, RCX, R8, R9}
  {
    if f.RegisterField? && f.register in {RDI, RSI, RDX, RCX, R8, R9} {
      assert f.register in ARGUMENTS;
    }
  }

  /** No node both defines and clobbers a field. */
  lemma DefinesOrKills(node: Node)
    ensures Defs(node) !! Kills(node)
  {
  }

  lemma HeldStep(nodes: Nodes, p: seq<nat>, f: Field, i: int)
    requires |p| > 1 && Last(Front(p)) in nodes && i < |p| - 2
    ensures HeldFrom(nodes, p, f, i) <==> HeldFrom(nodes, Front(p), f, i) && f !in Kills(nodes[Last(Front(p))])
  {
    assert forall k :: 0 <= k < |p| - 1 ==> Front(p)[k] == p[k];
  }

  lemma HeldNext(nodes: Nodes, p: seq<nat>, f: Field, last: nat)
    requires |p| > 1 && last == Last(Front(p)) && last in nodes
    ensures Held(nodes, p, f) <==> f in Defs(nodes[last]) || (Held(nodes, Front(p), f) && f !in Kills(nodes[last]))
  {
    forall i | i < |p| - 2
      ensures HeldFrom(nodes, p, f, i) <==> HeldFrom(nodes, Front(p), f, i) && f !in Kills(nodes[last])
    {
      HeldStep(nodes, p, f, i);
    }
    assert HeldFrom(nodes, p, f, |p| - 2) <==> f in Defs(nodes[last]);
  }

  /** Along a path the flow problem has exactly the fields the path holds. */
  lemma {:induction false} AvailableIsHeld(nodes: Nodes, entry: nat, p: seq<nat>, f: Field)
    requires FlowPath(nodes, entry, p)
    ensures f in AvailableAlong(Initialization(nodes, entry), p) <==> Held(nodes, p, f)
    decreases |p|
  {
    if |p| == 1 {
      InputFields(f);
      assert HeldFrom(nodes, p, f, -1) <==> f in INPUTS;
    } else {
      PathFront(NodeEdges(nodes), entry, p);
      AvailableIsHeld(nodes, entry, Front(p), f);
      DefinesOrKills(nodes[Last(Front(p))]);
      HeldNext(nodes, p, f, Last(Front(p)));
    }
  }

  lemma InitializedIsHeld(nodes: Nodes, entry: nat)
    ensures ReadsInitialized(nodes, entry) <==> NoneMissing(nodes, entry)
  {
    var q := Initialization(nodes, entry);
    forall p: seq<nat>, f | FlowPath(nodes, entry, p)
      ensures f in AvailableAlong(q, p) <==> Held(nodes, p, f)
    {
      AvailableIsHeld(nodes, entry, p, f);
    }
  }

  // ----- predecessors -----

  /** Each node lists a predecessor once per edge from it. */
  ghost predicate PredecessorsExact(nodes: Nodes, done: set<nat>, predecessors: map<nat, seq<nat>>) {
    predecessors.Keys == nodes.Keys &&
    forall ip, p :: ip in nodes ==> multiset(predecessors[ip])[p] == EdgeCount(nodes, done, p, ip)
  }

  ghost function EdgeCount(nodes: Nodes, done: set<nat>, p: nat, ip: nat): nat {
    if p in done && p in nodes then multiset(nodes[p].successors)[ip] else 0
  }

  /** The lists with `count` more edges from ip to each node. */
  ghost predicate EdgesAdded(nodes: Nodes, ip: nat, successors: seq<nat>, before: map<nat, seq<nat>>,
                             after: map<nat, seq<nat>>) {
    && before.Keys == nodes.Keys && after.Keys == nodes.Keys
    && forall x :: x in nodes ==>
         multiset(after[x]) == multiset(before[x])[ip := multiset(before[x])[ip] + multiset(successors)[x]]
  }

  lemma AddEdge(nodes: Nodes, ip: nat, done: seq<nat>, s: nat, before: map<nat, seq<nat>>, current: map<nat, seq<nat>>)
    requires EdgesAdded(nodes, ip, done, before, current) && s in nodes
    ensures EdgesAdded(nodes, ip, done + [s], before, current[s := current[s] + [ip]])
  {
    assert multiset(done + [s]) == multiset(done) + multiset{s};
  }

  method AddEdges(nodes: Nodes, ip: nat, predecessors: map<nat, seq<nat>>)
    returns (r: Result<map<nat, seq<nat>>, FlowError>)
    requires ip in nodes && predecessors.Keys == nodes.Keys
    ensures r.Success? <==> forall s :: s in nodes[ip].successors ==> s in nodes
    ensures r.Success? ==> EdgesAdded(nodes, ip, nodes[ip].successors, predecessors, r.value)
  {
    var current := predecessors;
    var successors := nodes[ip].successors;
    for i := 0 to |successors|
      invariant forall s :: s in successors[..i] ==> s in nodes
      invariant EdgesAdded(nodes, ip, successors[..i], predecessors, current)
    {
      var s := successors[i];
      assert successors[..i + 1] == successors[..i] + [s];
      if s !in nodes {
        return Failure(SuccessorMissing);
      }
      AddEdge(nodes, ip, successors[..i], s, predecessors, current);
      current := current[s := current[s] + [ip]];
    }
    assert successors[..|successors|] == successors;
    r := Success(current);
  }

  method BuildPredecessors(nodes: Nodes) returns (r: Result<map<nat, seq<nat>>, FlowError>)
    ensures r.Success? <==> forall ip, s :: ip in nodes && s in nodes[ip].successors ==> s in nodes
    ensures r.Success? ==> PredecessorsExact(nodes, nodes.Keys, r.value)
  {
    var predecessors: map<nat, seq<nat>> := map ip | ip in nodes :: [];
    var todo := nodes.Keys;
    while todo != {}
      invariant todo <= nodes.Keys
      invariant forall ip, s :: ip in nodes && ip !in todo && s in nodes[ip].successors ==> s in nodes
      invariant PredecessorsExact(nodes, nodes.Keys - todo, predecessors)
      decreases todo
    {
      var ip :| ip in todo;
      todo := todo - {ip};
      var added := AddEdges(nodes, ip, predecessors);
      if added.Failure? {
        return Failure(added.error);
      }
      predecessors := added.value;
    }
    r := Success(predecessors);
  }

  lemma ExactEdges(nodes: Nodes, entry: nat, predecessors: PredecessorLists)
    requires PredecessorsExact(nodes, nodes.Keys, predecessors) && ClosedGraph(nodes, entry)
    ensures EdgesSound(Initialization(nodes, entry), predecessors)
    ensures EdgesComplete(Initialization(nodes, entry), predecessors)
  {
    forall ip, p | ip in nodes
      ensures p in predecessors[ip] <==> p in nodes && ip in nodes[p].successors
    {
      assert p in predecessors[ip] <==> multiset(predecessors[ip])[p] > 0;
      assert p in nodes ==> (ip in nodes[p].successors <==> multiset(nodes[p].successors)[ip] > 0);
    }
  }

  method CheckReads(nodes: Nodes, incoming: Facts<Field>) returns (r: Result<(), FlowError>)
    requires incoming.Keys == nodes.Keys
    ensures r.Success? <==> forall ip :: ip in nodes ==> Reads(nodes[ip]) <= incoming[ip]
    ensures r.Failure? ==> r.error.Uninitialized? && r.error.ip in nodes &&
                           !(Reads(nodes[r.error.ip]) <= incoming[r.error.ip])
  {
    var todo := nodes.Keys;
    while todo != {}
      invariant todo <= nodes.Keys
      invariant forall ip :: ip in nodes && ip !in todo ==> Reads(nodes[ip]) <= incoming[ip]
      decreases todo
    {
      var ip :| ip in todo;
      todo := todo - {ip};
      if !(Reads(nodes[ip]) <= incoming[ip]) {
        return Failure(Uninitialized(ip));
      }
    }
    r := Success(());
  }

  /** Some path comes to the instruction without a field it reads. */
  ghost predicate ReadsUnheld(nodes: Nodes, entry: nat, ip: nat) {
    exists p: seq<nat>, f :: FlowPath(nodes, entry, p) && Last(p) == ip && ip in nodes && f in Reads(nodes[ip]) &&
                             !Held(nodes, p, f)
  }

  lemma Refuted(nodes: Nodes, entry: nat, incoming: Facts<Field>, ip: nat)
    requires Recovered(nodes, entry) && MeetOverPaths(Initialization(nodes, entry), incoming)
    requires ip in nodes && !(Reads(nodes[ip]) <= incoming[ip])
    ensures ReadsUnheld(nodes, entry, ip)
  {
    var q := Initialization(nodes, entry);
    var f :| f in Reads(nodes[ip]) && f !in incoming[ip];
    assert MissingAt(q, ip, f);
    var p: seq<nat> :| PathFrom(q.succ, q.entry, p) && Last(p) == ip && f !in AvailableAlong(q, p);
    assert FlowPath(nodes, entry, p);
    AvailableIsHeld(nodes, entry, p, f);
  }

  method Analyze(nodes: Nodes, entry: nat) returns (r: Result<Flow, FlowError>)
    requires Recovered(nodes, entry)
    ensures r.Success? <==> ReadsInitialized(nodes, entry)
    ensures r.Success? ==> MeetOverPaths(Initialization(nodes, entry), r.value.incoming)
    ensures r.Success? ==> PredecessorsExact(nodes, nodes.Keys, r.value.predecessors)
    ensures r.Failure? ==> r.error.Uninitialized? && ReadsUnheld(nodes, entry, r.error.ip)
  {
    var built := BuildPredecessors(nodes);
    // Recovery closed the graph, so no successor is missing.
    assert built.Success?;
    ExactEdges(nodes, entry, built.value);
    var incoming := Solve(Initialization(nodes, entry), built.value);
    var checked := CheckReads(nodes, incoming);
    ReadsChecked(nodes, entry, incoming);
    if checked.Failure? {
      Refuted(nodes, entry, incoming, checked.error.ip);
      return Failure(checked.error);
    }
    r := Success(Flow(incoming, built.value));
  }

  lemma ReadsChecked(nodes: Nodes, entry: nat, incoming: Facts<Field>)
    requires Recovered(nodes, entry) && MeetOverPaths(Initialization(nodes, entry), incoming)
    ensures ReadsInitialized(nodes, entry) <==> forall ip :: ip in nodes ==> Reads(nodes[ip]) <= incoming[ip]
  {
    InitializedIsHeld(nodes, entry);
  }

  /** Registers a callee preserves under the System V AMD64 ABI, stack pointers aside. */
  const CALLEE_SAVED: set<Field> := {RegisterField(RBX), RegisterField(R12), RegisterField(R13), RegisterField(R14),
    RegisterField(R15)}

  lemma CallKills(node: Node, f: Field)
    requires node.op.CallDirect?
    ensures Defs(node) == {RegisterField(RAX)}
    ensures f in Kills(node) <==> !f.SlotField? && f !in CALLEE_SAVED && f != RegisterField(RAX)
  {
    match f {
      case RegisterField(r) => CallKillsRegister(node, r);
      case FlagField(flag) => match flag { case ZF => case SF => case OF => case CF => }
      case SlotField(_) =>
    }
  }

  lemma CallKillsRegister(node: Node, r: Gpr)
    requires node.op.CallDirect?
    ensures RegisterField(r) in Kills(node) <==> r in {RDI, RSI, RDX, RCX, R8, R9, R10, R11}
    ensures RegisterField(r) in CALLEE_SAVED <==> r in {RBX, R12, R13, R14, R15}
    ensures r in {RAX, RBX, RDI, RSI, RDX, RCX, R8, R9, R10, R11, R12, R13, R14, R15}
  {
  }

  /** Across a direct call RAX is defined, and exactly callee-saved registers and stack slots stay available. */
  lemma CallKeepsCalleeSaved(nodes: Nodes, entry: nat, ip: nat, available: set<Field>, f: Field)
    requires ip in nodes && nodes[ip].op.CallDirect?
    ensures f in Transfer(Initialization(nodes, entry), ip, available) <==>
            f == RegisterField(RAX) || (f in available && (f.SlotField? || f in CALLEE_SAVED))
  {
    CallKills(nodes[ip], f);
  }
}
