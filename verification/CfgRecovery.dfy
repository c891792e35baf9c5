/** Worklist recovery of the reachable direct control flow (`recover_bounded`, first half). */
module CfgRecovery {
  import opened Wrappers
  import opened Words
  import opened Semantics
  import opened Decode
  import opened Ownership
  import opened Paths

  datatype Node = Node(op: Op, successors: seq<nat>, callTarget: Option<nat>, slot: Option<nat>)

  datatype Options = Options(
    allowedCalls: Option<set<nat>>, boundaryExits: Option<set<nat>>,
    terminalCallSites: Option<set<nat>>, proveStack: bool)

  datatype Error =
    | AddressOverflow
    | LeavesSymbol(ip: nat)
    | InvalidInstruction(ip: nat)
    | Overlapping(ip: nat, other: nat)
    | Unsupported(ip: nat)
    | NeedsPhysicalContract(ip: nat)
    | UnresolvedCall(ip: nat)
    | UndeclaredExit(ip: nat, successor: nat)

  function FrameRegister(r: Option<Register>): bool {
    r == Some(RSP) || r == Some(RBP)
  }

  predicate RejectedWithStackProof(op: Op) {
    (op.Lea? && (FrameRegister(op.leaBase) || FrameRegister(op.index))) ||
    op.LoadMemory64? || op.LoadMemory32? || op.StoreMemory64? || op.StoreMemory32? ||
    op.AluRegMemory64? || op.SaveRegister? || op.RestoreRegister?
  }

  predicate CallRejected(opt: Options, op: Op) {
    op.CallDirect? && opt.allowedCalls.Some? && op.callee !in opt.allowedCalls.value
  }

  predicate DeclaredExit(opt: Options, ip: nat) {
    opt.boundaryExits.Some? && ip in opt.boundaryExits.value
  }

  predicate TerminalCall(opt: Options, ip: nat) {
    opt.terminalCallSites.Some? && ip in opt.terminalCallSites.value
  }

  function SuccessorsOf(code: Code, opt: Options, ip: nat): seq<nat>
    requires code.Decodes(ip)
  {
    var target, next := code.At(ip).target, code.NextIp(ip);
    match code.OpAt(ip)
    case Ret => []
    case CallDirect(_) => if TerminalCall(opt, ip) then [] else [next]
    case Jmp => [target]
    case Jcc(_) => [target, next]
    case _ => [next]
  }

  function NodeAt(code: Code, opt: Options, ip: nat): Node
    requires code.Decodes(ip)
  {
    var op := code.OpAt(ip);
    Node(op, SuccessorsOf(code, opt, ip), if op.CallDirect? then Some(op.callee) else None, None)
  }

  /** What recovery demands of one instruction. */
  predicate Admissible(code: Code, opt: Options, ip: nat) {
    && code.Decodes(ip)
    && !(opt.proveStack && RejectedWithStackProof(code.OpAt(ip)))
    && !CallRejected(opt, code.OpAt(ip))
    && forall s :: s in SuccessorsOf(code, opt, ip) ==> code.Contains(s) || DeclaredExit(opt, s)
  }

  /** Control flow inside the selected bytes. */
  ghost function Edges(code: Code, opt: Options): nat -> set<nat> {
    (ip: nat) =>
      if Admissible(code, opt, ip) then set s | s in SuccessorsOf(code, opt, ip) && code.Contains(s) else {}
  }

  ghost predicate Reached(code: Code, opt: Options, ip: nat) {
    Reachable(Edges(code, opt), code.address, ip)
  }

  ghost predicate Recoverable(code: Code, opt: Options) {
    && code.End() < TWO64
    && (forall ip :: Reached(code, opt, ip) ==> Admissible(code, opt, ip))
    && (forall ip, other :: Reached(code, opt, ip) && Reached(code, opt, other) && ip != other
          ==> !code.Overlap(ip, other))
  }

  /** The nodes are exactly the reachable instructions. */
  ghost predicate ExactClosure(code: Code, opt: Options, nodes: map<nat, Node>) {
    && (forall ip :: ip in nodes <==> Reached(code, opt, ip))
    && (forall ip :: ip in nodes ==> code.Decodes(ip) && nodes[ip] == NodeAt(code, opt, ip))
  }

  ghost predicate Traversed(code: Code, opt: Options, nodes: map<nat, Node>, pending: seq<nat>) {
    && (forall ip :: ip in pending ==> Reached(code, opt, ip))
    && (forall ip :: ip in nodes ==>
          Reached(code, opt, ip) && Admissible(code, opt, ip) && nodes[ip] == NodeAt(code, opt, ip))
    && (code.address in nodes || code.address in pending)
    && (forall ip, s :: ip in nodes && s in nodes[ip].successors && code.Contains(s) ==> s in nodes || s in pending)
  }

  /** Queues the successors inside the code, last one first; all others must be declared exits. */
  method Enqueue(code: Code, opt: Options, ip: nat, successors: seq<nat>, rest: seq<nat>)
    returns (r: Result<seq<nat>, Error>)
    ensures r.Success? <==> forall s :: s in successors ==> code.Contains(s) || DeclaredExit(opt, s)
    ensures r.Success? ==> forall x :: x in r.value <==> x in rest || (x in successors && code.Contains(x))
    ensures r.Failure? ==>
              && r.error.UndeclaredExit? && r.error.ip == ip && r.error.successor in successors
              && !code.Contains(r.error.successor) && !DeclaredExit(opt, r.error.successor)
  {
    var pending := rest;
    var i := |successors|;
    while i > 0
      invariant 0 <= i <= |successors|
      invariant forall s :: s in successors[i..] ==> code.Contains(s) || DeclaredExit(opt, s)
      invariant forall x :: x in pending <==> x in rest || (x in successors[i..] && code.Contains(x))
    {
      i := i - 1;
      var successor := successors[i];
      assert successors[i..] == [successor] + successors[i + 1..];
      if !code.Contains(successor) {
        if !DeclaredExit(opt, successor) {
          return Failure(UndeclaredExit(ip, successor));
        }
      } else {
        pending := pending + [successor];
      }
    }
    assert successors[0..] == successors;
    r := Success(pending);
  }

  /** Decodes one address, claims its bytes and applies the per-instruction rejections. */
  method Visit(code: Code, opt: Options, ip: nat, owners: array<Option<nat>>) returns (r: Result<Node, Error>)
    requires code.Valid() && owners.Length == |code.table|
    modifies owners
    ensures r.Success? <==>
              && code.Decodes(ip)
              && BytesFree(code, old(owners[..]), ip)
              && !(opt.proveStack && RejectedWithStackProof(code.OpAt(ip)))
              && !CallRejected(opt, code.OpAt(ip))
    ensures r.Success? ==> r.value == NodeAt(code, opt, ip) && Claimed(code, old(owners[..]), owners[..], ip)
    ensures r.Failure? ==>
              match r.error
              case LeavesSymbol(x) => x == ip && !code.Contains(ip)
              case InvalidInstruction(x) => x == ip && code.Contains(ip) && code.At(ip).Invalid?
              case Overlapping(x, _) => x == ip && code.Contains(ip) && !BytesFree(code, old(owners[..]), ip)
              case Unsupported(x) => x == ip && code.Contains(ip) && code.At(ip).Unclassified?
              case NeedsPhysicalContract(x) =>
                x == ip && code.Decodes(ip) && opt.proveStack && RejectedWithStackProof(code.OpAt(ip))
              case UnresolvedCall(x) => x == ip && code.Decodes(ip) && CallRejected(opt, code.OpAt(ip))
              case _ => false
  {
    if !code.Contains(ip) {
      return Failure(LeavesSymbol(ip));
    }
    var decoded := code.At(ip);
    if decoded.Invalid? {
      return Failure(InvalidInstruction(ip));
    }
    var conflict := Claim(code, ip, owners);
    if conflict.Some? {
      return Failure(Overlapping(ip, conflict.value));
    }
    if decoded.Unclassified? {
      return Failure(Unsupported(ip));
    }
    if opt.proveStack && RejectedWithStackProof(decoded.op) {
      return Failure(NeedsPhysicalContract(ip));
    }
    if CallRejected(opt, decoded.op) {
      return Failure(UnresolvedCall(ip));
    }
    r := Success(NodeAt(code, opt, ip));
  }

  method Recover(code: Code, opt: Options) returns (r: Result<map<nat, Node>, Error>)
    requires code.Valid()
    ensures r.Success? <==> Recoverable(code, opt)
    ensures r.Success? ==> ExactClosure(code, opt, r.value)
  {
    if code.End() >= TWO64 {
      return Failure(AddressOverflow);
    }
    var pending: seq<nat> := [code.address];
    var nodes: map<nat, Node> := map[];
    var owners := new Option<nat>[|code.table|](_ => None);
    StartWorking(code, opt, owners[..]);
    while pending != []
      invariant Working(code, opt, nodes, pending, owners[..])
      decreases |code.table| - |nodes|, |pending|
    {
      var ip := pending[0];
      assert pending == [ip] + pending[1..];
      pending := pending[1..];
      if ip in nodes {
        Skip(code, opt, nodes, pending, ip, owners[..]);
        continue;
      }
      ghost var before := owners[..];
      var node := Visit(code, opt, ip, owners);
      if node.Failure? {
        Refuse(code, opt, nodes, before, ip, pending);
        return Failure(node.error);
      }
      var queued := Enqueue(code, opt, ip, node.value.successors, pending);
      if queued.Failure? {
        Refuse(code, opt, nodes, before, ip, pending);
        return Failure(queued.error);
      }
      Grow(code, opt, nodes, pending, ip, queued.value, before, owners[..]);
      pending, nodes := queued.value, nodes[ip := node.value];
    }
    Complete(code, opt, nodes, owners[..]);
    r := Success(nodes);
  }

  /** The worklist invariant, folded. */
  ghost predicate Working(code: Code, opt: Options, nodes: map<nat, Node>, pending: seq<nat>, owners: seq<Option<nat>>)
  {
    Exploring(code, opt, nodes, pending) && Owning(code, nodes, owners)
  }

  ghost predicate Exploring(code: Code, opt: Options, nodes: map<nat, Node>, pending: seq<nat>) {
    forall b: bool {:trigger Unfold(b)} :: Unfold(b) ==> Traversed(code, opt, nodes, pending)
  }

  ghost predicate Owning(code: Code, nodes: map<nat, Node>, owners: seq<Option<nat>>) {
    forall b: bool {:trigger Unfold(b)} :: Unfold(b) ==>
      OwnersExact(code, nodes.Keys, owners) && forall x :: x in nodes ==> code.Contains(x)
  }

  lemma StartWorking(code: Code, opt: Options, owners: seq<Option<nat>>)
    requires code.Valid() && |owners| == |code.table| && forall k :: 0 <= k < |owners| ==> owners[k].None?
    ensures Working(code, opt, map[], [code.address], owners)
  {
    ReachSelf(Edges(code, opt), code.address);
    var empty: map<nat, Node> := map[];
    assert OwnersExact(code, empty.Keys, owners);
  }

  lemma Skip(code: Code, opt: Options, nodes: map<nat, Node>, rest: seq<nat>, ip: nat, owners: seq<Option<nat>>)
    requires Working(code, opt, nodes, [ip] + rest, owners) && ip in nodes
    ensures Working(code, opt, nodes, rest, owners)
  {
    assert Unfold(true);
    assert forall x :: x in [ip] + rest <==> x == ip || x in rest;
  }

  /** A reachable instruction that is inadmissible, or whose bytes are taken, rules recovery out. */
  lemma Refuse(code: Code, opt: Options, nodes: map<nat, Node>, owners: seq<Option<nat>>, ip: nat, rest: seq<nat>)
    requires Working(code, opt, nodes, [ip] + rest, owners) && ip !in nodes
    requires !Admissible(code, opt, ip) || !BytesFree(code, owners, ip)
    ensures !Recoverable(code, opt)
  {
    assert Unfold(true);
    assert ip in [ip] + rest;
    if Admissible(code, opt, ip) {
      var k :| 0 <= k < |owners| && code.Covers(ip, code.address + k) && owners[k].Some?;
      assert code.Overlap(ip, owners[k].value);
    }
  }

  /** A claimed, admissible instruction becomes a node and its successors wait. */
  lemma Grow(code: Code, opt: Options, nodes: map<nat, Node>, rest: seq<nat>, ip: nat, pending: seq<nat>,
             before: seq<Option<nat>>, after: seq<Option<nat>>)
    requires code.Valid() && Admissible(code, opt, ip) && ip !in nodes
    requires Working(code, opt, nodes, [ip] + rest, before) && BytesFree(code, before, ip) &&
             Claimed(code, before, after, ip)
    requires forall x :: x in pending <==> x in rest || (x in SuccessorsOf(code, opt, ip) && code.Contains(x))
    ensures Working(code, opt, nodes[ip := NodeAt(code, opt, ip)], pending, after)
    ensures |nodes| < |nodes[ip := NodeAt(code, opt, ip)]| <= |code.table|
  {
    GrowNodes(code, opt, nodes, rest, ip, pending);
    GrowOwners(code, nodes, ip, NodeAt(code, opt, ip), before, after);
  }

  lemma GrowNodes(code: Code, opt: Options, nodes: map<nat, Node>, rest: seq<nat>, ip: nat, pending: seq<nat>)
    requires Admissible(code, opt, ip) && Exploring(code, opt, nodes, [ip] + rest)
    requires forall x :: x in pending <==> x in rest || (x in SuccessorsOf(code, opt, ip) && code.Contains(x))
    ensures Exploring(code, opt, nodes[ip := NodeAt(code, opt, ip)], pending)
  {
    assert Unfold(true);
    NewNode(code, opt, nodes, rest, ip, pending);
  }

  lemma GrowOwners(code: Code, nodes: map<nat, Node>, ip: nat, node: Node, before: seq<Option<nat>>,
                   after: seq<Option<nat>>)
    requires code.Valid() && code.Decodes(ip) && ip !in nodes
    requires Owning(code, nodes, before) && BytesFree(code, before, ip) && Claimed(code, before, after, ip)
    ensures Owning(code, nodes[ip := node], after)
    ensures |nodes| < |nodes[ip := node]| <= |code.table|
  {
    assert Unfold(true);
    NewBytes(code, nodes.Keys, before, after, ip);
    assert nodes[ip := node].Keys == nodes.Keys + {ip};
  }

  /** An empty queue means the nodes are closed, hence all that is reachable. */
  lemma Complete(code: Code, opt: Options, nodes: map<nat, Node>, owners: seq<Option<nat>>)
    requires code.Valid() && code.End() < TWO64 && Working(code, opt, nodes, [], owners)
    ensures ExactClosure(code, opt, nodes) && Recoverable(code, opt)
  {
    assert forall ip :: ip in nodes <==> Reached(code, opt, ip) by {
      ReachedAreNodes(code, opt, nodes);
    }
    assert Unfold(true);
    forall ip, other | ip in nodes && other in nodes && code.Overlap(ip, other)
      ensures ip == other
    {
      OwnersDisjoint(code, nodes.Keys, owners, ip, other);
    }
  }

  lemma NodesClosed(code: Code, opt: Options, nodes: map<nat, Node>)
    requires Exploring(code, opt, nodes, [])
    ensures Closed(Edges(code, opt), nodes.Keys)
  {
    forall ip, s | ip in nodes.Keys && s in Edges(code, opt)(ip)
      ensures s in nodes.Keys
    {
      assert Unfold(true);
      assert s in nodes[ip].successors;
    }
  }

  lemma ReachedAreNodes(code: Code, opt: Options, nodes: map<nat, Node>)
    requires Exploring(code, opt, nodes, [])
    ensures forall ip :: ip in nodes <==> Reached(code, opt, ip)
  {
    NodesClosed(code, opt, nodes);
    assert Unfold(true);
    forall ip | Reached(code, opt, ip)
      ensures ip in nodes
    {
      ClosedHoldsReachable(Edges(code, opt), nodes.Keys, code.address, ip);
    }
  }

  lemma NewNode(code: Code, opt: Options, nodes: map<nat, Node>, rest: seq<nat>, ip: nat, pending: seq<nat>)
    requires Admissible(code, opt, ip)
    requires Traversed(code, opt, nodes, [ip] + rest)
    requires forall x :: x in pending <==> x in rest || (x in SuccessorsOf(code, opt, ip) && code.Contains(x))
    ensures Traversed(code, opt, nodes[ip := NodeAt(code, opt, ip)], pending)
  {
    assert forall x :: x in [ip] + rest <==> x == ip || x in rest;
    forall x | x in pending
      ensures Reached(code, opt, x)
    {
      if x !in rest {
        ReachStep(Edges(code, opt), code.address, ip, x);
      }
    }
  }
}
