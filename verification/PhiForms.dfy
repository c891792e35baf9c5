/** Well-formed phis: one argument per incoming edge, each naming a value its predecessor assigns. */
module PhiForms {
  import opened Wrappers
  import opened Decode
  import opened CfgRecovery
  import opened Fields
  import opened GenKill
  import opened DefiniteAssignment
  import opened ScalarRecovery
  import opened Simulation
  import opened Ssa
  import opened Emit
  import opened Compile
  import opened LiftCorrect
  import StackProof

  predicate Assigns(body: seq<Instr>, n: Name) {
    exists j | 0 <= j < |body| :: body[j].name == n
  }

  lemma {:induction false} UnassignedKept(body: seq<Instr>, env: Env, n: Name)
    requires !Assigns(body, n)
    ensures Look(Run(body, env), n) == Look(env, n)
  {
    if body != [] {
      var front := body[..|body| - 1];
      assert forall j :: 0 <= j < |front| ==> front[j] == body[j];
      UnassignedKept(front, env, n);
      assert body[|body| - 1].name != n;
    }
  }

  function SomeValue(f: Field): Val { if f.FlagField? then I1(false) else I64(0) }

  /** A block assigns the output of every field its node defines. */
  lemma OutputsAssigned(ip: nat, node: Node, block: Block, f: Field)
    requires Emittable(node) && !node.op.Ret? && BlockExact(ip, node, block) && f in Defs(node)
    ensures Assigns(block.body, Out(f, ip))
  {
    var env: Env := map g | g in Reads(node) :: In(g, ip) := SomeValue(g);
    forall g | g in Reads(node)
      ensures HasType(g, Look(env, In(g, ip)))
    {
      assert In(g, ip) in env;
    }
    assert Typed(env, ip, Reads(node));
    DefinedType(node, RegsView(env, ip), SlotView(env, ip, node), f);
    assert Computes(ip, node, env, Run(block.body, env));
    assert Look(Run(block.body, env), Out(f, ip)) != Look(env, Out(f, ip));
    if !Assigns(block.body, Out(f, ip)) {
      UnassignedKept(block.body, env, Out(f, ip));
    }
  }

  /** How many phi arguments come from a label. */
  function CountFrom(phi: seq<PhiArg>, from: Label): nat {
    if phi == [] then 0 else CountFrom(phi[..|phi| - 1], from) + if phi[|phi| - 1].from == from then 1 else 0
  }

  lemma {:induction false} CountEdges(nodes: Nodes, f: Field, predecessors: seq<nat>, base: seq<PhiArg>,
                                      phi: seq<PhiArg>, p: nat)
    requires |phi| == |base| + |predecessors| && phi[..|base|] == base && CountFrom(base, BlockAt(p)) == 0
    requires forall i :: 0 <= i < |predecessors| ==> phi[|base| + i] == EdgeArg(nodes, f, predecessors[i])
    ensures CountFrom(phi, BlockAt(p)) == multiset(predecessors)[p]
  {
    if predecessors == [] {
      assert phi == base;
    } else {
      var last := |predecessors| - 1;
      assert predecessors == predecessors[..last] + [predecessors[last]];
      assert phi[..|phi| - 1][..|base|] == base;
      CountEdges(nodes, f, predecessors[..last], base, phi[..|phi| - 1], p);
      assert phi[|base| + last] == EdgeArg(nodes, f, predecessors[last]);
    }
  }

  /** A value the block of p holds when it leaves: assigned by its body or by one of its phis. */
  predicate HeldBy(prog: Program, p: nat, n: Name) {
    p in prog.blocks && (n in prog.blocks[p].phis || Assigns(prog.blocks[p].body, n))
  }

  /** What makes the phi of field f at ip well formed. */
  ghost predicate WellFormedPhi(nodes: Nodes, entry: nat, prog: Program, ip: nat, f: Field, phi: seq<PhiArg>) {
    && (forall p :: CountFrom(phi, BlockAt(p)) == EdgeCount(nodes, nodes.Keys, p, ip))
    && (forall i :: 0 <= i < |phi| && phi[i].from.BlockAt? ==>
          phi[i].source.FromValue? && phi[i].from.ip in nodes &&
            phi[i].source.name == NameAfter(nodes, phi[i].from.ip, f) &&
          HeldBy(prog, phi[i].from.ip, phi[i].source.name))
    && (forall i :: 0 <= i < |phi| && phi[i].from.Prologue? ==>
          i == 0 && ip == entry && f in INPUTS && phi[i].source == FromArgument(ArgumentIndex(f)))
    && (ip == entry && f in INPUTS ==> phi != [] && phi[0].from.Prologue?)
  }

  lemma NotFromPrologue(nodes: Nodes, entry: nat, ip: nat, f: Field, p: nat)
    ensures CountFrom(PrologueArgs(entry, ip, f), BlockAt(p)) == 0
  {
    var base := PrologueArgs(entry, ip, f);
    if base != [] {
      assert base[..0] == [];
    }
  }

  /** Argument i of a phi: the prologue's, or that of an edge. */
  lemma PhiArgument(nodes: Nodes, entry: nat, ip: nat, f: Field, predecessors: seq<nat>, phi: seq<PhiArg>, i: nat)
    requires PhiFor(nodes, entry, ip, f, predecessors, phi) && i < |phi|
    ensures var base := PrologueArgs(entry, ip, f);
            if i < |base| then phi[i] == base[i]
            else i - |base| < |predecessors| && phi[i] == EdgeArg(nodes, f, predecessors[i - |base|])
  {
    var base := PrologueArgs(entry, ip, f);
    if i < |base| {
      assert phi[i] == phi[..|base|][i];
    } else {
      assert phi[|base| + (i - |base|)] == phi[i];
    }
  }

  lemma EdgeArguments(nodes: Nodes, entry: nat, prog: Program, ip: nat, f: Field, predecessors: seq<nat>,
                      phi: seq<PhiArg>, i: nat)
    requires PhiFor(nodes, entry, ip, f, predecessors, phi) && i < |phi|
    requires forall p :: p in predecessors ==> p in nodes && HeldBy(prog, p, NameAfter(nodes, p, f))
    ensures phi[i].from.BlockAt? ==>
              phi[i].source.FromValue? && phi[i].from.ip in nodes &&
                phi[i].source.name == NameAfter(nodes, phi[i].from.ip, f) &&
              HeldBy(prog, phi[i].from.ip, phi[i].source.name)
    ensures phi[i].from.Prologue? ==>
            i == 0 && ip == entry && f in INPUTS && phi[i].source == FromArgument(ArgumentIndex(f))
  {
    PhiArgument(nodes, entry, ip, f, predecessors, phi, i);
    var base := |PrologueArgs(entry, ip, f)|;
    assert i >= base ==> predecessors[i - base] in predecessors;
  }

  lemma PhiCounts(nodes: Nodes, entry: nat, ip: nat, f: Field, predecessors: seq<nat>, phi: seq<PhiArg>, p: nat)
    requires PhiFor(nodes, entry, ip, f, predecessors, phi)
    ensures CountFrom(phi, BlockAt(p)) == multiset(predecessors)[p]
  {
    NotFromPrologue(nodes, entry, ip, f, p);
    CountEdges(nodes, f, predecessors, PrologueArgs(entry, ip, f), phi, p);
  }

  /** Where the arguments of a phi come from. */
  lemma PhiShape(nodes: Nodes, entry: nat, prog: Program, ip: nat, f: Field, predecessors: seq<nat>, phi: seq<PhiArg>)
    requires PhiFor(nodes, entry, ip, f, predecessors, phi)
    requires forall p :: multiset(predecessors)[p] == EdgeCount(nodes, nodes.Keys, p, ip)
    requires forall p :: p in predecessors ==> p in nodes && HeldBy(prog, p, NameAfter(nodes, p, f))
    ensures WellFormedPhi(nodes, entry, prog, ip, f, phi)
  {
    forall p
      ensures CountFrom(phi, BlockAt(p)) == EdgeCount(nodes, nodes.Keys, p, ip)
    {
      PhiCounts(nodes, entry, ip, f, predecessors, phi, p);
    }
    forall i: nat | i < |phi|
      ensures phi[i].from.BlockAt? ==>
                phi[i].source.FromValue? && phi[i].from.ip in nodes &&
                  phi[i].source.name == NameAfter(nodes, phi[i].from.ip, f) &&
                HeldBy(prog, phi[i].from.ip, phi[i].source.name)
      ensures phi[i].from.Prologue? ==>
              i == 0 && ip == entry && f in INPUTS && phi[i].source == FromArgument(ArgumentIndex(f))
    {
      EdgeArguments(nodes, entry, prog, ip, f, predecessors, phi, i);
    }
    if ip == entry && f in INPUTS {
      PhiArgument(nodes, entry, ip, f, predecessors, phi, 0);
    }
  }

  lemma PredecessorHolds(nodes: Nodes, entry: nat, flow: Flow, prog: Program, ip: nat, f: Field, p: nat)
    requires AllEmittable(nodes) && Compiled(nodes, entry, flow, prog) && p in nodes && ip in nodes[p].successors
    requires f in flow.incoming[p] || f in Defs(nodes[p])
    ensures HeldBy(prog, p, NameAfter(nodes, p, f))
  {
    if f in Defs(nodes[p]) {
      OutputsAssigned(p, nodes[p], prog.blocks[p], f);
    } else {
      assert In(f, p) in prog.blocks[p].phis;
    }
  }

  lemma EdgeOfPredecessor(nodes: Nodes, flow: Flow, ip: nat, p: nat)
    requires PredecessorsExact(nodes, nodes.Keys, flow.predecessors) && ip in nodes && p in flow.predecessors[ip]
    ensures p in nodes && ip in nodes[p].successors
  {
    assert multiset(flow.predecessors[ip])[p] > 0;
  }

  lemma PhisShaped(code: Code, nodes: Nodes, flow: Flow, prog: Program, ip: nat, f: Field)
    requires NodesExact(code, Scalar(CALL_FREE), nodes) && AllEmittable(nodes)
    requires MeetOverPaths(Initialization(nodes, code.address), flow.incoming)
    requires PredecessorsExact(nodes, nodes.Keys, flow.predecessors)
    requires Compiled(nodes, code.address, flow, prog)
    requires ip in prog.blocks && In(f, ip) in prog.blocks[ip].phis
    ensures WellFormedPhi(nodes, code.address, prog, ip, f, prog.blocks[ip].phis[In(f, ip)])
  {
    assert f in flow.incoming[ip];
    forall p | p in flow.predecessors[ip]
      ensures p in nodes && HeldBy(prog, p, NameAfter(nodes, p, f))
    {
      EdgeOfPredecessor(nodes, flow, ip, p);
      AvailableOverEdge(code, nodes, flow, p, ip);
      PredecessorHolds(nodes, code.address, flow, prog, ip, f, p);
    }
    PhiShape(nodes, code.address, prog, ip, f, flow.predecessors[ip], prog.blocks[ip].phis[In(f, ip)]);
  }

  /** Phi well-formedness of every lifted program. */
  lemma PhisWellFormed(code: Code, nodes: Nodes, slots: seq<StackProof.StackSlot>, flow: Flow, prog: Program, ip: nat,
                       f: Field)
    requires Lifted(code, nodes, slots, flow, prog)
    requires ip in prog.blocks && In(f, ip) in prog.blocks[ip].phis
    ensures WellFormedPhi(nodes, code.address, prog, ip, f, prog.blocks[ip].phis[In(f, ip)])
  {
    assert Unfold(true);
    PhisShaped(code, nodes, flow, prog, ip, f);
  }

  // ----- static single assignment -----

  /** A place that assigns a name: a phi of a block, or instruction `index` of its body. */
  datatype Site = PhiSite(ip: nat) | BodySite(ip: nat, index: nat)

  predicate AssignedAt(prog: Program, n: Name, site: Site) {
    site.ip in prog.blocks &&
    match site
    case PhiSite(ip) => n in prog.blocks[ip].phis
    case BodySite(ip, index) => index < |prog.blocks[ip].body| && prog.blocks[ip].body[index].name == n
  }

  lemma SiteOwnsName(nodes: Nodes, entry: nat, flow: Flow, prog: Program, n: Name, site: Site)
    requires AllEmittable(nodes) && Compiled(nodes, entry, flow, prog) && AssignedAt(prog, n, site)
    ensures n.ip == site.ip && (n.In? <==> site.PhiSite?) && NamesOnce(site.ip, prog.blocks[site.ip].body)
  {
  }

  /** Every name of a lifted program is assigned in one place only. */
  lemma AssignedInOnePlace(code: Code, nodes: Nodes, slots: seq<StackProof.StackSlot>, flow: Flow, prog: Program,
                           n: Name, a: Site, b: Site)
    requires Lifted(code, nodes, slots, flow, prog) && AssignedAt(prog, n, a) && AssignedAt(prog, n, b)
    ensures a == b
  {
    assert AllEmittable(nodes) && Compiled(nodes, code.address, flow, prog) by {
      assert Unfold(true);
    }
    SiteOwnsName(nodes, code.address, flow, prog, n, a);
    SiteOwnsName(nodes, code.address, flow, prog, n, b);
  }
}
