/** Assembly of the lifted program: phis for every available field, then one emitted block per node. */
module Compile {
  import opened Wrappers
  import opened Words
  import opened Semantics
  import opened CfgRecovery
  import opened Fields
  import opened DefiniteAssignment
  import opened Ssa
  import opened Emit

  /** The name holding a field after a node: its own output, or what it was given. */
  function NameAfter(nodes: Nodes, ip: nat, f: Field): Name {
    if ip in nodes && f in Defs(nodes[ip]) then Out(f, ip) else In(f, ip)
  }

  function ArgumentIndex(f: Field): nat {
    if f == RegisterField(RDI) then 0
    else if f == RegisterField(RSI) then 1
    else if f == RegisterField(RDX) then 2
    else if f == RegisterField(RCX) then 3
    else if f == RegisterField(R8) then 4
    else 5
  }

  function PrologueArgs(entry: nat, ip: nat, f: Field): seq<PhiArg> {
    if ip == entry && f in INPUTS then [PhiArg(FromArgument(ArgumentIndex(f)), Prologue)] else []
  }

  function EdgeArg(nodes: Nodes, f: Field, predecessor: nat): PhiArg {
    PhiArg(FromValue(NameAfter(nodes, predecessor, f)), BlockAt(predecessor))
  }

  /** One argument per incoming edge, the prologue's first. */
  ghost predicate PhiFor(nodes: Nodes, entry: nat, ip: nat, f: Field, predecessors: seq<nat>, phi: seq<PhiArg>) {
    var base := PrologueArgs(entry, ip, f);
    && |phi| == |base| + |predecessors|
    && phi[..|base|] == base
    && forall i :: 0 <= i < |predecessors| ==> phi[|base| + i] == EdgeArg(nodes, f, predecessors[i])
  }

  method BuildPhi(nodes: Nodes, entry: nat, ip: nat, f: Field, predecessors: seq<nat>) returns (phi: seq<PhiArg>)
    ensures PhiFor(nodes, entry, ip, f, predecessors, phi)
  {
    phi := PrologueArgs(entry, ip, f);
    for i := 0 to |predecessors|
      invariant PhiFor(nodes, entry, ip, f, predecessors[..i], phi)
    {
      assert predecessors[..i + 1] == predecessors[..i] + [predecessors[i]];
      phi := phi + [EdgeArg(nodes, f, predecessors[i])];
    }
    assert predecessors[..|predecessors|] == predecessors;
  }

  ghost predicate PhisExact(nodes: Nodes, entry: nat, ip: nat, available: set<Field>, predecessors: seq<nat>,
                            phis: map<Name, seq<PhiArg>>) {
    && (forall n :: n in phis <==> n.In? && n.ip == ip && n.field in available)
    && (forall f :: f in available ==> In(f, ip) in phis && PhiFor(nodes, entry, ip, f, predecessors, phis[In(f, ip)]))
  }

  method BuildPhis(nodes: Nodes, entry: nat, ip: nat, available: set<Field>, predecessors: seq<nat>)
    returns (phis: map<Name, seq<PhiArg>>)
    ensures PhisExact(nodes, entry, ip, available, predecessors, phis)
  {
    phis := map[];
    var todo := available;
    while todo != {}
      invariant todo <= available && PhisExact(nodes, entry, ip, available - todo, predecessors, phis)
      decreases todo
    {
      var f :| f in todo;
      todo := todo - {f};
      var phi := BuildPhi(nodes, entry, ip, f, predecessors);
      phis := phis[In(f, ip) := phi];
    }
  }

  /** The block does what its instruction does, in every environment. */
  ghost predicate BlockExact(ip: nat, node: Node, block: Block)
    requires Emittable(node)
  {
    forall e :: KeepsOthers(ip, e, Run(block.body, e)) && Computes(ip, node, e, Run(block.body, e)) &&
                Leaves(ip, node, e, Run(block.body, e), block.terminator)
  }

  ghost predicate AllEmittable(nodes: Nodes) {
    forall ip :: ip in nodes ==> Emittable(nodes[ip])
  }

  ghost predicate Compiled(nodes: Nodes, entry: nat, flow: Flow, prog: Program)
    requires AllEmittable(nodes)
  {
    && prog.entry == entry
    && prog.blocks.Keys == nodes.Keys && flow.incoming.Keys == nodes.Keys && flow.predecessors.Keys == nodes.Keys
    && forall ip :: ip in nodes ==>
         PhisExact(nodes, entry, ip, flow.incoming[ip], flow.predecessors[ip], prog.blocks[ip].phis) &&
         BlockExact(ip, nodes[ip], prog.blocks[ip]) && NamesOnce(ip, prog.blocks[ip].body)
  }

  /** What a finished block satisfies, folded. */
  ghost predicate BlockDone(nodes: Nodes, entry: nat, flow: Flow, ip: nat, block: Block) {
    && ip in nodes && ip in flow.incoming && ip in flow.predecessors && Emittable(nodes[ip])
    && forall b: bool {:trigger Unfold(b)} :: Unfold(b) ==>
         PhisExact(nodes, entry, ip, flow.incoming[ip], flow.predecessors[ip], block.phis) &&
         BlockExact(ip, nodes[ip], block) && NamesOnce(ip, block.body)
  }

  method EmitBlock(nodes: Nodes, entry: nat, flow: Flow, ip: nat) returns (block: Block)
    requires ip in nodes && Emittable(nodes[ip]) && ip in flow.incoming && ip in flow.predecessors
    ensures BlockDone(nodes, entry, flow, ip, block)
  {
    var phis := BuildPhis(nodes, entry, ip, flow.incoming[ip], flow.predecessors[ip]);
    var emitter := new Emitter(ip);
    var terminator := emitter.EmitNode(nodes[ip]);
    block := Block(phis, emitter.body, terminator);
  }

  method EmitProgram(nodes: Nodes, entry: nat, flow: Flow) returns (prog: Program)
    requires AllEmittable(nodes) && flow.incoming.Keys == nodes.Keys && flow.predecessors.Keys == nodes.Keys
    ensures Compiled(nodes, entry, flow, prog)
  {
    var blocks: map<nat, Block> := map[];
    var todo := nodes.Keys;
    while todo != {}
      invariant todo <= nodes.Keys && blocks.Keys == nodes.Keys - todo
      invariant forall ip :: ip in blocks ==> BlockDone(nodes, entry, flow, ip, blocks[ip])
      decreases todo
    {
      var ip :| ip in todo;
      todo := todo - {ip};
      var block := EmitBlock(nodes, entry, flow, ip);
      blocks := blocks[ip := block];
    }
    prog := Program(entry, blocks);
    AllDone(nodes, entry, flow, prog);
  }

  lemma AllDone(nodes: Nodes, entry: nat, flow: Flow, prog: Program)
    requires AllEmittable(nodes) && flow.incoming.Keys == nodes.Keys && flow.predecessors.Keys == nodes.Keys
    requires prog.entry == entry && prog.blocks.Keys == nodes.Keys
    requires forall ip :: ip in prog.blocks ==> BlockDone(nodes, entry, flow, ip, prog.blocks[ip])
    ensures Compiled(nodes, entry, flow, prog)
  {
    assert Unfold(true);
  }

  // ----- what a phi evaluates to -----

  lemma {:induction false} PhiFromBlock(env: Env, arguments: seq<Word>, phi: seq<PhiArg>, from: Label, v: Val)
    requires exists i :: 0 <= i < |phi| && phi[i].from == from
    requires forall i :: 0 <= i < |phi| && phi[i].from == from ==>
             phi[i].source.FromValue? && Look(env, phi[i].source.name) == v
    ensures EvalPhi(env, arguments, phi, from) == v
  {
    if phi[0].from != from {
      var i :| 0 <= i < |phi| && phi[i].from == from;
      assert phi[1..][i - 1] == phi[i];
      PhiFromBlock(env, arguments, phi[1..], from, v);
    }
  }

  /** Entered from a predecessor, a phi takes the value that predecessor holds. */
  lemma PhiTakesEdge(nodes: Nodes, entry: nat, ip: nat, f: Field, predecessors: seq<nat>, phi: seq<PhiArg>, env: Env,
                     arguments: seq<Word>, p: nat)
    requires PhiFor(nodes, entry, ip, f, predecessors, phi) && p in predecessors
    ensures EvalPhi(env, arguments, phi, BlockAt(p)) == Look(env, NameAfter(nodes, p, f))
  {
    var base := |PrologueArgs(entry, ip, f)|;
    var k :| 0 <= k < |predecessors| && predecessors[k] == p;
    assert phi[base + k].from == BlockAt(p);
    forall i | 0 <= i < |phi| && phi[i].from == BlockAt(p)
      ensures phi[i] == EdgeArg(nodes, f, p)
    {
      if i >= base {
        assert phi[base + (i - base)] == EdgeArg(nodes, f, predecessors[i - base]);
      }
    }
    PhiFromBlock(env, arguments, phi, BlockAt(p), Look(env, NameAfter(nodes, p, f)));
  }

  lemma PhiTakesArgument(nodes: Nodes, entry: nat, f: Field, predecessors: seq<nat>, phi: seq<PhiArg>, env: Env,
                         arguments: seq<Word>)
    requires PhiFor(nodes, entry, entry, f, predecessors, phi) && f in INPUTS && |arguments| == |ARGUMENTS|
    ensures f == RegisterField(ARGUMENTS[ArgumentIndex(f)])
    ensures EvalPhi(env, arguments, phi, Prologue) == I64(arguments[ArgumentIndex(f)])
  {
    assert phi[0] == phi[..1][0];
  }
}
