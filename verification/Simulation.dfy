/**
 Lock step of the machine and the lifted program along any path of the recovered graph. `taint`
 holds the fields an erased instruction changed behind the lifted program's back.
 */
module Simulation {
  import opened Words
  import opened Memory
  import opened Semantics
  import opened Machine
  import opened CfgRecovery
  import opened Fields
  import opened Ssa
  import opened Emit
  import opened Compile
  import opened StackProof
  import opened StackSoundness
  import opened Agreement

  predicate HasType(f: Field, v: Val) { if f.FlagField? then v.I1? else v.I64? }

  /** The environment has every available field, and the right value unless it is tainted. */
  ghost predicate Tracks(env: Env, ip: nat, available: set<Field>, taint: set<Field>, value: Field -> Val) {
    forall f :: f in available ==>
      HasType(f, Look(env, In(f, ip))) && (f !in taint ==> Look(env, In(f, ip)) == value(f))
  }

  function TaintAfter(node: Node, slots: seq<StackSlot>, taint: set<Field>): set<Field> {
    (taint + Clobbers(node.op, slots)) - Defs(node)
  }

  ghost function Values(m: State, e: int, slots: seq<StackSlot>): Field -> Val {
    (f: Field) => FieldOf(m, e, slots, f)
  }

  lemma TrackedInputs(env: Env, ip: nat, available: set<Field>, taint: set<Field>, value: Field -> Val,
                      fields: set<Field>)
    requires Tracks(env, ip, available, taint, value) && fields <= available
    ensures Typed(env, ip, fields)
  {
  }

  /** The next block's phis pick up what the predecessor holds. */
  lemma PhisTakeEdge(nodes: Nodes, entry: nat, ip: nat, next: nat, nextAvailable: set<Field>, predecessors: seq<nat>,
                     env: Env, arguments: seq<Word>, nextBlock: Block, f: Field)
    requires PhisExact(nodes, entry, next, nextAvailable, predecessors, nextBlock.phis) && ip in predecessors &&
             f in nextAvailable
    ensures Look(Enter(env, arguments, nextBlock, BlockAt(ip)), In(f, next)) == Look(env, NameAfter(nodes, ip, f))
  {
    PhiTakesEdge(nodes, entry, next, f, predecessors, nextBlock.phis[In(f, next)], env, arguments, ip);
  }

  /** Values carried over an edge: outputs where defined, inputs elsewhere. */
  lemma Carry(ip: nat, next: nat, available: set<Field>, nextAvailable: set<Field>, defs: set<Field>,
              clobbers: set<Field>, taint: set<Field>, env: Env, ran: Env, entered: Env, before: Field -> Val,
              after: Field -> Val)
    requires Tracks(env, ip, available, taint, before) && nextAvailable <= available + defs
    requires forall f :: f in nextAvailable ==>
               Look(entered, In(f, next)) == if f in defs then Look(ran, Out(f, ip)) else Look(ran, In(f, ip))
    requires forall f :: f in defs ==> HasType(f, after(f)) && Look(ran, Out(f, ip)) == after(f)
    requires forall f :: f in available ==> Look(ran, In(f, ip)) == Look(env, In(f, ip))
    requires forall f :: f in available && f !in defs && f !in taint && f !in clobbers ==> after(f) == before(f)
    ensures Tracks(entered, next, nextAvailable, (taint + clobbers) - defs, after)
  {
  }

  /** Crossing one edge: run the block, then evaluate the next block's phis. */
  lemma EdgeStep(nodes: Nodes, entry: nat, ip: nat, next: nat, available: set<Field>, nextAvailable: set<Field>,
                 predecessors: seq<nat>, env: Env, arguments: seq<Word>, block: Block, nextBlock: Block,
                 taint: set<Field>, slots: seq<StackSlot>, before: Field -> Val, after: Field -> Val)
    requires ip in nodes && Emittable(nodes[ip]) && BlockExact(ip, nodes[ip], block)
    requires PhisExact(nodes, entry, next, nextAvailable, predecessors, nextBlock.phis) && ip in predecessors
    requires Tracks(env, ip, available, taint, before)
    requires Reads(nodes[ip]) <= available && nextAvailable <= available + Defs(nodes[ip])
    requires forall f :: f in Defs(nodes[ip]) ==>
               HasType(f, after(f)) &&
               after(f) == OutcomeValue(Exec(nodes[ip].op, RegsView(env, ip), SlotView(env, ip, nodes[ip])), f)
    requires forall f :: f in available - Defs(nodes[ip]) - taint - Clobbers(nodes[ip].op, slots) ==>
               after(f) == before(f)
    ensures Tracks(Enter(Run(block.body, env), arguments, nextBlock, BlockAt(ip)), next, nextAvailable,
                   TaintAfter(nodes[ip], slots, taint), after)
  {
    var ran := Run(block.body, env);
    var entered := Enter(ran, arguments, nextBlock, BlockAt(ip));
    var defs := Defs(nodes[ip]);
    TrackedInputs(env, ip, available, taint, before, Reads(nodes[ip]));
    assert KeepsOthers(ip, env, ran) && Computes(ip, nodes[ip], env, ran);
    forall f | f in nextAvailable
      ensures Look(entered, In(f, next)) == if f in defs then Look(ran, Out(f, ip)) else Look(ran, In(f, ip))
    {
      PhisTakeEdge(nodes, entry, ip, next, nextAvailable, predecessors, ran, arguments, nextBlock, f);
    }
    Carry(ip, next, available, nextAvailable, defs, Clobbers(nodes[ip].op, slots), taint, env, ran, entered, before,
      after);
  }

  /** At the entry the phis take the arguments. */
  lemma EntryTracks(nodes: Nodes, entry: nat, available: set<Field>, predecessors: seq<nat>, block: Block,
                    arguments: seq<Word>, m0: State, slots: seq<StackSlot>)
    requires PhisExact(nodes, entry, entry, available, predecessors, block.phis) && available <= INPUTS
    requires |arguments| == |ARGUMENTS| &&
             forall i :: 0 <= i < |ARGUMENTS| ==> arguments[i] == Get(m0.regs, ARGUMENTS[i])
    ensures Tracks(Enter(map[], arguments, block, Prologue), entry, available, {}, Values(m0, Get(m0.regs, RSP), slots))
  {
    forall f | f in available
      ensures Look(Enter(map[], arguments, block, Prologue), In(f, entry)) == Values(m0, Get(m0.regs, RSP), slots)(f)
      ensures f.RegisterField?
    {
      PhiTakesArgument(nodes, entry, f, predecessors, block.phis[In(f, entry)], map[], arguments);
    }
  }

  /** A stack operand read by the machine is the slot's value. */
  lemma OperandIsSlotValue(node: Node, m0: State, m: State, s: FrameState, slots: seq<StackSlot>)
    requires FrameHolds(m0, m, s) && OwnSlot(node, s, slots) && StackAccess(node.op).Some?
    ensures FieldOf(m, Get(m0.regs, RSP), slots, SlotField(node.slot.value)) == I64(OperandValue(node.op, m))
  {
    var a := StackAccess(node.op).value;
    OperandIsSlot(m0, m, s, a);
    LoadSameAddress(m.mem, OperandAddress(a, m.regs), Get(m0.regs, RSP) + slots[node.slot.value].offset, a.width);
  }

  /** Untainted reads give the lifted block the machine's inputs, hence the machine's outcome. */
  lemma SameOutcome(node: Node, ip: nat, env: Env, available: set<Field>, taint: set<Field>, m0: State, m: State,
                    s: FrameState, slots: seq<StackSlot>)
    requires Modelled(node.op) && !IsFrameOp(node.op) && !RejectedWithStackProof(node.op) && !node.op.Ret?
    requires FrameHolds(m0, m, s) && OwnSlot(node, s, slots)
    requires Tracks(env, ip, available, taint, Values(m, Get(m0.regs, RSP), slots))
    requires Reads(node) <= available && Reads(node) !! taint
    ensures Exec(node.op, RegsView(env, ip), SlotView(env, ip, node)) == Exec(node.op, m.regs, OperandValue(node.op, m))
  {
    var e: int := Get(m0.regs, RSP);
    TrackedInputs(env, ip, available, taint, Values(m, e, slots), Reads(node));
    forall r | r in EffectsOf(node.op).readRegisters && r != RSP && r != RBP
      ensures Get(RegsView(env, ip), r) == Get(m.regs, r)
    {
      ReadField(node, r);
      RegisterInput(env, ip, Reads(node), r);
    }
    if ReadsSlot(node.op) {
      OperandIsSlotValue(node, m0, m, s, slots);
      assert SlotField(node.slot.value) in Reads(node);
    }
    ExecReads(node.op, RegsView(env, ip), m.regs, SlotView(env, ip, node), OperandValue(node.op, m));
  }

  lemma ReadField(node: Node, r: Register)
    requires Modelled(node.op) && !IsFrameOp(node.op) && !node.op.Ret?
    requires r in EffectsOf(node.op).readRegisters && r != RSP && r != RBP
    ensures RegisterField(r) in Reads(node)
  {
  }

  /** One instruction in lock step. */
  lemma NodeStep(nodes: Nodes, entry: nat, ip: nat, next: nat, available: set<Field>, nextAvailable: set<Field>,
                 predecessors: seq<nat>, env: Env, arguments: seq<Word>, block: Block, nextBlock: Block,
                 taint: set<Field>, slots: seq<StackSlot>, m0: State, m: State, s: FrameState)
    requires ip in nodes && Emittable(nodes[ip]) && BlockExact(ip, nodes[ip], block) && !nodes[ip].op.Ret?
    requires PhisExact(nodes, entry, next, nextAvailable, predecessors, nextBlock.phis) && ip in predecessors
    requires FrameHolds(m0, m, s) && SlotsValid(slots) && OwnSlot(nodes[ip], s, slots) &&
             Transfer(nodes[ip].op, s, false).Some?
    requires forall f :: f in available ==> (f.SlotField? ==> f.index < |slots|)
    requires Tracks(env, ip, available, taint, Values(m, Get(m0.regs, RSP), slots))
    requires Reads(nodes[ip]) <= available && Reads(nodes[ip]) !! taint && nextAvailable <= available + Defs(nodes[ip])
    ensures Tracks(Enter(Run(block.body, env), arguments, nextBlock, BlockAt(ip)), next, nextAvailable,
                   TaintAfter(nodes[ip], slots, taint), Values(Effect(nodes[ip].op, m), Get(m0.regs, RSP), slots))
  {
    var node, e: int := nodes[ip], Get(m0.regs, RSP);
    var before, after := Values(m, e, slots), Values(Effect(node.op, m), e, slots);
    if IsFrameOp(node.op) {
      FrameValues(node, ip, env, available, m0, m, s, slots);
    } else {
      ScalarValues(node, ip, env, available, taint, m0, m, s, slots);
    }
    EdgeStep(nodes, entry, ip, next, available, nextAvailable, predecessors, env, arguments, block, nextBlock, taint,
      slots, before, after);
  }

  /** A frame instruction defines nothing and keeps what it does not clobber. */
  lemma FrameValues(node: Node, ip: nat, env: Env, available: set<Field>, m0: State, m: State, s: FrameState,
                    slots: seq<StackSlot>)
    requires Emittable(node) && IsFrameOp(node.op) && FrameHolds(m0, m, s) && SlotsValid(slots)
    requires OwnSlot(node, s, slots) && Transfer(node.op, s, false).Some?
    requires forall f :: f in available ==> (f.SlotField? ==> f.index < |slots|)
    ensures Defs(node) == {}
    ensures forall f :: f in available - Clobbers(node.op, slots) ==>
              FieldOf(Effect(node.op, m), Get(m0.regs, RSP), slots, f) == FieldOf(m, Get(m0.regs, RSP), slots, f)
  {
    forall f | f in available && f !in Clobbers(node.op, slots)
      ensures FieldOf(Effect(node.op, m), Get(m0.regs, RSP), slots, f) == FieldOf(m, Get(m0.regs, RSP), slots, f)
    {
      FrameEffect(node, m0, m, s, slots, f);
    }
  }

  /** A scalar instruction defines its outcome, with the field's type, and keeps the rest. */
  lemma ScalarValues(node: Node, ip: nat, env: Env, available: set<Field>, taint: set<Field>, m0: State, m: State,
                     s: FrameState, slots: seq<StackSlot>)
    requires Emittable(node) && !IsFrameOp(node.op) && !node.op.Ret? && FrameHolds(m0, m, s) && SlotsValid(slots)
    requires OwnSlot(node, s, slots) && Transfer(node.op, s, false).Some?
    requires forall f :: f in available ==> (f.SlotField? ==> f.index < |slots|)
    requires Tracks(env, ip, available, taint, Values(m, Get(m0.regs, RSP), slots))
    requires Reads(node) <= available && Reads(node) !! taint
    ensures forall f :: f in Defs(node) ==>
              HasType(f, FieldOf(Effect(node.op, m), Get(m0.regs, RSP), slots, f)) &&
              FieldOf(Effect(node.op, m), Get(m0.regs, RSP), slots, f) ==
                OutcomeValue(Exec(node.op, RegsView(env, ip), SlotView(env, ip, node)), f)
    ensures forall f :: f in available - Defs(node) ==>
              FieldOf(Effect(node.op, m), Get(m0.regs, RSP), slots, f) == FieldOf(m, Get(m0.regs, RSP), slots, f)
  {
    SameOutcome(node, ip, env, available, taint, m0, m, s, slots);
    forall f | f in available + Defs(node)
      ensures FieldOf(Effect(node.op, m), Get(m0.regs, RSP), slots, f) ==
              if f in Defs(node) then OutcomeValue(Exec(node.op, m.regs, OperandValue(node.op, m)), f)
              else FieldOf(m, Get(m0.regs, RSP), slots, f)
      ensures f in Defs(node) ==> HasType(f, FieldOf(Effect(node.op, m), Get(m0.regs, RSP), slots, f))
    {
      ScalarValue(node, m0, m, s, slots, f);
    }
  }

  lemma ScalarValue(node: Node, m0: State, m: State, s: FrameState, slots: seq<StackSlot>, f: Field)
    requires Emittable(node) && !IsFrameOp(node.op) && !node.op.Ret? && FrameHolds(m0, m, s) && SlotsValid(slots)
    requires OwnSlot(node, s, slots) && Transfer(node.op, s, false).Some?
    requires f !in Defs(node) && f.SlotField? ==> f.index < |slots|
    ensures FieldOf(Effect(node.op, m), Get(m0.regs, RSP), slots, f) ==
            if f in Defs(node) then OutcomeValue(Exec(node.op, m.regs, OperandValue(node.op, m)), f)
            else FieldOf(m, Get(m0.regs, RSP), slots, f)
    ensures f in Defs(node) ==> HasType(f, FieldOf(Effect(node.op, m), Get(m0.regs, RSP), slots, f))
  {
    if f in Defs(node) {
      if f.SlotField? {
        DefsWithSlots(node, slots, f);
      }
      DefinedType(node, m.regs, OperandValue(node.op, m), f);
    }
    ScalarEffect(node, m0, m, s, slots, f);
  }

  lemma DefsWithSlots(node: Node, slots: seq<StackSlot>, f: Field)
    requires node.slot.Some? ==> node.slot.value < |slots|
    requires f in Defs(node) && f.SlotField?
    ensures f.index < |slots|
  {
  }

  /** What an instruction defines has the field's type. */
  lemma DefinedType(node: Node, regs: Regs, operand: Word, f: Field)
    requires Modelled(node.op) && !IsFrameOp(node.op) && !node.op.Ret? &&
             (StackAccess(node.op).Some? ==> node.slot.Some?)
    ensures f in Defs(node) ==> HasType(f, OutcomeValue(Exec(node.op, regs, operand), f))
  {
  }
}
