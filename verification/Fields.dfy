/** The 26 scalar fields carried through the lifted function, and what each node defines, reads and kills. */
module Fields {
  import opened Semantics
  import opened CfgRecovery
  import opened Paths

  datatype Field = RegisterField(register: Gpr) | FlagField(flag: Flag) | SlotField(index: nat)

  const GPRS: set<Gpr> := {RAX, RBX, RDI, RSI, RDX, RCX, R8, R9, R10, R11, R12, R13, R14, R15}

  const ALL_FIELDS: set<Field> :=
    (set r | r in GPRS :: RegisterField(r)) + (set f | f in ALL_FLAGS :: FlagField(f)) + (set i: nat | i < 8 ::
      SlotField(i))

  /** The integer argument registers of the System V AMD64 ABI, in argument order. */
  const ARGUMENTS: seq<Gpr> := [RDI, RSI, RDX, RCX, R8, R9]

  const INPUTS: set<Field> := set r | r in ARGUMENTS :: RegisterField(r)

  function RegisterFields(registers: set<Register>): set<Field> {
    set r | r in registers && r != RSP && r != RBP :: RegisterField(r)
  }

  function FlagFields(flags: set<Flag>): set<Field> {
    set f | f in flags :: FlagField(f)
  }

  function OpDefs(op: Op): set<Field> {
    if IsFrameOp(op) then {} else RegisterFields(EffectsOf(op).writeRegisters) + FlagFields(EffectsOf(op).writeFlags)
  }

  function OpReads(op: Op): set<Field> {
    if IsFrameOp(op) then {}
    else if op.Ret? then {RegisterField(RAX)}
    else RegisterFields(EffectsOf(op).readRegisters) + FlagFields(EffectsOf(op).readFlags)
  }

  predicate WritesSlot(op: Op) { op.StoreStack64? || op.StoreStack32? || op.AluStack32? }

  predicate ReadsSlot(op: Op) {
    op.LoadStack64? || op.LoadStack32? || op.AluStack32? || op.CmpRegStack32? || op.CmpStack32?
  }

  function SlotFields(node: Node): set<Field> {
    match node.slot
    case Some(i) => {SlotField(i)}
    case None => {}
  }

  function Defs(node: Node): set<Field> {
    if node.op.CallDirect? then {RegisterField(RAX)}
    else OpDefs(node.op) + if WritesSlot(node.op) then SlotFields(node) else {}
  }

  function Reads(node: Node): set<Field> {
    if node.op.CallDirect? then INPUTS
    else OpReads(node.op) + if ReadsSlot(node.op) then SlotFields(node) else {}
  }

  /** Caller-saved fields a direct call clobbers. */
  function Kills(node: Node): set<Field> {
    if node.op.CallDirect? then
      (set r | r in {RAX, RDI, RSI, RDX, RCX, R8, R9, R10, R11} ::
        RegisterField(r)) + FlagFields(ALL_FLAGS) - {RegisterField(RAX)}
    else {}
  }

  type Nodes = map<nat, Node>

  function NodeEdges(nodes: Nodes): nat -> set<nat> {
    (ip: nat) => if ip in nodes then set s | s in nodes[ip].successors else {}
  }

  /** A path of the recovered graph from its entry. */
  ghost predicate FlowPath(nodes: Nodes, entry: nat, p: seq<nat>) {
    PathFrom(NodeEdges(nodes), entry, p)
  }

  ghost predicate ClosedGraph(nodes: Nodes, entry: nat) {
    && entry in nodes
    && forall ip, s :: ip in nodes && s in nodes[ip].successors ==> s in nodes
  }

  lemma PathInNodes(nodes: Nodes, entry: nat, p: seq<nat>)
    requires ClosedGraph(nodes, entry) && FlowPath(nodes, entry, p)
    ensures Last(p) in nodes
  {
    assert Closed(NodeEdges(nodes), nodes.Keys);
    ClosedHoldsPath(NodeEdges(nodes), nodes.Keys, entry, p);
  }
}
