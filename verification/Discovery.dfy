/**
 Recursive-descent recovery of one bounded function and its direct facts
 (crates/hydir-analysis, `analyze_function`).
 */
module Discovery {
  import opened Wrappers
  import opened Words
  import opened Paths

  datatype Access = NoMemAccess | Untouched | Read | CondRead | Write | CondWrite | ReadWrite | ReadCondWrite

  datatype Segment = FS | GS

  datatype BaseRegister = StackPointer | OtherRegister(number: nat)

  type Word32 = w: int | 0 <= w < 0x1_0000_0000

  /** The decoder's sizes are far below 4 GiB; zero stands for an unknown one. */
  type OperandSize = n: int | 0 <= n < 0x1_0000_0000

  /** The constant part of an address that is 64 or 32 bits wide. */
  datatype Displacement = Wide(wide: Word) | Narrow(narrow: Word32) {
    function Value(): Word {
      match this
      case Wide(d) => d
      case Narrow(d) => d
    }
  }

  /**
   One access of an instruction as decoding reports it, implicit ones included. A RIP-relative operand has
   no base and its target as displacement. `segment`: an override with a base of its own. `bitIndexed`: BT
   and its kin with a bit offset in a register.
   */
  datatype MemoryOperand = MemoryOperand(
    access: Access, base: Option<BaseRegister>, indexed: bool, displacement: Displacement, size: OperandSize,
    segment: Option<Segment>, bitIndexed: bool)

  datatype FlowControl = Next | ConditionalBranch | UnconditionalBranch | Call | IndirectCall | Return | OtherFlow

  /**
   What decoding yields. `ripAddress`: the target of an instruction with a RIP-relative operand. `isCall` tells
   CALL from other transfers of the same flow kind, such as SYSCALL.
   */
  datatype Instruction =
    | Invalid
    | Instruction(length: nat, privileged: bool, ripAddress: Option<Word>, memory: seq<MemoryOperand>,
                  flow: FlowControl, isCall: bool, target: Option<nat>)

  /** A bounded function: its entry and what decoding yields at each of its bytes. */
  datatype FunctionInput = FunctionInput(entry: nat, table: seq<Instruction>) {
    function End(): nat { entry + |table| }

    predicate Contains(a: nat) { entry <= a < End() }

    /** A valid instruction that takes bytes and stays inside the function. */
    predicate Decodes(a: nat) {
      Contains(a) && var i := table[a - entry]; i.Instruction? && a < a + i.length <= End()
    }

    function At(a: nat): Instruction
      requires Decodes(a)
    {
      table[a - entry]
    }

    function NextIp(a: nat): nat
      requires Decodes(a)
    {
      a + At(a).length
    }
  }

  datatype Region = Region(start: nat, end: nat, section: nat)

  datatype Reference = Reference(address: nat, section: nat)

  datatype DirectFacts = DirectFacts(
    read: set<Reference>, written: set<Reference>, callees: set<nat>, unknown: bool, complete: bool)

  /** Function indices by entry address. */
  type Entries = map<nat, nat>

  // ----- what one instruction contributes -----

  predicate Exempt(i: Instruction, m: MemoryOperand)
    requires i.Instruction?
  {
    (i.flow.Call? || i.flow.IndirectCall? || i.flow.Return?) && m.base == Some(StackPointer) && !m.indexed
  }

  predicate Counted(i: Instruction, m: MemoryOperand)
    requires i.Instruction?
  {
    !m.access.NoMemAccess? && !Exempt(i, m)
  }

  predicate IsRead(a: Access) { a.Read? || a.CondRead? || a.ReadWrite? || a.ReadCondWrite? }

  predicate IsWrite(a: Access) { a.Write? || a.CondWrite? || a.ReadWrite? || a.ReadCondWrite? }

  /** The first region holding the address. */
  function RegionOf(regions: seq<Region>, a: nat): (r: Option<Region>)
    ensures r.Some? ==> r.value in regions && r.value.start <= a < r.value.end
    ensures r.None? ==> forall region :: region in regions ==> !(region.start <= a < region.end)
  {
    if regions == [] then None
    else if regions[0].start <= a < regions[0].end then Some(regions[0])
    else RegionOf(regions[1..], a)
  }

  function ReferenceAt(regions: seq<Region>, a: nat): Option<Reference> {
    if RegionOf(regions, a).Some? then Some(Reference(a, RegionOf(regions, a).value.section)) else None
  }

  /** An access of this size at a stays inside the region of a. */
  predicate FitsRegion(regions: seq<Region>, a: nat, size: nat) {
    && RegionOf(regions, a).Some? && size > 0 && a + size < TWO64
    && a + size <= RegionOf(regions, a).value.end
  }

  /**
   The address the analysis takes an operand to have: the instruction's RIP-relative target, if the operand
   has no index and that displacement. Its base register, segment and bit offset are not looked at.
   */
  function AddressOf(i: Instruction, m: MemoryOperand): Option<Word>
    requires i.Instruction?
  {
    if i.ripAddress.Some? && !m.indexed && m.displacement.Value() == i.ripAddress.value then i.ripAddress else None
  }

  function ReferenceOf(regions: seq<Region>, i: Instruction, m: MemoryOperand): Option<Reference>
    requires i.Instruction?
  {
    if AddressOf(i, m).Some? then ReferenceAt(regions, AddressOf(i, m).value) else None
  }

  /** The operand stays inside the region of its known address. */
  predicate Bounded(regions: seq<Region>, i: Instruction, m: MemoryOperand)
    requires i.Instruction?
  {
    AddressOf(i, m).Some? && FitsRegion(regions, AddressOf(i, m).value, m.size)
  }

  predicate MayRead(regions: seq<Region>, i: Instruction, r: Reference) {
    i.Instruction? && exists m | m in i.memory ::
      Counted(i, m) && IsRead(m.access) && ReferenceOf(regions, i, m) == Some(r)
  }

  predicate MayWrite(regions: seq<Region>, i: Instruction, r: Reference) {
    i.Instruction? && exists m | m in i.memory ::
      Counted(i, m) && IsWrite(m.access) && ReferenceOf(regions, i, m) == Some(r)
  }

  /** A call the analysis follows, or a tail jump out of the function to a known entry. */
  function CalleeOf(f: FunctionInput, entries: Entries, a: nat): Option<nat>
    requires f.Decodes(a)
  {
    var i := f.At(a);
    if i.target.Some? && i.target.value in entries &&
       ((i.flow.Call? && i.isCall) || (i.flow.UnconditionalBranch? && !f.Contains(i.target.value)))
    then Some(entries[i.target.value])
    else None
  }

  /** Control flow the analysis cannot follow at all. */
  predicate DeadEnd(i: Instruction)
    requires i.Instruction?
  {
    i.flow.OtherFlow? || ((i.flow.ConditionalBranch? || i.flow.UnconditionalBranch?) && i.target.None?)
  }

  /** The instruction alone makes the effects unknown. */
  predicate Taints(f: FunctionInput, regions: seq<Region>, entries: Entries, a: nat)
    requires f.Decodes(a)
  {
    var i := f.At(a);
    || i.privileged
    || (exists m | m in i.memory :: Counted(i, m) && !Bounded(regions, i, m))
    || i.flow.IndirectCall?
    || (i.flow.Call? && CalleeOf(f, entries, a).None?)
    || DeadEnd(i)
  }

  function Successors(f: FunctionInput, entries: Entries, a: nat): seq<nat>
    requires f.Decodes(a)
  {
    var i := f.At(a);
    match i.flow
    case Next => [f.NextIp(a)]
    case ConditionalBranch => (if i.target.Some? then [i.target.value] else []) + [f.NextIp(a)]
    case UnconditionalBranch => if i.target.Some? && CalleeOf(f, entries, a).None? then [i.target.value] else []
    case Call => [f.NextIp(a)]
    case IndirectCall => [f.NextIp(a)]
    case Return => []
    case OtherFlow => []
  }

  // ----- the bounded function as a graph -----

  ghost function LocalFlow(f: FunctionInput, entries: Entries): nat -> set<nat> {
    (a: nat) => if f.Decodes(a) then set s | s in Successors(f, entries, a) else {}
  }

  ghost predicate Reached(f: FunctionInput, entries: Entries, a: nat) {
    Reachable(LocalFlow(f, entries), f.entry, a)
  }

  predicate Apart(f: FunctionInput, a: nat, b: nat)
    requires f.Decodes(a) && f.Decodes(b)
  {
    f.NextIp(a) <= b || f.NextIp(b) <= a
  }

  /** Everything reachable decodes, can be followed, and overlaps nothing else reachable. */
  ghost predicate Clean(f: FunctionInput, entries: Entries) {
    && f.End() < TWO64
    && (forall a :: Reached(f, entries, a) ==> f.Decodes(a) && !DeadEnd(f.At(a)))
    && (forall a, b :: Reached(f, entries, a) && Reached(f, entries, b) && a != b && f.Decodes(a) && f.Decodes(b) ==>
      Apart(f, a, b))
  }

  /** Every listed fact comes from a reachable instruction. */
  ghost predicate FactsSound(f: FunctionInput, regions: seq<Region>, entries: Entries, facts: DirectFacts) {
    && (forall r :: r in facts.read ==>
      exists a :: Reached(f, entries, a) && f.Decodes(a) && MayRead(regions, f.At(a), r))
    && (forall r :: r in facts.written ==>
      exists a :: Reached(f, entries, a) && f.Decodes(a) && MayWrite(regions, f.At(a), r))
    && (forall c :: c in facts.callees ==>
      exists a :: Reached(f, entries, a) && f.Decodes(a) && CalleeOf(f, entries, a) == Some(c))
  }

  /** The facts list everything the instruction at a contributes. */
  ghost predicate Recorded(f: FunctionInput, regions: seq<Region>, entries: Entries, facts: DirectFacts, a: nat)
    requires f.Decodes(a)
  {
    && (forall r :: MayRead(regions, f.At(a), r) ==> r in facts.read)
    && (forall r :: MayWrite(regions, f.At(a), r) ==> r in facts.written)
    && (CalleeOf(f, entries, a).Some? ==> CalleeOf(f, entries, a).value in facts.callees)
    && (Taints(f, regions, entries, a) ==> facts.unknown)
    && (DeadEnd(f.At(a)) ==> !facts.complete)
  }

  // ----- memory operands -----

  /** Adds one operand's contribution. */
  method AddOperand(i: Instruction, m: MemoryOperand, regions: seq<Region>, facts: DirectFacts) returns (r: DirectFacts)
    requires i.Instruction?
    ensures r.callees == facts.callees && r.complete == facts.complete
    ensures r.unknown <==> facts.unknown || (Counted(i, m) && !Bounded(regions, i, m))
    ensures r.read == facts.read + ReadBy(i, regions, m) && r.written == facts.written + WrittenBy(i, regions, m)
  {
    r := facts;
    if m.access.NoMemAccess? {
      return;
    }
    if (i.flow.Call? || i.flow.IndirectCall? || i.flow.Return?) && m.base == Some(StackPointer) && !m.indexed {
      return;
    }
    var address: Option<Word> := None;
    if i.ripAddress.Some? && !m.indexed && m.displacement.Value() == i.ripAddress.value {
      address := i.ripAddress;
    }
    if address.None? || RegionOf(regions, address.value).None? {
      return r.(unknown := true);
    }
    var region := RegionOf(regions, address.value).value;
    var reference := Reference(address.value, region.section);
    if m.size == 0 || address.value + m.size >= TWO64 || address.value + m.size > region.end {
      r := r.(unknown := true);
    }
    if m.access.Read? || m.access.CondRead? || m.access.ReadWrite? || m.access.ReadCondWrite? {
      r := r.(read := r.read + {reference});
    }
    if m.access.Write? || m.access.CondWrite? || m.access.ReadWrite? || m.access.ReadCondWrite? {
      r := r.(written := r.written + {reference});
    }
  }

  function ReadBy(i: Instruction, regions: seq<Region>, m: MemoryOperand): set<Reference>
    requires i.Instruction?
  {
    if Counted(i, m) && IsRead(m.access) && ReferenceOf(regions, i, m).Some? then {ReferenceOf(regions, i, m).value}
    else {}
  }

  function WrittenBy(i: Instruction, regions: seq<Region>, m: MemoryOperand): set<Reference>
    requires i.Instruction?
  {
    if Counted(i, m) && IsWrite(m.access) && ReferenceOf(regions, i, m).Some? then {ReferenceOf(regions, i, m).value}
    else {}
  }

  method AddMemory(i: Instruction, regions: seq<Region>, facts: DirectFacts) returns (r: DirectFacts)
    requires i.Instruction?
    ensures r.callees == facts.callees && r.complete == facts.complete
    ensures r.unknown <==> facts.unknown || exists m | m in i.memory :: Counted(i, m) && !Bounded(regions, i, m)
    ensures forall x :: x in r.read <==> x in facts.read || MayRead(regions, i, x)
    ensures forall x :: x in r.written <==> x in facts.written || MayWrite(regions, i, x)
  {
    r := facts;
    for k := 0 to |i.memory|
      invariant r.callees == facts.callees && r.complete == facts.complete
      invariant r.unknown <==>
                facts.unknown || exists m | m in i.memory[..k] :: Counted(i, m) && !Bounded(regions, i, m)
      invariant forall x :: x in r.read <==>
                x in facts.read || exists m | m in i.memory[..k] :: x in ReadBy(i, regions, m)
      invariant forall x :: x in r.written <==>
                x in facts.written || exists m | m in i.memory[..k] :: x in WrittenBy(i, regions, m)
    {
      assert i.memory[..k + 1] == i.memory[..k] + [i.memory[k]];
      r := AddOperand(i, i.memory[k], regions, r);
    }
    assert i.memory[..|i.memory|] == i.memory;
  }

  // ----- the interval index -----

  /** Decoded extents by start address. */
  type Extents = map<nat, nat>

  ghost predicate Disjoint(extents: Extents) {
    && (forall k :: k in extents ==> k < extents[k])
    && (forall j, k :: j in extents && k in extents && j < k ==> extents[j] <= k)
  }

  /** The greatest start not above the address. */
  method LastUpTo(extents: Extents, a: nat) returns (r: Option<nat>)
    ensures r.None? ==> forall k :: k in extents ==> k > a
    ensures r.Some? ==> r.value in extents && r.value <= a && forall k :: k in extents && k <= a ==> k <= r.value
  {
    r := None;
    var todo := extents.Keys;
    while todo != {}
      invariant todo <= extents.Keys
      invariant r.None? ==> forall k :: k in extents && k !in todo ==> k > a
      invariant r.Some? ==>
                r.value in extents && r.value <= a && forall k :: k in extents && k !in todo && k <= a ==> k <= r.value
      decreases todo
    {
      var k :| k in todo;
      todo := todo - {k};
      if k <= a && (r.None? || r.value < k) {
        r := Some(k);
      }
    }
  }

  /** The nearest-predecessor and range probe sees exactly the overlaps with all decoded instructions. */
  method Overlaps(extents: Extents, a: nat, next: nat) returns (r: bool)
    requires Disjoint(extents) && a < next
    ensures r <==> exists k :: k in extents && k < next && a < extents[k]
  {
    var previous := LastUpTo(extents, a);
    if previous.Some? && extents[previous.value] > a {
      return true;
    }
    r := exists k | k in extents :: a <= k < next;
    assert forall k :: k in extents && k <= a && a < extents[k] ==> previous.Some? && k == previous.value;
  }

  // ----- the worklist -----

  /** The state between iterations. */
  ghost predicate Explored(f: FunctionInput, regions: seq<Region>, entries: Entries, decoded: Extents,
                           pending: seq<nat>, facts: DirectFacts) {
    && Disjoint(decoded)
    && (forall a :: a in decoded ==> f.Decodes(a) && decoded[a] == f.NextIp(a) && Reached(f, entries, a))
    && (forall a :: a in pending ==> Reached(f, entries, a))
    && (forall a :: a in decoded ==> Recorded(f, regions, entries, facts, a))
    && FactsSound(f, regions, entries, facts)
    && (!facts.complete ==> facts.unknown && !Clean(f, entries))
    && (facts.complete ==> CompleteSoFar(f, entries, decoded, pending))
    && (facts.complete && facts.unknown ==> exists a :: a in decoded && Taints(f, regions, entries, a))
  }

  ghost predicate CompleteSoFar(f: FunctionInput, entries: Entries, decoded: Extents, pending: seq<nat>) {
    && (f.entry in decoded || f.entry in pending)
    && (forall a, s :: a in decoded && f.Decodes(a) && s in Successors(f, entries, a) ==> s in decoded || s in pending)
  }

  /** What one bounded function's direct facts mean. */
  ghost predicate FactsExact(f: FunctionInput, regions: seq<Region>, entries: Entries, facts: DirectFacts) {
    && (facts.complete <==> Clean(f, entries))
    && FactsSound(f, regions, entries, facts)
    && (facts.unknown <==>
      !facts.complete || exists a :: Reached(f, entries, a) && f.Decodes(a) && Taints(f, regions, entries, a))
    && (facts.complete ==>
      forall a :: Reached(f, entries, a) && f.Decodes(a) ==> Recorded(f, regions, entries, facts, a))
  }

  method Follow(f: FunctionInput, entries: Entries, a: nat, pending: seq<nat>, facts: DirectFacts)
    returns (queue: seq<nat>, r: DirectFacts)
    requires f.Decodes(a)
    ensures queue == pending + Successors(f, entries, a)
    ensures r.read == facts.read && r.written == facts.written
    ensures r.callees == facts.callees + (if CalleeOf(f, entries, a).Some? then {CalleeOf(f, entries, a).value} else {})
    ensures r.unknown <==>
              facts.unknown || f.At(a).flow.IndirectCall? || (f.At(a).flow.Call? && CalleeOf(f, entries, a).None?) ||
                DeadEnd(f.At(a))
    ensures r.complete <==> facts.complete && !DeadEnd(f.At(a))
  {
    var i, next := f.At(a), f.NextIp(a);
    queue, r := pending, facts;
    match i.flow {
      case Next =>
        queue := queue + [next];
      case ConditionalBranch =>
        if i.target.Some? {
          queue := queue + [i.target.value];
        } else {
          r := r.(unknown := true, complete := false);
        }
        queue := queue + [next];
      case UnconditionalBranch =>
        if i.target.Some? {
          if i.target.value in entries && (i.target.value < f.entry || i.target.value >= f.End()) {
            r := r.(callees := r.callees + {entries[i.target.value]});
          } else {
            queue := queue + [i.target.value];
          }
        } else {
          r := r.(unknown := true, complete := false);
        }
      case Call =>
        if i.isCall && i.target.Some? && i.target.value in entries {
          r := r.(callees := r.callees + {entries[i.target.value]});
        } else {
          r := r.(unknown := true);
        }
        queue := queue + [next];
      case IndirectCall =>
        r := r.(unknown := true);
        queue := queue + [next];
      case Return =>
      case OtherFlow =>
        r := r.(unknown := true, complete := false);
    }
  }

  /** The facts after the instruction at a are those before with its contribution. */
  ghost predicate Adds(f: FunctionInput, regions: seq<Region>, entries: Entries, a: nat, facts: DirectFacts,
                       after: DirectFacts)
    requires f.Decodes(a)
  {
    && (forall x :: x in after.read <==> x in facts.read || MayRead(regions, f.At(a), x))
    && (forall x :: x in after.written <==> x in facts.written || MayWrite(regions, f.At(a), x))
    && (forall c :: c in after.callees <==> c in facts.callees || CalleeOf(f, entries, a) == Some(c))
    && (after.unknown <==> facts.unknown || Taints(f, regions, entries, a))
    && (after.complete <==> facts.complete && !DeadEnd(f.At(a)))
  }

  lemma AddsSound(f: FunctionInput, regions: seq<Region>, entries: Entries, a: nat, facts: DirectFacts,
                  after: DirectFacts)
    requires f.Decodes(a) && Reached(f, entries, a) && FactsSound(f, regions, entries, facts) &&
             Adds(f, regions, entries, a, facts, after)
    ensures FactsSound(f, regions, entries, after)
  {
  }

  lemma AddsRecorded(f: FunctionInput, regions: seq<Region>, entries: Entries, a: nat, facts: DirectFacts,
                     after: DirectFacts, b: nat)
    requires f.Decodes(a) && f.Decodes(b) && Adds(f, regions, entries, a, facts, after)
    requires a == b || Recorded(f, regions, entries, facts, b)
    ensures Recorded(f, regions, entries, after, b)
  {
  }

  /** A newly decoded instruction that overlaps nothing keeps the state. */
  lemma DecodeStep(f: FunctionInput, regions: seq<Region>, entries: Entries, decoded: Extents, a: nat, rest: seq<nat>,
                   facts: DirectFacts, queue: seq<nat>, after: DirectFacts)
    requires Explored(f, regions, entries, decoded, [a] + rest, facts) && f.Decodes(a) && a !in decoded
    requires forall k :: k in decoded ==> f.NextIp(a) <= k || decoded[k] <= a
    requires queue == rest + Successors(f, entries, a) && Adds(f, regions, entries, a, facts, after)
    ensures Explored(f, regions, entries, decoded[a := f.NextIp(a)], queue, after)
  {
    assert a in [a] + rest;
    var grown := decoded[a := f.NextIp(a)];
    AddsSound(f, regions, entries, a, facts, after);
    forall b | b in grown
      ensures Recorded(f, regions, entries, after, b)
    {
      AddsRecorded(f, regions, entries, a, facts, after, b);
    }
    forall s | s in queue
      ensures Reached(f, entries, s)
    {
      if s in rest {
        assert s in [a] + rest;
      } else {
        ReachStep(LocalFlow(f, entries), f.entry, a, s);
      }
    }
    if after.complete {
      QueueComplete(f, entries, decoded, a, rest, queue);
    }
    if after.complete && after.unknown && facts.unknown {
      var b :| b in decoded && Taints(f, regions, entries, b);
      assert b in grown;
    }
  }

  lemma QueueComplete(f: FunctionInput, entries: Entries, decoded: Extents, a: nat, rest: seq<nat>, queue: seq<nat>)
    requires f.Decodes(a) && CompleteSoFar(f, entries, decoded, [a] + rest) && queue == rest + Successors(f, entries, a)
    ensures CompleteSoFar(f, entries, decoded[a := f.NextIp(a)], queue)
  {
    assert forall s :: s in [a] + rest ==> s == a || s in queue;
    assert forall s :: s in Successors(f, entries, a) ==> s in queue;
  }

  /** An address that does not decode, or overlaps a decoded instruction, makes the function unclean. */
  lemma RefuseStep(f: FunctionInput, regions: seq<Region>, entries: Entries, decoded: Extents, a: nat, rest: seq<nat>,
                   facts: DirectFacts)
    requires Explored(f, regions, entries, decoded, [a] + rest, facts) && a !in decoded
    requires !f.Decodes(a) || exists k :: k in decoded && k < f.NextIp(a) && a < decoded[k]
    ensures Explored(f, regions, entries, decoded, rest, facts.(unknown := true, complete := false))
  {
    assert a in [a] + rest;
    assert forall s :: s in rest ==> s in [a] + rest;
    if f.Decodes(a) {
      var k :| k in decoded && k < f.NextIp(a) && a < decoded[k];
      assert !Apart(f, k, a);
    }
  }

  lemma Finish(f: FunctionInput, regions: seq<Region>, entries: Entries, decoded: Extents, facts: DirectFacts)
    requires Explored(f, regions, entries, decoded, [], facts) && f.End() < TWO64
    ensures FactsExact(f, regions, entries, facts)
  {
    if facts.complete {
      assert Closed(LocalFlow(f, entries), decoded.Keys);
      forall a | Reached(f, entries, a)
        ensures a in decoded
      {
        ClosedHoldsReachable(LocalFlow(f, entries), decoded.Keys, f.entry, a);
      }
      forall a, b | a in decoded && b in decoded && a != b
        ensures Apart(f, a, b)
      {
        assert a < b ==> decoded[a] <= b;
        assert b < a ==> decoded[b] <= a;
      }
    }
  }

  method AddInstruction(f: FunctionInput, regions: seq<Region>, entries: Entries, a: nat, rest: seq<nat>,
                        facts: DirectFacts)
    returns (queue: seq<nat>, after: DirectFacts)
    requires f.Decodes(a)
    ensures queue == rest + Successors(f, entries, a) && Adds(f, regions, entries, a, facts, after)
  {
    after := facts;
    if f.At(a).privileged {
      after := after.(unknown := true);
    }
    after := AddMemory(f.At(a), regions, after);
    queue, after := Follow(f, entries, a, rest, after);
  }

  method AnalyzeFunction(f: FunctionInput, regions: seq<Region>, entries: Entries) returns (facts: DirectFacts)
    ensures FactsExact(f, regions, entries, facts)
  {
    facts := DirectFacts({}, {}, {}, false, true);
    if f.End() >= TWO64 {
      return facts.(complete := false, unknown := true);
    }
    var pending := [f.entry];
    var decoded: Extents := map[];
    ghost var addresses := set a | f.entry <= a < f.End() && f.Contains(a);
    ReachSelf(LocalFlow(f, entries), f.entry);
    while pending != []
      invariant Explored(f, regions, entries, decoded, pending, facts) && decoded.Keys <= addresses
      decreases addresses - decoded.Keys, |pending|
    {
      var a, rest := pending[0], pending[1..];
      assert pending == [a] + rest;
      if a in decoded {
        SkipStep(f, regions, entries, decoded, a, rest, facts);
        pending := rest;
        continue;
      }
      var refused := !f.Decodes(a);
      if !refused {
        refused := Overlaps(decoded, a, f.NextIp(a));
      }
      if refused {
        RefuseStep(f, regions, entries, decoded, a, rest, facts);
        pending, facts := rest, facts.(unknown := true, complete := false);
        continue;
      }
      ghost var before := facts;
      pending, facts := AddInstruction(f, regions, entries, a, rest, facts);
      DecodeStep(f, regions, entries, decoded, a, rest, before, pending, facts);
      decoded := decoded[a := f.NextIp(a)];
    }
    Finish(f, regions, entries, decoded, facts);
  }

  lemma SkipStep(f: FunctionInput, regions: seq<Region>, entries: Entries, decoded: Extents, a: nat, rest: seq<nat>,
                 facts: DirectFacts)
    requires Explored(f, regions, entries, decoded, [a] + rest, facts) && a in decoded
    ensures Explored(f, regions, entries, decoded, rest, facts)
  {
    assert forall s :: s in [a] + rest <==> s == a || s in rest;
  }
}
