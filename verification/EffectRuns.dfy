/**
 What a summary without unknown effects promises about interprocedural runs: where control can go, and
 where memory operands really access, segment bases and bit offsets included.
 */
module EffectRuns {
  import opened Wrappers
  import opened Words
  import opened Paths
  import opened Discovery
  import opened Components
  import opened EffectSummaries

  // ----- what the machine can do -----

  /** Where control is, and the return addresses of the calls still open. */
  datatype Control = Control(at: nat, stack: seq<nat>)

  /** One instruction. Transfers the analysis does not follow may go anywhere; a return pops its call. */
  ghost predicate Moves(image: nat -> Instruction, c: Control, d: Control) {
    var i := image(c.at);
    i.Instruction? && var next := c.at + i.length;
    match i.flow
    case Next => d == Control(next, c.stack)
    case ConditionalBranch => d == Control(next, c.stack) ||
      (d.stack == c.stack && (i.target.Some? ==> d.at == i.target.value))
    case UnconditionalBranch => d.stack == c.stack && (i.target.Some? ==> d.at == i.target.value)
    case Call => i.isCall && i.target.Some? ==> d == Control(i.target.value, c.stack + [next])
    case IndirectCall => true
    case Return => |c.stack| > 0 && d == Control(Last(c.stack), Front(c.stack))
    case OtherFlow => true
  }

  /** A run of the program from a function's entry, until some return leaves it. */
  ghost predicate IsRun(image: nat -> Instruction, entry: nat, run: seq<Control>) {
    && |run| > 0 && run[0] == Control(entry, [])
    && forall k :: 0 <= k < |run| - 1 ==> Moves(image, run[k], run[k + 1])
  }

  /** Decoding inside a function agrees with the program. */
  ghost predicate Consistent(inputs: seq<FunctionInput>, image: nat -> Instruction) {
    forall i, a :: 0 <= i < |inputs| && inputs[i].Decodes(a) ==> image(a) == inputs[i].At(a)
  }

  /** Control is at a reachable instruction of a function reachable from f. */
  ghost predicate Inside(inputs: seq<FunctionInput>, entries: Entries, direct: seq<DirectFacts>, f: nat, a: nat) {
    exists g: nat :: g < |inputs| && Reaches(CallGraph(direct), f, g) && Reached(inputs[g], entries, a)
  }

  ghost predicate ControlInside(inputs: seq<FunctionInput>, entries: Entries, direct: seq<DirectFacts>, f: nat,
                                c: Control) {
    Inside(inputs, entries, direct, f, c.at) && forall r :: r in c.stack ==> Inside(inputs, entries, direct, f, r)
  }

  ghost predicate Analyzed(inputs: seq<FunctionInput>, regions: seq<Region>, entries: Entries, direct: seq<DirectFacts>,
                           table: seq<Summary>) {
    AllEntriesListed(inputs, entries) && DirectExact(inputs, regions, entries, direct) && SummariesExact(direct, table)
  }

  /** Nothing reachable from f is unknown: its instructions are all recorded and none is tainted. */
  lemma KnownInstruction(inputs: seq<FunctionInput>, regions: seq<Region>, entries: Entries, direct: seq<DirectFacts>,
                         table: seq<Summary>, f: nat, g: nat, a: nat)
    requires Analyzed(inputs, regions, entries, direct, table) && f < |inputs| && !table[f].unknown
    requires g < |inputs| && Reaches(CallGraph(direct), f, g) && Reached(inputs[g], entries, a)
    ensures inputs[g].Decodes(a) && Recorded(inputs[g], regions, entries, direct[g], a)
    ensures !Taints(inputs[g], regions, entries, a)
  {
    assert !Has(table[f], Unbounded);
    assert !Has(Direct(direct[g]), Unbounded);
  }

  lemma CalleeInside(inputs: seq<FunctionInput>, entries: Entries, direct: seq<DirectFacts>, f: nat, g: nat, h: nat)
    requires g < |direct| && |direct| == |inputs| && Reaches(CallGraph(direct), f, g) && h in direct[g].callees &&
             h < |inputs|
    ensures Inside(inputs, entries, direct, f, inputs[h].entry)
  {
    ReachStep(Callees(CallGraph(direct)), f, g, h);
    ReachSelf(LocalFlow(inputs[h], entries), inputs[h].entry);
  }

  lemma SuccessorInside(inputs: seq<FunctionInput>, entries: Entries, direct: seq<DirectFacts>, f: nat, g: nat, a: nat,
                        s: nat)
    requires g < |inputs| && Reaches(CallGraph(direct), f, g) && Reached(inputs[g], entries, a)
    requires inputs[g].Decodes(a) && s in Successors(inputs[g], entries, a)
    ensures Inside(inputs, entries, direct, f, s)
  {
    ReachStep(LocalFlow(inputs[g], entries), inputs[g].entry, a, s);
  }

  /** Control stays among the reachable functions. */
  lemma MoveStaysInside(inputs: seq<FunctionInput>, regions: seq<Region>, entries: Entries, direct: seq<DirectFacts>,
                        table: seq<Summary>, image: nat -> Instruction, f: nat, c: Control, d: Control)
    requires Knows(inputs, regions, entries, direct, table, image, f)
    requires ControlInside(inputs, entries, direct, f, c) && Moves(image, c, d)
    ensures ControlInside(inputs, entries, direct, f, d)
  {
    var g: nat :| g < |inputs| && Reaches(CallGraph(direct), f, g) && Reached(inputs[g], entries, c.at);
    KnownInstruction(inputs, regions, entries, direct, table, f, g, c.at);
    var input, a := inputs[g], c.at;
    MoveTargets(input, regions, entries, image, c, d);
    forall s | s in Successors(input, entries, a)
      ensures Inside(inputs, entries, direct, f, s)
    {
      SuccessorInside(inputs, entries, direct, f, g, a, s);
    }
    if CalleeOf(input, entries, a).Some? {
      CalleeInside(inputs, entries, direct, f, g, CalleeOf(input, entries, a).value);
    }
    ghost var inside := (x: nat) => Inside(inputs, entries, direct, f, x);
    LandsInside(inside, Successors(input, entries, a), CalleeOf(input, entries, a).Some?, input.At(a).target,
      input.NextIp(a), c, d);
  }

  /** A move to a successor, to a callee or back to a return address lands where those lie. */
  lemma LandsInside(inside: nat -> bool, successors: seq<nat>, called: bool, target: Option<nat>, next: nat, c: Control,
                    d: Control)
    requires (forall r :: r in c.stack ==> inside(r)) && (forall s :: s in successors ==> inside(s))
    requires called ==> target.Some? && inside(target.value)
    requires Lands(successors, called, target, next, c, d)
    ensures inside(d.at) && forall r :: r in d.stack ==> inside(r)
  {
    if |c.stack| > 0 {
      assert c.stack == Front(c.stack) + [Last(c.stack)];
    }
  }

  ghost predicate Lands(successors: seq<nat>, called: bool, target: Option<nat>, next: nat, c: Control, d: Control) {
    || (d.at in successors && d.stack == c.stack)
    || (called && Some(d.at) == target && d.stack == c.stack)
    || (called && Some(d.at) == target && next in successors && d.stack == c.stack + [next])
    || (|c.stack| > 0 && d == Control(Last(c.stack), Front(c.stack)))
  }

  /** Where an untainted instruction can lead. */
  lemma MoveTargets(input: FunctionInput, regions: seq<Region>, entries: Entries, image: nat -> Instruction, c: Control,
                    d: Control)
    requires input.Decodes(c.at) && image(c.at) == input.At(c.at) && !Taints(input, regions, entries, c.at) &&
             Moves(image, c, d)
    ensures Lands(Successors(input, entries, c.at), CalleeOf(input, entries, c.at).Some?, input.At(c.at).target,
            input.NextIp(c.at), c, d)
  {
    UntaintedLands(input, entries, image, c, d);
  }

  /** Control flow alone makes the effects unknown. */
  predicate FlowTaints(input: FunctionInput, entries: Entries, a: nat)
    requires input.Decodes(a)
  {
    var i := input.At(a);
    i.flow.IndirectCall? || (i.flow.Call? && CalleeOf(input, entries, a).None?) || DeadEnd(i)
  }

  /** The machine may leave the instruction for a place the analysis does not follow. */
  ghost predicate Escapes(input: FunctionInput, entries: Entries, image: nat -> Instruction, a: nat)
    requires input.Decodes(a)
  {
    exists c: Control, d: Control :: c.at == a && Moves(image, c, d) &&
      !Lands(Successors(input, entries, a), CalleeOf(input, entries, a).Some?, input.At(a).target, input.NextIp(a), c,
        d)
  }

  lemma UntaintedLands(input: FunctionInput, entries: Entries, image: nat -> Instruction, c: Control, d: Control)
    requires input.Decodes(c.at) && image(c.at) == input.At(c.at) && !FlowTaints(input, entries, c.at)
    requires Moves(image, c, d)
    ensures Lands(Successors(input, entries, c.at), CalleeOf(input, entries, c.at).Some?, input.At(c.at).target,
                  input.NextIp(c.at), c, d)
  {
    var i := input.At(c.at);
    match i.flow {
      case Next => assert d.at == Successors(input, entries, c.at)[0];
      case ConditionalBranch =>
        assert d.at == Successors(input, entries, c.at)[0] || d.at == Successors(input, entries, c.at)[1];
      case UnconditionalBranch =>
        if CalleeOf(input, entries, c.at).None? {
          assert d.at == Successors(input, entries, c.at)[0];
        }
      case Call => assert input.NextIp(c.at) == Successors(input, entries, c.at)[0];
      case Return =>
      case _ =>
    }
  }

  lemma TaintEscapes(input: FunctionInput, entries: Entries, image: nat -> Instruction, a: nat)
    requires input.Decodes(a) && image(a) == input.At(a) && FlowTaints(input, entries, a)
    ensures Escapes(input, entries, image, a)
  {
    var i, next := input.At(a), input.NextIp(a);
    var c := Control(a, []);
    if i.flow.Call? && i.isCall && i.target.Some? {
      assert Moves(image, c, Control(i.target.value, [] + [next]));
    } else {
      var away: nat := next + (if i.target.Some? then i.target.value else 0) + 1;
      assert away != next && Some(away) != i.target;
      assert Moves(image, c, Control(away, []));
      assert away !in Successors(input, entries, a);
    }
  }

  /** The stack slot a call or return uses for its own return address. */
  predicate Bookkeeping(i: Instruction, m: MemoryOperand) {
    i.Instruction? && (i.flow == Call || i.flow == IndirectCall || i.flow == Return) &&
    m.base == Some(StackPointer) && !m.indexed
  }

  /** Region k is the first that holds x. */
  predicate FirstHolding(regions: seq<Region>, k: nat, x: nat) {
    && k < |regions| && regions[k].start <= x < regions[k].end
    && forall j | 0 <= j < k :: !(regions[j].start <= x < regions[j].end)
  }

  lemma {:induction false} RegionOfIsFirst(regions: seq<Region>, k: nat, x: nat)
    requires FirstHolding(regions, k, x)
    ensures RegionOf(regions, x) == Some(regions[k])
  {
    if k > 0 {
      assert !(regions[0].start <= x < regions[0].end);
      assert forall j :: 0 <= j < k - 1 ==> regions[1..][j] == regions[j + 1];
      RegionOfIsFirst(regions[1..], k - 1, x);
    }
  }

  lemma {:induction false} SomeFirst(regions: seq<Region>, x: nat)
    requires RegionOf(regions, x).Some?
    ensures exists k: nat :: FirstHolding(regions, k, x)
  {
    if regions[0].start <= x < regions[0].end {
      assert FirstHolding(regions, 0, x);
    } else {
      SomeFirst(regions[1..], x);
      var k: nat :| FirstHolding(regions[1..], k, x);
      assert forall j :: 0 < j <= k ==> regions[j] == regions[1..][j - 1];
      assert FirstHolding(regions, k + 1, x);
    }
  }

  /** An operand at the instruction's RIP-relative target, with all its bytes in the first region holding the target. */
  ghost predicate InKnownRegion(regions: seq<Region>, i: Instruction, m: MemoryOperand) {
    && i.Instruction? && !m.indexed && i.ripAddress == Some(m.displacement.Value()) && m.size > 0
    && exists k: nat :: FirstHolding(regions, k, m.displacement.Value()) &&
         m.displacement.Value() + m.size <= regions[k].end && m.displacement.Value() + m.size < TWO64
  }

  lemma BoundedExactly(regions: seq<Region>, i: Instruction, m: MemoryOperand)
    requires i.Instruction?
    ensures Bounded(regions, i, m) <==> InKnownRegion(regions, i, m)
  {
    var x := m.displacement.Value();
    if RegionOf(regions, x).Some? {
      SomeFirst(regions, x);
      var k: nat :| FirstHolding(regions, k, x);
      RegionOfIsFirst(regions, k, x);
    }
    forall k: nat | FirstHolding(regions, k, x)
      ensures RegionOf(regions, x) == Some(regions[k])
    {
      RegionOfIsFirst(regions, k, x);
    }
  }

  /**
   An instruction makes the effects unknown exactly when it is privileged, has an operand that is not wholly in
   a known region, or lets the machine escape the analysis.
   */
  lemma TaintsExactly(input: FunctionInput, regions: seq<Region>, entries: Entries, image: nat -> Instruction, a: nat)
    requires input.Decodes(a) && image(a) == input.At(a)
    ensures Taints(input, regions, entries, a) <==>
            || input.At(a).privileged
            || (exists m :: m in input.At(a).memory && !m.access.NoMemAccess? && !Bookkeeping(input.At(a), m) &&
                            !InKnownRegion(regions, input.At(a), m))
            || Escapes(input, entries, image, a)
  {
    forall m
      ensures Bounded(regions, input.At(a), m) <==> InKnownRegion(regions, input.At(a), m)
    {
      BoundedExactly(regions, input.At(a), m);
    }
    if FlowTaints(input, entries, a) {
      TaintEscapes(input, entries, image, a);
    } else {
      forall c: Control, d: Control | c.at == a && Moves(image, c, d)
        ensures Lands(Successors(input, entries, a), CalleeOf(input, entries, a).Some?, input.At(a).target,
                      input.NextIp(a), c, d)
      {
        UntaintedLands(input, entries, image, c, d);
      }
    }
  }

  /**
   The successors are what falls through, calls included as they come back, and the targets of direct branches
   that are no tail calls; a direct one is where the machine can go next.
   */
  lemma SuccessorsExactly(input: FunctionInput, entries: Entries, image: nat -> Instruction, a: nat, s: nat)
    requires input.Decodes(a) && image(a) == input.At(a)
    ensures s in Successors(input, entries, a) <==>
            match input.At(a).flow
            case Next => s == input.NextIp(a)
            case Call => s == input.NextIp(a)
            case IndirectCall => s == input.NextIp(a)
            case ConditionalBranch => s == input.NextIp(a) || input.At(a).target == Some(s)
            case UnconditionalBranch => input.At(a).target == Some(s) && !(s in entries && !input.Contains(s))
            case Return => false
            case OtherFlow => false
    ensures s in Successors(input, entries, a) && input.At(a).flow != Call && input.At(a).flow != IndirectCall ==>
              Moves(image, Control(a, []), Control(s, []))
  {
  }

  /**
   A callee is the function whose entry the instruction transfers to: by a near CALL, or by a jump that leaves
   its own function.
   */
  lemma CalleesAreEntered(input: FunctionInput, entries: Entries, image: nat -> Instruction, a: nat, g: nat)
    requires input.Decodes(a) && image(a) == input.At(a)
    ensures CalleeOf(input, entries, a) == Some(g) <==>
            exists d: Control :: Moves(image, Control(a, []), d) && d.at in entries && entries[d.at] == g &&
              input.At(a).target == Some(d.at) &&
              if input.At(a).flow == Call then input.At(a).isCall && d.stack == [input.NextIp(a)]
              else input.At(a).flow == UnconditionalBranch && !(input.entry <= d.at < input.End())
  {
    if CalleeOf(input, entries, a) == Some(g) {
      var stack := if input.At(a).flow.Call? then [] + [input.NextIp(a)] else [];
      var d := Control(input.At(a).target.value, stack);
      assert Moves(image, Control(a, []), d);
    }
  }

  /** A summary lists what a reachable function does itself. */
  lemma EffectListed(direct: seq<DirectFacts>, table: seq<Summary>, f: nat, g: nat, e: Effect)
    requires SummariesExact(direct, table) && f < |table| && g < |direct| && Reaches(CallGraph(direct), f, g) &&
             Has(Direct(direct[g]), e)
    ensures Has(table[f], e)
  {
  }

  // ----- where an operand accesses -----

  /** What an access depends on besides its encoding: segment bases, its base register and its bit offset. */
  datatype Context = Context(fs: Word, gs: Word, base: Word, bits: Word)

  function SegmentBase(m: MemoryOperand, c: Context): Word {
    match m.segment
    case None => 0
    case Some(FS) => c.fs
    case Some(GS) => c.gs
  }

  /** Bit offsets are signed, at the operand's width. */
  function BitModulus(size: nat): int {
    if size == 2 then 0x1_0000 else if size == 4 then TWO32 else TWO64
  }

  function BitOffset(size: nat, register: Word): int {
    var modulus := BitModulus(size);
    var low := register % modulus;
    if low < modulus / 2 then low else low - modulus
  }

  /** A bit offset is the register's low `size` bytes read as a two's-complement number. */
  lemma BitOffsetExactly(size: nat, register: Word)
    requires size == 2 || size == 4 || size == 8
    ensures var low := register % Pow2(8 * size);
            BitOffset(size, register) == if BitSet(low, 8 * size - 1) then low - Pow2(8 * size) else low
  {
    BitModulusExactly(size);
    UpperHalf(register % BitModulus(size), Pow2(8 * size - 1));
  }

  lemma BitModulusExactly(size: nat)
    requires size == 2 || size == 4 || size == 8
    ensures BitModulus(size) == Pow2(8 * size) == 2 * Pow2(8 * size - 1)
  {
    Pow2Facts();
    assert Pow2(8) == 0x100;
    assert Pow2(16) == 0x1_0000;
    assert Pow2(8 * size) == 2 * Pow2(8 * size - 1);
    assert 8 * size == (if size == 2 then 16 else if size == 4 then 32 else 64);
  }

  lemma UpperHalf(v: nat, h: nat)
    requires 0 < h && v < 2 * h
    ensures (v / h) % 2 == 1 <==> v >= h
  {
    DivModUnique(v, h, if v >= h then 1 else 0, if v >= h then v - h else v);
  }

  /** The element of the bit string that is accessed, counted from the operand's address. */
  function Element(m: MemoryOperand, c: Context): int
    requires m.size > 0
  {
    if m.bitIndexed then BitOffset(m.size, c.bits) / (8 * m.size) else 0
  }

  /** An address moved by an offset wraps at its width. */
  function Moved(d: Displacement, offset: int): Word {
    match d
    case Wide(d) => Wrap(d + offset)
    case Narrow(d) => Low32(d + offset)
  }

  /** Where an operand without index accesses. */
  function Accessed(m: MemoryOperand, c: Context): Word
    requires !m.indexed && m.size > 0
  {
    var base := if m.base.Some? then c.base else 0;
    Wrap(SegmentBase(m, c) + Moved(m.displacement, base + m.size * Element(m, c)))
  }

  // ----- loads and stores -----

  /** What an operand does to memory, at the address it accesses. */
  datatype Event = Load(at: nat) | Store(at: nat)

  /** Whether an access of this kind loads: surely, perhaps, or never. */
  datatype Chance = Always | Perhaps | Never

  function Loading(a: Access): Chance {
    match a
    case Read => Always
    case CondRead => Perhaps
    case ReadWrite => Always
    case ReadCondWrite => Always
    case Write => Never
    case CondWrite => Never
    case Untouched => Never
    case NoMemAccess => Never
  }

  function Storing(a: Access): Chance {
    match a
    case Write => Always
    case CondWrite => Perhaps
    case ReadWrite => Always
    case ReadCondWrite => Perhaps
    case Read => Never
    case CondRead => Never
    case Untouched => Never
    case NoMemAccess => Never
  }

  predicate Active(m: MemoryOperand) { !Loading(m.access).Never? || !Storing(m.access).Never? }

  /** An operand without index accesses its address; one with an index, or of unknown size, may be anywhere. */
  ghost predicate Places(m: MemoryOperand, c: Context, x: nat) {
    m.indexed || m.size == 0 || x == Accessed(m, c)
  }

  /** The loads and stores an operand may make in a context. */
  ghost predicate MayMake(m: MemoryOperand, c: Context, e: Event) {
    match e
    case Load(x) => !Loading(m.access).Never? && Places(m, c, x)
    case Store(x) => !Storing(m.access).Never? && Places(m, c, x)
  }

  // ----- what is listed -----

  /** The event's bytes lie in one region, and its address is listed as read or as written. */
  ghost predicate Lists(regions: seq<Region>, s: Summary, size: nat, e: Event) {
    && FitsRegion(regions, e.at, size)
    && match e
       case Load(x) => ReferenceAt(regions, x).value in s.read
       case Store(x) => ReferenceAt(regions, x).value in s.written
  }

  /** Every load and store the operand makes at x is listed. */
  ghost predicate ListedAt(regions: seq<Region>, s: Summary, m: MemoryOperand, x: nat) {
    && (!Loading(m.access).Never? ==> Lists(regions, s, m.size, Load(x)))
    && (!Storing(m.access).Never? ==> Lists(regions, s, m.size, Store(x)))
  }

  /** The analysis has an address for the operand, and that address is listed. */
  ghost predicate Reported(regions: seq<Region>, s: Summary, m: MemoryOperand) {
    !m.indexed && m.size > 0 && ListedAt(regions, s, m, m.displacement.Value())
  }

  /** Whatever the context, all loads and stores of the operand are listed. */
  ghost predicate AlwaysListed(regions: seq<Region>, s: Summary, m: MemoryOperand) {
    forall c: Context, e :: MayMake(m, c, e) ==> Lists(regions, s, m.size, e)
  }

  lemma AlwaysListedAt(regions: seq<Region>, s: Summary, m: MemoryOperand)
    requires !m.indexed && m.size > 0
    ensures AlwaysListed(regions, s, m) <==> forall c: Context :: ListedAt(regions, s, m, Accessed(m, c))
  {
    if AlwaysListed(regions, s, m) {
      forall c: Context
        ensures ListedAt(regions, s, m, Accessed(m, c))
      {
        assert MayMake(m, c, Load(Accessed(m, c))) <==> !Loading(m.access).Never?;
        assert MayMake(m, c, Store(Accessed(m, c))) <==> !Storing(m.access).Never?;
      }
    }
  }

  /** The first and last element a bit offset reaches. */
  function FirstElement(size: nat): int
    requires size > 0
  {
    -(BitModulus(size) / 2) / (8 * size)
  }

  function LastElement(size: nat): int
    requires size > 0
  {
    (BitModulus(size) / 2 - 1) / (8 * size)
  }

  /** Every element of the operand's bit string is listed. */
  ghost predicate SpanListed(regions: seq<Region>, s: Summary, m: MemoryOperand)
    requires m.size > 0
  {
    forall e :: FirstElement(m.size) <= e <= LastElement(m.size) ==>
      ListedAt(regions, s, m, Moved(m.displacement, m.size * e))
  }

  /** Every 32-bit address is listed. */
  ghost predicate WindowListed(regions: seq<Region>, s: Summary, m: MemoryOperand) {
    forall x: nat :: x < TWO32 ==> ListedAt(regions, s, m, x)
  }

  /**
   No segment override; a base register only in a 32-bit address, with all of the low 4 GiB listed; a register
   bit offset without base only over a bit string listed from end to end.
   */
  ghost predicate Settled(regions: seq<Region>, s: Summary, m: MemoryOperand) {
    && m.segment.None? && !m.indexed
    && (m.base.Some? ==> m.displacement.Narrow? && WindowListed(regions, s, m))
    && (m.base.None? && m.bitIndexed ==> m.size > 0 && SpanListed(regions, s, m))
  }

  /** Nothing moves the operand from its displacement. */
  predicate Fixed(m: MemoryOperand) {
    m.segment.None? && m.base.None? && !m.bitIndexed
  }

  /** A bit offset reaches exactly the elements of the span. */
  lemma ElementInSpan(size: nat, register: Word)
    requires size > 0
    ensures FirstElement(size) <= BitOffset(size, register) / (8 * size) <= LastElement(size)
  {
    var half := BitModulus(size) / 2;
    FloorMonotone(-half, BitOffset(size, register), 8 * size);
    FloorMonotone(BitOffset(size, register), half - 1, 8 * size);
  }

  lemma FloorMonotone(a: int, b: int, d: nat)
    requires a <= b && d > 0
    ensures a / d <= b / d
  {
    if a / d > b / d {
      Larger(d, b / d + 1, a / d);
    }
  }

  lemma Larger(d: nat, p: int, q: int)
    requires p <= q
    ensures d * p <= d * q
  {
  }

  /** Every element of the span is some register's. */
  lemma SpanHasOffset(size: nat, e: int) returns (register: Word)
    requires size > 0 && FirstElement(size) <= e <= LastElement(size)
    ensures BitOffset(size, register) / (8 * size) == e
  {
    var half, d := BitModulus(size) / 2, 8 * size;
    if e == FirstElement(size) {
      register := OffsetHasRegister(size, -half);
    } else {
      Larger(d, FirstElement(size) + 1, e);
      Larger(d, e, LastElement(size));
      FloorBelow(-half, d);
      FloorBelow(half - 1, d);
      register := OffsetHasRegister(size, d * e);
      MultipleFloors(d, e);
    }
  }

  lemma OffsetHasRegister(size: nat, offset: int) returns (register: Word)
    requires -(BitModulus(size) / 2) <= offset < BitModulus(size) / 2
    ensures BitOffset(size, register) == offset
  {
    register := if offset < 0 then offset + BitModulus(size) else offset;
  }

  lemma FloorBelow(a: int, d: nat)
    requires d > 0
    ensures d * (a / d) <= a < d * (a / d + 1)
  {
    assert a == d * (a / d) + a % d;
    assert d * (a / d + 1) == d * (a / d) + d;
  }

  lemma MultipleFloors(d: nat, e: int)
    requires d > 0
    ensures d * e / d == e
  {
    var q := d * e / d;
    FloorBelow(d * e, d);
    assert d * (e + 1) == d * e + d;
    if q < e {
      Larger(d, q + 1, e);
    } else if q > e {
      Larger(d, e + 1, q);
    }
  }

  /** Without a bit offset the access is at the displacement, moved by the base register. */
  lemma NoOffset(m: MemoryOperand, c: Context)
    requires !m.indexed && m.size > 0 && c.bits == 0
    ensures Accessed(m, c) == Wrap(SegmentBase(m, c) + Moved(m.displacement, if m.base.Some? then c.base else 0))
  {
    MultipleFloors(8 * m.size, 0);
  }

  /** No region bounds an access at the last byte of memory. */
  lemma LastByteUnlisted(regions: seq<Region>, s: Summary, m: MemoryOperand)
    requires m.size > 0 && Active(m)
    ensures !ListedAt(regions, s, m, TWO64 - 1)
  {
  }

  /** Some segment base puts the access at the last byte of memory. */
  lemma OverrideEscapes(regions: seq<Region>, s: Summary, m: MemoryOperand)
    requires !m.indexed && m.size > 0 && m.segment.Some? && Active(m)
    ensures !AlwaysListed(regions, s, m)
  {
    AlwaysListedAt(regions, s, m);
    var x := Moved(m.displacement, 0);
    var c := Context(TWO64 - 1 - x, TWO64 - 1 - x, 0, 0);
    NoOffset(m, c);
    WrapSmall(TWO64 - 1);
    assert Accessed(m, c) == TWO64 - 1;
    LastByteUnlisted(regions, s, m);
  }

  /** Some value of a 64-bit base register does so too. */
  lemma BaseEscapes(regions: seq<Region>, s: Summary, m: MemoryOperand)
    requires !m.indexed && m.size > 0 && m.segment.None? && m.base.Some? && m.displacement.Wide? && Active(m)
    ensures !AlwaysListed(regions, s, m)
  {
    AlwaysListedAt(regions, s, m);
    var c := Context(0, 0, TWO64 - 1 - m.displacement.wide, 0);
    NoOffset(m, c);
    WrapSmall(TWO64 - 1);
    assert Accessed(m, c) == TWO64 - 1;
    LastByteUnlisted(regions, s, m);
  }

  /** A base register in a 32-bit address reaches exactly the low 4 GiB. */
  lemma WindowReached(regions: seq<Region>, s: Summary, m: MemoryOperand)
    requires !m.indexed && m.size > 0 && m.segment.None? && m.base.Some? && m.displacement.Narrow?
    ensures AlwaysListed(regions, s, m) <==> WindowListed(regions, s, m)
  {
    AlwaysListedAt(regions, s, m);
    if WindowListed(regions, s, m) {
      forall c: Context
        ensures ListedAt(regions, s, m, Accessed(m, c))
      {
        StaysLow(m, c);
      }
    }
    if AlwaysListed(regions, s, m) {
      forall x: nat | x < TWO32
        ensures ListedAt(regions, s, m, x)
      {
        var c := WindowContext(m, x);
        assert ListedAt(regions, s, m, Accessed(m, c));
      }
    }
  }

  lemma WindowContext(m: MemoryOperand, x: nat) returns (c: Context)
    requires !m.indexed && m.size > 0 && m.segment.None? && m.base.Some? && m.displacement.Narrow? && x < TWO32
    ensures Accessed(m, c) == x
  {
    var d := m.displacement.narrow;
    c := Context(0, 0, if d <= x then x - d else x - d + TWO32, 0);
    NoOffset(m, c);
    WrapSmall(x);
  }

  lemma StaysLow(m: MemoryOperand, c: Context)
    requires !m.indexed && m.size > 0 && m.segment.None? && m.displacement.Narrow?
    ensures Accessed(m, c) < TWO32
  {
    WrapSmall(Moved(m.displacement, (if m.base.Some? then c.base else 0) + m.size * Element(m, c)));
  }

  /** A bit offset without base reaches exactly the elements of its bit string. */
  lemma SpanReached(regions: seq<Region>, s: Summary, m: MemoryOperand)
    requires !m.indexed && m.size > 0 && m.segment.None? && m.base.None? && m.bitIndexed
    ensures AlwaysListed(regions, s, m) <==> SpanListed(regions, s, m)
  {
    AlwaysListedAt(regions, s, m);
    if SpanListed(regions, s, m) {
      forall c: Context
        ensures ListedAt(regions, s, m, Accessed(m, c))
      {
        ElementInSpan(m.size, c.bits);
        WrapSmall(Moved(m.displacement, m.size * Element(m, c)));
      }
    }
    if AlwaysListed(regions, s, m) {
      forall e | FirstElement(m.size) <= e <= LastElement(m.size)
        ensures ListedAt(regions, s, m, Moved(m.displacement, m.size * e))
      {
        var register := SpanHasOffset(m.size, e);
        var c := Context(0, 0, 0, register);
        WrapSmall(Moved(m.displacement, m.size * e));
        assert ListedAt(regions, s, m, Accessed(m, c));
      }
    }
  }

  lemma FixedStays(m: MemoryOperand, c: Context)
    requires !m.indexed && m.size > 0 && Fixed(m)
    ensures Accessed(m, c) == m.displacement.Value()
  {
    WrapSmall(m.displacement.Value());
  }

  /** Of the operands that load or store, exactly the settled ones always do so at listed addresses. */
  lemma AlwaysListedExactly(regions: seq<Region>, s: Summary, m: MemoryOperand)
    requires Reported(regions, s, m) && Active(m)
    ensures AlwaysListed(regions, s, m) <==> Settled(regions, s, m)
  {
    AlwaysListedAt(regions, s, m);
    if m.segment.Some? {
      OverrideEscapes(regions, s, m);
    } else if m.base.Some? {
      if m.displacement.Wide? {
        BaseEscapes(regions, s, m);
      } else {
        WindowReached(regions, s, m);
      }
    } else if m.bitIndexed {
      SpanReached(regions, s, m);
    } else {
      forall c: Context
        ensures ListedAt(regions, s, m, Accessed(m, c))
      {
        FixedStays(m, c);
      }
    }
  }

  /** Exactly the fixed operands always access their displacement. */
  lemma AccessedAsReportedExactly(regions: seq<Region>, s: Summary, m: MemoryOperand)
    requires Reported(regions, s, m)
    ensures (forall c: Context :: Accessed(m, c) == m.displacement.Value()) <==> Fixed(m)
  {
    if Fixed(m) {
      forall c: Context
        ensures Accessed(m, c) == m.displacement.Value()
      {
        FixedStays(m, c);
      }
    } else {
      var c := Strayed(m);
    }
  }

  /** A context that moves an operand which is not fixed. */
  lemma Strayed(m: MemoryOperand) returns (c: Context)
    requires !m.indexed && m.size > 0 && !Fixed(m)
    ensures Accessed(m, c) != m.displacement.Value()
  {
    if m.segment.Some? {
      c := Context(1, 1, 0, 0);
      NoOffset(m, c);
    } else if m.base.Some? {
      c := Context(0, 0, 1, 0);
      NoOffset(m, c);
      MovedAway(m.displacement, 1);
      WrapSmall(Moved(m.displacement, 1));
    } else {
      c := Context(0, 0, 0, TWO64 - 1);
      assert BitOffset(m.size, c.bits) == -1;
      FloorOfMinusOne(8 * m.size);
      assert m.size * Element(m, c) == 0 - m.size;
      MovedAway(m.displacement, 0 - m.size);
      WrapSmall(Moved(m.displacement, 0 - m.size));
    }
  }

  lemma MovedAway(d: Displacement, offset: int)
    requires offset != 0 && -TWO32 < offset < TWO32
    ensures Moved(d, offset) != d.Value()
  {
  }

  lemma FloorOfMinusOne(d: nat)
    requires d > 0
    ensures -1 / d == -1
  {
  }

  // ----- all paths, all runs -----

  /** The operands of the instruction at an address that load or store, return addresses aside. */
  ghost predicate OperandAt(image: nat -> Instruction, a: nat, m: MemoryOperand) {
    image(a).Instruction? && m in image(a).memory && !Bookkeeping(image(a), m) && Active(m)
  }

  ghost predicate Knows(inputs: seq<FunctionInput>, regions: seq<Region>, entries: Entries, direct: seq<DirectFacts>,
                        table: seq<Summary>, image: nat -> Instruction, f: nat) {
    Analyzed(inputs, regions, entries, direct, table) && Consistent(inputs, image) && f < |inputs| && !table[f].unknown
  }

  /**
   With no unknown effects every reachable operand is listed where the decoder reports it.
   */
  lemma OperandsReported(inputs: seq<FunctionInput>, regions: seq<Region>, entries: Entries, direct: seq<DirectFacts>,
                         table: seq<Summary>, image: nat -> Instruction, f: nat, a: nat)
    requires Knows(inputs, regions, entries, direct, table, image, f) && Inside(inputs, entries, direct, f, a)
    ensures image(a).Instruction?
    ensures forall m :: OperandAt(image, a, m) ==> Reported(regions, table[f], m)
  {
    var g := KnownAt(inputs, regions, entries, direct, table, image, f, a);
    forall m | OperandAt(image, a, m)
      ensures Reported(regions, table[f], m)
    {
      OperandReported(inputs, regions, entries, direct, table, image, f, g, a, m);
    }
  }

  /** The function an instruction on a path belongs to: it decodes there, and nothing about it is unknown. */
  lemma KnownAt(inputs: seq<FunctionInput>, regions: seq<Region>, entries: Entries, direct: seq<DirectFacts>,
                table: seq<Summary>, image: nat -> Instruction, f: nat, a: nat)
    returns (g: nat)
    requires Knows(inputs, regions, entries, direct, table, image, f) && Inside(inputs, entries, direct, f, a)
    ensures g < |inputs| == |direct| && Reaches(CallGraph(direct), f, g) && inputs[g].Decodes(a)
    ensures image(a) == inputs[g].At(a)
    ensures Recorded(inputs[g], regions, entries, direct[g], a) && !Taints(inputs[g], regions, entries, a)
  {
    g :| g < |inputs| && Reaches(CallGraph(direct), f, g) && Reached(inputs[g], entries, a);
    KnownInstruction(inputs, regions, entries, direct, table, f, g, a);
  }

  lemma OperandReported(inputs: seq<FunctionInput>, regions: seq<Region>, entries: Entries, direct: seq<DirectFacts>,
                        table: seq<Summary>, image: nat -> Instruction, f: nat, g: nat, a: nat, m: MemoryOperand)
    requires Knows(inputs, regions, entries, direct, table, image, f) && OperandAt(image, a, m)
    requires g < |inputs| && Reaches(CallGraph(direct), f, g) && inputs[g].Decodes(a)
    requires Recorded(inputs[g], regions, entries, direct[g], a) && !Taints(inputs[g], regions, entries, a)
    ensures Reported(regions, table[f], m)
  {
    assert image(a) == inputs[g].At(a);
    EventKinds(m);
    BoundedOperand(regions, image(a), m);
    var r := ReferenceOf(regions, image(a), m).value;
    if IsRead(m.access) {
      EffectListed(direct, table, f, g, MayReadAt(r));
    }
    if IsWrite(m.access) {
      EffectListed(direct, table, f, g, MayWriteAt(r));
    }
  }

  /** The analysis reads an access as a load, or a store, exactly when it may make one. */
  lemma EventKinds(m: MemoryOperand)
    ensures IsRead(m.access) <==> !Loading(m.access).Never?
    ensures IsWrite(m.access) <==> !Storing(m.access).Never?
  {
  }

  /** A bounded operand is at its displacement, as far as the analysis knows. */
  lemma BoundedOperand(regions: seq<Region>, i: Instruction, m: MemoryOperand)
    requires i.Instruction? && m in i.memory && Counted(i, m) && Bounded(regions, i, m)
    ensures !m.indexed && FitsRegion(regions, m.displacement.Value(), m.size)
    ensures ReferenceOf(regions, i, m).Some?
    ensures ReferenceOf(regions, i, m) == ReferenceAt(regions, m.displacement.Value())
    ensures IsRead(m.access) ==> MayRead(regions, i, ReferenceOf(regions, i, m).value)
    ensures IsWrite(m.access) ==> MayWrite(regions, i, ReferenceOf(regions, i, m).value)
  {
  }

  /**
   Effect soundness, exactly: if f has no unknown effects, then every load and store on every path through
   the functions it reaches, in every context, is inside a region and listed - loads as read, stores as
   written - if and only if every operand that makes one is settled.
   */
  lemma PathsAreListedExactly(inputs: seq<FunctionInput>, regions: seq<Region>, entries: Entries,
                              direct: seq<DirectFacts>, table: seq<Summary>, image: nat -> Instruction, f: nat)
    requires Knows(inputs, regions, entries, direct, table, image, f)
    ensures
      (forall a, m, c, e :: Inside(inputs, entries, direct, f, a) && OperandAt(image, a, m) && MayMake(m, c, e) ==>
        Lists(regions, table[f], m.size, e)) <==>
      (forall a, m :: Inside(inputs, entries, direct, f, a) && OperandAt(image, a, m) ==> Settled(regions, table[f], m))
  {
    forall a, m | Inside(inputs, entries, direct, f, a) && OperandAt(image, a, m)
      ensures AlwaysListed(regions, table[f], m) <==> Settled(regions, table[f], m)
    {
      OperandsReported(inputs, regions, entries, direct, table, image, f, a);
      AlwaysListedExactly(regions, table[f], m);
    }
  }

  /**
   Every load and store on these paths is where its operand is reported, and listed there, if and only if no
   operand there has a segment override, a base register or a register bit offset.
   */
  lemma PathsAreAsReportedExactly(inputs: seq<FunctionInput>, regions: seq<Region>, entries: Entries,
                                  direct: seq<DirectFacts>, table: seq<Summary>, image: nat -> Instruction, f: nat)
    requires Knows(inputs, regions, entries, direct, table, image, f)
    ensures
      (forall a, m, c, e :: Inside(inputs, entries, direct, f, a) && OperandAt(image, a, m) && MayMake(m, c, e) ==>
        e.at == m.displacement.Value() && Lists(regions, table[f], m.size, e)) <==>
      (forall a, m :: Inside(inputs, entries, direct, f, a) && OperandAt(image, a, m) ==> Fixed(m))
  {
    forall a, m | Inside(inputs, entries, direct, f, a) && OperandAt(image, a, m)
      ensures AlwaysAsReported(regions, table[f], m) <==> Fixed(m)
    {
      OperandsReported(inputs, regions, entries, direct, table, image, f, a);
      AsReportedExactly(regions, table[f], m);
    }
  }

  /** Whatever the context, all loads and stores of the operand are at its reported address, and listed. */
  ghost predicate AlwaysAsReported(regions: seq<Region>, s: Summary, m: MemoryOperand) {
    forall c: Context, e :: MayMake(m, c, e) ==> e.at == m.displacement.Value() && Lists(regions, s, m.size, e)
  }

  lemma AsReportedExactly(regions: seq<Region>, s: Summary, m: MemoryOperand)
    requires Reported(regions, s, m) && Active(m)
    ensures AlwaysAsReported(regions, s, m) <==> Fixed(m)
  {
    AccessedAsReportedExactly(regions, s, m);
    if AlwaysAsReported(regions, s, m) {
      forall c: Context
        ensures Accessed(m, c) == m.displacement.Value()
      {
        assert MayMake(m, c, Load(Accessed(m, c))) || MayMake(m, c, Store(Accessed(m, c)));
      }
    }
  }

  /** The operand's own displacement is where it accesses in some context. */
  lemma AccessesDisplacement(m: MemoryOperand) returns (c: Context)
    requires !m.indexed && m.size > 0
    ensures Accessed(m, c) == m.displacement.Value()
  {
    c := Context(0, 0, 0, 0);
    NoOffset(m, c);
    WrapSmall(m.displacement.Value());
  }

  /** Some operand met on a path from f may make this event. */
  ghost predicate Makes(inputs: seq<FunctionInput>, entries: Entries, direct: seq<DirectFacts>,
                        image: nat -> Instruction, f: nat, e: Event) {
    exists a, m, c :: Inside(inputs, entries, direct, f, a) && OperandAt(image, a, m) && MayMake(m, c, e)
  }

  /** Each address listed as read is loaded, and each listed as written stored, by some operand in some context. */
  lemma ListedIsMade(inputs: seq<FunctionInput>, regions: seq<Region>, entries: Entries, direct: seq<DirectFacts>,
                     table: seq<Summary>, image: nat -> Instruction, f: nat, r: Reference)
    requires Knows(inputs, regions, entries, direct, table, image, f)
    ensures r in table[f].read ==> Makes(inputs, entries, direct, image, f, Load(r.address))
    ensures r in table[f].written ==> Makes(inputs, entries, direct, image, f, Store(r.address))
  {
    if r in table[f].read {
      var g, a := ReadCause(inputs, regions, entries, direct, table, f, r);
      ReadIsMade(inputs, regions, entries, direct, table, image, f, g, a, r);
    }
    if r in table[f].written {
      var g, a := WriteCause(inputs, regions, entries, direct, table, f, r);
      WriteIsMade(inputs, regions, entries, direct, table, image, f, g, a, r);
    }
  }

  /** What is listed was caused by a reachable function. */
  lemma CauseOf(direct: seq<DirectFacts>, table: seq<Summary>, f: nat, e: Effect) returns (g: nat)
    requires SummariesExact(direct, table) && f < |table| && Has(table[f], e)
    ensures g < |direct| && Reaches(CallGraph(direct), f, g) && Has(Direct(direct[g]), e)
  {
    assert Causes(direct, f, e);
    g :| g < |direct| && Reaches(CallGraph(direct), f, g) && Has(Direct(direct[g]), e);
  }

  lemma ReadCause(inputs: seq<FunctionInput>, regions: seq<Region>, entries: Entries, direct: seq<DirectFacts>,
                  table: seq<Summary>, f: nat, r: Reference)
    returns (g: nat, a: nat)
    requires Analyzed(inputs, regions, entries, direct, table) && f < |inputs| && r in table[f].read
    ensures g < |inputs| && Reaches(CallGraph(direct), f, g) && Reached(inputs[g], entries, a)
    ensures inputs[g].Decodes(a) && MayRead(regions, inputs[g].At(a), r)
  {
    assert Has(table[f], MayReadAt(r));
    g := CauseOf(direct, table, f, MayReadAt(r));
    assert r in direct[g].read && FactsSound(inputs[g], regions, entries, direct[g]);
    a :| Reached(inputs[g], entries, a) && inputs[g].Decodes(a) && MayRead(regions, inputs[g].At(a), r);
  }

  lemma WriteCause(inputs: seq<FunctionInput>, regions: seq<Region>, entries: Entries, direct: seq<DirectFacts>,
                   table: seq<Summary>, f: nat, r: Reference)
    returns (g: nat, a: nat)
    requires Analyzed(inputs, regions, entries, direct, table) && f < |inputs| && r in table[f].written
    ensures g < |inputs| && Reaches(CallGraph(direct), f, g) && Reached(inputs[g], entries, a)
    ensures inputs[g].Decodes(a) && MayWrite(regions, inputs[g].At(a), r)
  {
    assert Has(table[f], MayWriteAt(r));
    g := CauseOf(direct, table, f, MayWriteAt(r));
    assert r in direct[g].written && FactsSound(inputs[g], regions, entries, direct[g]);
    a :| Reached(inputs[g], entries, a) && inputs[g].Decodes(a) && MayWrite(regions, inputs[g].At(a), r);
  }

  /** An operand the analysis counts with a reference is one that loads or stores there. */
  lemma OperandMakes(regions: seq<Region>, image: nat -> Instruction, a: nat, m: MemoryOperand, r: Reference)
    returns (c: Context)
    requires image(a).Instruction? && m in image(a).memory && Counted(image(a), m)
    requires ReferenceOf(regions, image(a), m) == Some(r)
    ensures IsRead(m.access) ==> OperandAt(image, a, m) && MayMake(m, c, Load(r.address))
    ensures IsWrite(m.access) ==> OperandAt(image, a, m) && MayMake(m, c, Store(r.address))
  {
    EventKinds(m);
    c := Context(0, 0, 0, 0);
    if m.size > 0 {
      c := AccessesDisplacement(m);
    }
  }

  lemma ReadIsMade(inputs: seq<FunctionInput>, regions: seq<Region>, entries: Entries, direct: seq<DirectFacts>,
                   table: seq<Summary>, image: nat -> Instruction, f: nat, g: nat, a: nat, r: Reference)
    requires Knows(inputs, regions, entries, direct, table, image, f)
    requires g < |inputs| && Reaches(CallGraph(direct), f, g) && Reached(inputs[g], entries, a)
    requires inputs[g].Decodes(a) && MayRead(regions, inputs[g].At(a), r)
    ensures Makes(inputs, entries, direct, image, f, Load(r.address))
  {
    var i := inputs[g].At(a);
    var m :| m in i.memory && Counted(i, m) && IsRead(m.access) && ReferenceOf(regions, i, m) == Some(r);
    var c := OperandMakes(regions, image, a, m, r);
    assert Inside(inputs, entries, direct, f, a);
  }

  lemma WriteIsMade(inputs: seq<FunctionInput>, regions: seq<Region>, entries: Entries, direct: seq<DirectFacts>,
                    table: seq<Summary>, image: nat -> Instruction, f: nat, g: nat, a: nat, r: Reference)
    requires Knows(inputs, regions, entries, direct, table, image, f)
    requires g < |inputs| && Reaches(CallGraph(direct), f, g) && Reached(inputs[g], entries, a)
    requires inputs[g].Decodes(a) && MayWrite(regions, inputs[g].At(a), r)
    ensures Makes(inputs, entries, direct, image, f, Store(r.address))
  {
    var i := inputs[g].At(a);
    var m :| m in i.memory && Counted(i, m) && IsWrite(m.access) && ReferenceOf(regions, i, m) == Some(r);
    var c := OperandMakes(regions, image, a, m, r);
    assert Inside(inputs, entries, direct, f, a);
  }

  /** Every run stays among the reachable functions. */
  lemma {:induction false} RunsStayInside(inputs: seq<FunctionInput>, regions: seq<Region>, entries: Entries,
                                          direct: seq<DirectFacts>, table: seq<Summary>, image: nat -> Instruction,
                                          f: nat, run: seq<Control>)
    requires Knows(inputs, regions, entries, direct, table, image, f) && IsRun(image, inputs[f].entry, run)
    ensures ControlInside(inputs, entries, direct, f, Last(run))
    decreases |run|
  {
    if |run| == 1 {
      ReachSelf(Callees(CallGraph(direct)), f);
      ReachSelf(LocalFlow(inputs[f], entries), inputs[f].entry);
    } else {
      RunsStayInside(inputs, regions, entries, direct, table, image, f, Front(run));
      assert Moves(image, run[|run| - 2], run[|run| - 2 + 1]);
      MoveStaysInside(inputs, regions, entries, direct, table, image, f, Last(Front(run)), Last(run));
    }
  }

  /**
   On runs: control is always at an instruction, and the loads and stores an operand makes there are listed in
   every context if and only if the operand is settled.
   */
  lemma RunsAreListedExactly(inputs: seq<FunctionInput>, regions: seq<Region>, entries: Entries,
                             direct: seq<DirectFacts>, table: seq<Summary>, image: nat -> Instruction, f: nat,
                             run: seq<Control>)
    requires Knows(inputs, regions, entries, direct, table, image, f) && IsRun(image, inputs[f].entry, run)
    ensures Inside(inputs, entries, direct, f, Last(run).at) && image(Last(run).at).Instruction?
    ensures forall m :: OperandAt(image, Last(run).at, m) ==>
              ((forall c, e :: MayMake(m, c, e) ==> Lists(regions, table[f], m.size, e)) <==>
               Settled(regions, table[f], m))
  {
    RunsStayInside(inputs, regions, entries, direct, table, image, f, run);
    OperandsReported(inputs, regions, entries, direct, table, image, f, Last(run).at);
    forall m | OperandAt(image, Last(run).at, m)
      ensures AlwaysListed(regions, table[f], m) <==> Settled(regions, table[f], m)
    {
      AlwaysListedExactly(regions, table[f], m);
    }
  }

  // ----- functions whose summaries are wrong -----

  const RET: Instruction :=
    Instruction(1, false, None, [MemoryOperand(Read, Some(StackPointer), false, Wide(0), 8, None, false)], Return,
                false, None)

  /** One instruction, then RET. */
  function ThenRet(first: Instruction): FunctionInput
    requires first.Instruction? && first.length > 0
  {
    FunctionInput(0x1000, [first] + seq(first.length - 1, _ => Invalid) + [RET])
  }

  /** An instruction that can be followed and whose operands the analysis takes to be bounded. */
  predicate Tame(regions: seq<Region>, first: Instruction) {
    && first.Instruction? && 0 < first.length <= 15 && !first.privileged && first.flow.Next?
    && forall m | m in first.memory :: !m.access.NoMemAccess? ==> Bounded(regions, first, m)
  }

  lemma ThenRetReached(entries: Entries, first: Instruction)
    requires first.Instruction? && 0 < first.length <= 15 && first.flow.Next?
    ensures var f := ThenRet(first);
            && f.Decodes(0x1000) && f.At(0x1000) == first
            && f.Decodes(0x1000 + first.length) && f.At(0x1000 + first.length) == RET
            && Reached(f, entries, 0x1000)
            && forall a :: Reached(f, entries, a) ==> a == 0x1000 || a == 0x1000 + first.length
  {
    var f, last := ThenRet(first), 0x1000 + first.length;
    ReachSelf(LocalFlow(f, entries), f.entry);
    assert f.Decodes(0x1000) && f.Decodes(last);
    assert Successors(f, entries, 0x1000) == [last] && Successors(f, entries, last) == [];
    var both: set<nat> := {0x1000, last};
    assert Closed(LocalFlow(f, entries), both);
    forall a | Reached(f, entries, a)
      ensures a == 0x1000 || a == last
    {
      ClosedHoldsReachable(LocalFlow(f, entries), both, f.entry, a);
    }
  }

  lemma ThenRetFacts(regions: seq<Region>, entries: Entries, first: Instruction, facts: DirectFacts)
    requires Tame(regions, first) && FactsExact(ThenRet(first), regions, entries, facts)
    ensures !facts.unknown
    ensures forall r :: r in facts.read <==> MayRead(regions, first, r)
    ensures forall r :: r in facts.written <==> MayWrite(regions, first, r)
  {
    var f, last := ThenRet(first), 0x1000 + first.length;
    ThenRetReached(entries, first);
    assert forall r :: !MayRead(regions, RET, r) && !MayWrite(regions, RET, r);
    assert !Taints(f, regions, entries, 0x1000) && !Taints(f, regions, entries, last);
    assert Apart(f, 0x1000, last) && Apart(f, last, 0x1000);
  }

  /** Its summary has no unknown effects and lists what its first instruction may access. */
  lemma ThenRetSummary(regions: seq<Region>, first: Instruction, entries: Entries, direct: seq<DirectFacts>,
                       table: seq<Summary>)
    requires Tame(regions, first) && Analyzed([ThenRet(first)], regions, entries, direct, table)
    ensures !table[0].unknown && Inside([ThenRet(first)], entries, direct, 0, 0x1000)
    ensures forall r :: r in table[0].read <==> MayRead(regions, first, r)
    ensures forall r :: r in table[0].written <==> MayWrite(regions, first, r)
  {
    var f := ThenRet(first);
    assert [f][0] == f;
    ThenRetFacts(regions, entries, first, direct[0]);
    ReachSelf(Callees(CallGraph(direct)), 0);
    ReachSelf(LocalFlow(f, entries), f.entry);
    forall e
      ensures Has(table[0], e) <==> Has(Direct(direct[0]), e)
    {
      assert Has(table[0], e) <==> Causes(direct, 0, e);
    }
    assert forall r :: r in table[0].read <==> Has(table[0], MayReadAt(r));
    assert forall r :: r in table[0].written <==> Has(table[0], MayWriteAt(r));
    assert table[0].unknown <==> Has(table[0], Unbounded);
  }

  const DATA: seq<Region> := [Region(0x3000, 0x3010, 0)]

  const FS_OPERAND: MemoryOperand := MemoryOperand(Read, None, false, Wide(0x3004), 4, Some(FS), false)

  /** A load from FS at a RIP-relative address. */
  const FS_LOAD: Instruction := Instruction(7, false, Some(0x3004), [FS_OPERAND], FlowControl.Next, false, None)

  /** The load is the only read listed, nothing is unknown, and with an FS base of 16 it reads elsewhere. */
  lemma FsLoadEscapes(entries: Entries, direct: seq<DirectFacts>, table: seq<Summary>)
    requires Analyzed([ThenRet(FS_LOAD)], DATA, entries, direct, table)
    ensures !table[0].unknown && table[0].read == {Reference(0x3004, 0)}
    ensures Inside([ThenRet(FS_LOAD)], entries, direct, 0, 0x1000) && FS_OPERAND in FS_LOAD.memory
    ensures MayMake(FS_OPERAND, Context(16, 0, 0, 0), Load(0x3014)) && !Bookkeeping(FS_LOAD, FS_OPERAND)
    ensures !Lists(DATA, table[0], 4, Load(0x3014))
  {
    assert FS_OPERAND in FS_LOAD.memory;
    ThenRetSummary(DATA, FS_LOAD, entries, direct, table);
    forall r
      ensures r in table[0].read <==> r == Reference(0x3004, 0)
    {
      assert MayRead(DATA, FS_LOAD, r) <==> r == Reference(0x3004, 0);
    }
  }

  const LOW_DATA: seq<Region> := [Region(0, 0x10, 0)]

  const POP_STACK: MemoryOperand := MemoryOperand(Read, Some(StackPointer), false, Wide(0), 8, None, false)

  /** POP to a RIP-relative address that is zero: it reads the stack at displacement zero and writes at zero. */
  const POP: Instruction :=
    Instruction(6, false, Some(0), [POP_STACK, MemoryOperand(Write, None, false, Wide(0), 8, None, false)],
                FlowControl.Next, false, None)

  /** The stack read is listed at address zero, nothing is unknown, and with RSP at 0x7000 it is made there. */
  lemma PopEscapes(entries: Entries, direct: seq<DirectFacts>, table: seq<Summary>)
    requires Analyzed([ThenRet(POP)], LOW_DATA, entries, direct, table)
    ensures !table[0].unknown && table[0].read == {Reference(0, 0)} && table[0].written == {Reference(0, 0)}
    ensures Inside([ThenRet(POP)], entries, direct, 0, 0x1000) && POP_STACK in POP.memory
    ensures MayMake(POP_STACK, Context(0, 0, 0x7000, 0), Load(0x7000)) && !Bookkeeping(POP, POP_STACK)
    ensures !Lists(LOW_DATA, table[0], 8, Load(0x7000))
  {
    PopLists();
    ThenRetSummary(LOW_DATA, POP, entries, direct, table);
    assert forall r :: r in table[0].read <==> r == Reference(0, 0);
    assert forall r :: r in table[0].written <==> r == Reference(0, 0);
  }

  lemma PopLists()
    ensures Tame(LOW_DATA, POP)
    ensures forall r :: MayRead(LOW_DATA, POP, r) <==> r == Reference(0, 0)
    ensures forall r :: MayWrite(LOW_DATA, POP, r) <==> r == Reference(0, 0)
  {
    assert POP.memory[0] in POP.memory && POP.memory[1] in POP.memory;
  }

  const COUNTER: MemoryOperand := MemoryOperand(ReadWrite, None, false, Wide(0x3004), 4, None, false)

  /** add dword ptr [rip + d], 1 */
  const INCREMENT: Instruction := Instruction(7, false, Some(0x3004), [COUNTER], FlowControl.Next, false, None)

  /** A read-modify-write loads and stores its global in every context, and is listed as read and as written. */
  lemma IncrementListsBoth(entries: Entries, direct: seq<DirectFacts>, table: seq<Summary>, c: Context)
    requires Analyzed([ThenRet(INCREMENT)], DATA, entries, direct, table)
    ensures !table[0].unknown
    ensures table[0].read == {Reference(0x3004, 0)} && table[0].written == {Reference(0x3004, 0)}
    ensures MayMake(COUNTER, c, Load(0x3004)) && MayMake(COUNTER, c, Store(0x3004))
    ensures Lists(DATA, table[0], 4, Load(0x3004)) && Lists(DATA, table[0], 4, Store(0x3004))
  {
    assert COUNTER in INCREMENT.memory;
    ThenRetSummary(DATA, INCREMENT, entries, direct, table);
    FixedStays(COUNTER, c);
    forall r
      ensures r in table[0].read <==> r == Reference(0x3004, 0)
      ensures r in table[0].written <==> r == Reference(0x3004, 0)
    {
      assert MayRead(DATA, INCREMENT, r) <==> r == Reference(0x3004, 0);
      assert MayWrite(DATA, INCREMENT, r) <==> r == Reference(0x3004, 0);
    }
  }
}
