/**
 Abstract interpretation of the stack (crates/hydir-backend/src/stack.rs): offsets of RSP and RBP
 from RSP at entry, whether the caller's RBP is saved, and the typed stack-local slots.
 */
module StackProof {
  import opened Wrappers
  import opened Words
  import opened Semantics
  import opened Decode
  import opened Ownership
  import opened Paths

  datatype FrameState = FrameState(rsp: int, rbp: Option<int>, savedRbp: bool)

  const ENTRY_FRAME := FrameState(0, None, false)

  datatype StackSlot = StackSlot(offset: int, width: nat)

  datatype StackError =
    | BadSize | AddressOverflow | EdgeLeavesSymbol(ip: nat) | Conflicting(ip: nat) | InvalidCode(ip: nat)
    | OverlappingCode(ip: nat) | UnsupportedCode(ip: nat) | BadAccess(ip: nat) | OverlappingSlots(ip: nat)
    | TooManySlots | BadFrame(ip: nat) | Unbalanced(ip: nat) | UnresolvedFlow(ip: nat) | NoReturn

  /** `exit_rsp_delta` is the constant 8 of the source: RSP after the near return, relative to entry. */
  datatype Evidence = Evidence(
    returnSites: set<nat>, exitRspDelta: int, slotByIp: map<nat, StackSlot>, slots: seq<StackSlot>)

  // ----- abstract domain -----

  /** The slot an access names, when its base is known and it stays in the allocated window. */
  function SlotFor(s: FrameState, a: StackOperand, allowCalls: bool): Option<StackSlot> {
    var base := if a.base == RSP then Some(s.rsp) else s.rbp;
    if base.None? then None
    else
      var offset := base.value + a.displacement;
      var top := if s.savedRbp then -8 else 0;
      var bottom := if allowCalls then s.rsp else s.rsp - 128;
      if InI64(offset) && InI64(offset + a.width) && InI64(bottom) && bottom <= offset && offset + a.width <= top
      then Some(StackSlot(offset, a.width)) else None
  }

  /** Frame state after an instruction, None where the source refuses it. */
  function Transfer(op: Op, s: FrameState, allowCalls: bool): Option<FrameState> {
    match op
    case SaveFramePointer =>
      if s.savedRbp || s.rsp != 0 then None else Some(s.(rsp := -8, savedRbp := true))
    case RestoreFramePointer =>
      if !s.savedRbp || s.rsp != -8 then None else Some(FrameState(0, None, false))
    case SetFramePointer =>
      if !s.savedRbp then None else Some(s.(rbp := Some(s.rsp)))
    case RestoreStackPointerFromFrame =>
      if s.rbp.None? then None else Some(s.(rsp := s.rbp.value))
    case AdjustStack(kind, amount) =>
      var rsp := if kind == Sub then s.rsp - amount else s.rsp + amount;
      if 0 <= amount <= 4096 && InI64(rsp) && -4096 <= rsp <= 0 then Some(s.(rsp := rsp)) else None
    case LeaveFrame =>
      if !s.savedRbp || s.rbp != Some(-8) then None else Some(FrameState(0, None, false))
    case CallDirect(_) =>
      if allowCalls && s.rsp % 16 != 8 then None else Some(s)
    case _ =>
      if StackAccess(op).Some? && SlotFor(s, StackAccess(op).value, allowCalls).None? then None else Some(s)
  }

  /** Direct flow followed by the proof, None where it is refused; returns have no successor. */
  function FlowSuccessors(code: Code, ip: nat, allowCalls: bool): Option<seq<nat>>
    requires code.Decodes(ip)
  {
    var target, next := code.At(ip).target, code.NextIp(ip);
    match code.OpAt(ip)
    case Ret => Some([])
    case Jcc(_) => Some([target, next])
    case Jmp => Some([target])
    case CallDirect(_) => if allowCalls then Some([next]) else None
    case _ => Some([next])
  }

  // ----- what a finished proof establishes -----

  predicate Balanced(s: FrameState) { !s.savedRbp && s.rsp == 0 }

  /** The instruction at ip is acceptable in frame state s. */
  predicate Accepted(code: Code, allowCalls: bool, ip: nat, s: FrameState) {
    && code.Decodes(ip)
    && Transfer(code.OpAt(ip), s, allowCalls).Some?
    && FlowSuccessors(code, ip, allowCalls).Some?
    && (code.OpAt(ip).Ret? ==> Balanced(s))
  }

  function StateAfter(code: Code, allowCalls: bool, ip: nat, s: FrameState): FrameState
    requires Accepted(code, allowCalls, ip, s)
  {
    Transfer(code.OpAt(ip), s, allowCalls).value
  }

  function SuccessorsAfter(code: Code, allowCalls: bool, ip: nat, s: FrameState): seq<nat>
    requires Accepted(code, allowCalls, ip, s)
  {
    FlowSuccessors(code, ip, allowCalls).value
  }

  predicate Accesses(code: Code, ip: nat) { code.Decodes(ip) && StackAccess(code.OpAt(ip)).Some? }

  function SlotAt(code: Code, allowCalls: bool, ip: nat, s: FrameState): StackSlot
    requires Accepted(code, allowCalls, ip, s) && Accesses(code, ip)
  {
    SlotFor(s, StackAccess(code.OpAt(ip)).value, allowCalls).value
  }

  /** The proof's moves between (address, frame state) pairs. */
  ghost function FrameEdges(code: Code, allowCalls: bool): ((nat, FrameState)) -> set<(nat, FrameState)> {
    (w: (nat, FrameState)) =>
      if Accepted(code, allowCalls, w.0, w.1)
      then set n | n in SuccessorsAfter(code, allowCalls, w.0, w.1) :: (n, StateAfter(code, allowCalls, w.0, w.1))
      else {}
  }

  /** Some path of accepted instructions from the entry arrives at ip with frame state s. */
  ghost predicate Arrives(code: Code, allowCalls: bool, ip: nat, s: FrameState) {
    Reachable(FrameEdges(code, allowCalls), (code.address, ENTRY_FRAME), (ip, s))
  }

  predicate Clash(a: StackSlot, b: StackSlot) {
    a != b && a.offset < b.offset + b.width && b.offset < a.offset + a.width
  }

  /** What a complete proof demands, over every path from the entry. */
  ghost predicate Provable(code: Code, allowCalls: bool) {
    && 1 <= |code.table| <= 4096 && code.End() < TWO64
    && (forall ip, s :: Arrives(code, allowCalls, ip, s) ==> Accepted(code, allowCalls, ip, s))
    && (forall ip, s, t :: Arrives(code, allowCalls, ip, s) && Arrives(code, allowCalls, ip, t) ==> s == t)
    && (forall ip, s, other, t :: Arrives(code, allowCalls, ip, s) && Arrives(code, allowCalls, other, t) && ip != other
          ==> !code.Overlap(ip, other))
    && (exists slots :: SlotsExact(code, allowCalls, slots))
    && (exists ip, s :: Arrives(code, allowCalls, ip, s) && code.Decodes(ip) && code.OpAt(ip).Ret?)
  }

  ghost predicate SlotUsed(code: Code, allowCalls: bool, slot: StackSlot) {
    exists ip, s :: Arrives(code, allowCalls, ip, s) && Accepted(code, allowCalls, ip, s) && Accesses(code, ip) &&
                    SlotAt(code, allowCalls, ip, s) == slot
  }

  /** The slots of all accesses in order: at most eight, pairwise disjoint. */
  ghost predicate SlotsExact(code: Code, allowCalls: bool, slots: seq<StackSlot>) {
    && |slots| <= 8 && Ordered(slots)
    && (forall slot :: slot in slots <==> SlotUsed(code, allowCalls, slot))
    && (forall a, b :: a in slots && b in slots ==> !Clash(a, b))
  }

  ghost predicate EvidenceExact(code: Code, allowCalls: bool, e: Evidence) {
    && SlotsExact(code, allowCalls, e.slots)
    && (forall ip, s :: Arrives(code, allowCalls, ip, s) && Accepted(code, allowCalls, ip, s) && Accesses(code, ip)
          ==> ip in e.slotByIp && e.slotByIp[ip] == SlotAt(code, allowCalls, ip, s))
    && (forall ip :: ip in e.slotByIp ==> Accesses(code, ip) && exists s :: Arrives(code, allowCalls, ip, s))
    && (forall ip :: ip in e.returnSites <==>
          code.Decodes(ip) && code.OpAt(ip).Ret? && exists s :: Arrives(code, allowCalls, ip, s))
    && e.exitRspDelta == 8
  }

  // ----- the ordered slot set -----

  predicate Before(a: StackSlot, b: StackSlot) {
    a.offset < b.offset || (a.offset == b.offset && a.width < b.width)
  }

  ghost predicate Ordered(slots: seq<StackSlot>) {
    forall i, j :: 0 <= i < j < |slots| ==> Before(slots[i], slots[j])
  }

  function InsertSlot(slots: seq<StackSlot>, slot: StackSlot): (r: seq<StackSlot>)
    requires Ordered(slots)
    ensures Ordered(r) && forall x :: x in r <==> x in slots || x == slot
    ensures slot in slots ==> r == slots
  {
    if slots == [] then [slot]
    else if slots[0] == slot then slots
    else if Before(slot, slots[0]) then [slot] + slots
    else
      var rest := InsertSlot(slots[1..], slot);
      assert forall x :: x in rest ==> Before(slots[0], x);
      [slots[0]] + rest
  }

  /** The position the binary search finds: the one position of the slot in the ordered list. */
  function IndexOf(slots: seq<StackSlot>, slot: StackSlot): (r: Option<nat>)
    ensures r.Some? <==> slot in slots
    ensures r.Some? ==> r.value < |slots| && slots[r.value] == slot
  {
    if slots == [] then None
    else if slots[0] == slot then Some(0)
    else match IndexOf(slots[1..], slot)
      case Some(i) => Some(i + 1)
      case None => None
  }

  // ----- the worklist -----

  type Frames = map<nat, FrameState>

  ghost predicate Progress(code: Code, allowCalls: bool, incoming: Frames, pending: seq<(nat, FrameState)>) {
    && (forall ip, s :: (ip, s) in pending ==> Arrives(code, allowCalls, ip, s))
    && (forall ip :: ip in incoming ==>
          Arrives(code, allowCalls, ip, incoming[ip]) && Accepted(code, allowCalls, ip, incoming[ip]))
    && Visited(incoming, pending, code.address, ENTRY_FRAME)
    && (forall ip, next :: ip in incoming && next in SuccessorsAfter(code, allowCalls, ip, incoming[ip]) ==>
          Visited(incoming, pending, next, StateAfter(code, allowCalls, ip, incoming[ip])))
  }

  ghost predicate Visited(incoming: Frames, pending: seq<(nat, FrameState)>, ip: nat, s: FrameState) {
    (ip in incoming && incoming[ip] == s) || (ip, s) in pending
  }

  /** The listed slots are those recorded per access: at most eight, pairwise disjoint. */
  ghost predicate SlotsRecorded(slotByIp: map<nat, StackSlot>, slots: seq<StackSlot>) {
    && |slots| <= 8 && Ordered(slots)
    && (forall slot :: slot in slots <==> slot in slotByIp.Values)
    && (forall a, b :: a in slots && b in slots ==> !Clash(a, b))
  }

  ghost predicate AccessesRecorded(code: Code, allowCalls: bool, incoming: Frames, slotByIp: map<nat, StackSlot>) {
    && (forall ip :: ip in slotByIp <==> ip in incoming && Accesses(code, ip))
    && (forall ip :: ip in slotByIp ==>
          Accepted(code, allowCalls, ip, incoming[ip]) && slotByIp[ip] == SlotAt(code, allowCalls, ip, incoming[ip]))
  }

  /** The evidence gathered so far is that of the recorded states. */
  ghost predicate Gathered(code: Code, allowCalls: bool, incoming: Frames, e: Evidence) {
    && SlotsRecorded(e.slotByIp, e.slots)
    && AccessesRecorded(code, allowCalls, incoming, e.slotByIp)
    && (forall ip :: ip in e.returnSites <==> ip in incoming && code.Decodes(ip) && code.OpAt(ip).Ret?)
    && e.exitRspDelta == 8
  }

  /** The error names what is wrong with the instruction. */
  ghost predicate Refuses(code: Code, allowCalls: bool, ip: nat, s: FrameState, owners: seq<Option<nat>>,
                          slots: seq<StackSlot>, error: StackError)
    requires Ordered(slots)
  {
    match error
    case EdgeLeavesSymbol(x) => x == ip && !code.Contains(ip)
    case InvalidCode(x) => x == ip && code.Contains(ip) && code.At(ip).Invalid?
    case OverlappingCode(x) => x == ip && code.Contains(ip) && !BytesFree(code, owners, ip)
    case UnsupportedCode(x) => x == ip && code.Contains(ip) && code.At(ip).Unclassified?
    case BadAccess(x) =>
      x == ip && Accesses(code, ip) && SlotFor(s, StackAccess(code.OpAt(ip)).value, allowCalls).None?
    case OverlappingSlots(x) =>
      && x == ip && Accesses(code, ip) && var slot := SlotFor(s, StackAccess(code.OpAt(ip)).value, allowCalls);
      slot.Some? && exists other :: other in slots && Clash(slot.value, other)
    case TooManySlots =>
      && Accesses(code, ip) && var slot := SlotFor(s, StackAccess(code.OpAt(ip)).value, allowCalls);
      slot.Some? && |InsertSlot(slots, slot.value)| > 8
    case BadFrame(x) => x == ip && code.Decodes(ip) && Transfer(code.OpAt(ip), s, allowCalls).None?
    case Unbalanced(x) => x == ip && code.Decodes(ip) && code.OpAt(ip).Ret? && !Balanced(s)
    case UnresolvedFlow(x) => x == ip && code.Decodes(ip) && FlowSuccessors(code, ip, allowCalls).None?
    case _ => false
  }

  /** One instruction: decode, claim its bytes, apply it to the frame state and note its slot. */
  method Step(code: Code, allowCalls: bool, ip: nat, state: FrameState, owners: array<Option<nat>>,
              slots: seq<StackSlot>)
    returns (r: Result<(FrameState, seq<StackSlot>, seq<nat>), StackError>)
    requires code.Valid() && owners.Length == |code.table| && Ordered(slots)
    modifies owners
    ensures r.Success? <==>
              && Accepted(code, allowCalls, ip, state)
              && BytesFree(code, old(owners[..]), ip)
              && (Accesses(code, ip) ==> SlotFits(slots, SlotAt(code, allowCalls, ip, state)))
    ensures r.Success? ==>
              && r.value.0 == StateAfter(code, allowCalls, ip, state)
              && r.value.1 == (if Accesses(code, ip) then InsertSlot(slots, SlotAt(code, allowCalls, ip, state))
                else slots)
              && r.value.2 == SuccessorsAfter(code, allowCalls, ip, state)
              && Claimed(code, old(owners[..]), owners[..], ip)
    ensures r.Failure? ==> Refuses(code, allowCalls, ip, state, old(owners[..]), slots, r.error)
  {
    if !code.Contains(ip) {
      return Failure(EdgeLeavesSymbol(ip));
    }
    var decoded := code.At(ip);
    if decoded.Invalid? {
      return Failure(InvalidCode(ip));
    }
    var conflict := Claim(code, ip, owners);
    if conflict.Some? {
      return Failure(OverlappingCode(ip));
    }
    if decoded.Unclassified? {
      return Failure(UnsupportedCode(ip));
    }
    var noted := slots;
    match StackAccess(decoded.op) {
      case Some(access) =>
        var slot := SlotFor(state, access, allowCalls);
        if slot.None? {
          return Failure(BadAccess(ip));
        }
        if exists i | 0 <= i < |slots| :: Clash(slot.value, slots[i]) {
          return Failure(OverlappingSlots(ip));
        }
        noted := InsertSlot(slots, slot.value);
        if |noted| > 8 {
          return Failure(TooManySlots);
        }
      case None =>
    }
    var after := Transfer(decoded.op, state, allowCalls);
    if after.None? {
      return Failure(BadFrame(ip));
    }
    if decoded.op.Ret? && !Balanced(state) {
      return Failure(Unbalanced(ip));
    }
    var flow := FlowSuccessors(code, ip, allowCalls);
    if flow.None? {
      return Failure(UnresolvedFlow(ip));
    }
    r := Success((after.value, noted, flow.value));
  }

  ghost predicate SlotFits(slots: seq<StackSlot>, slot: StackSlot)
    requires Ordered(slots)
  {
    (forall other :: other in slots ==> !Clash(slot, other)) && |InsertSlot(slots, slot)| <= 8
  }

  /** The invariant of the proof's worklist. */
  ghost predicate Working(code: Code, allowCalls: bool, incoming: Frames, pending: seq<(nat, FrameState)>,
                          owners: seq<Option<nat>>, e: Evidence) {
    && Progress(code, allowCalls, incoming, pending)
    && Gathered(code, allowCalls, incoming, e)
    && OwnersExact(code, incoming.Keys, owners)
  }

  /** Takes one address not met before off the queue. */
  method Visit(code: Code, allowCalls: bool, ip: nat, state: FrameState, owners: array<Option<nat>>, incoming: Frames,
               rest: seq<(nat, FrameState)>, e: Evidence)
    returns (r: Result<(seq<(nat, FrameState)>, Evidence), StackError>)
    requires code.Valid() && ip !in incoming
    requires Working(code, allowCalls, incoming, [(ip, state)] + rest, owners[..], e)
    modifies owners
    ensures r.Success? ==>
              && Working(code, allowCalls, incoming[ip := state], r.value.0, owners[..], r.value.1)
              && |incoming| < |incoming[ip := state]| <= |code.table|
    ensures r.Failure? ==> !Provable(code, allowCalls)
  {
    ghost var before := owners[..];
    var step := Step(code, allowCalls, ip, state, owners, e.slots);
    if step.Failure? {
      NoProof(code, allowCalls, incoming, ip, state, rest, before, e);
      return Failure(step.error);
    }
    var (after, noted, successors) := step.value;
    var queued := Queue(rest, successors, after);
    Record(code, allowCalls, incoming, ip, state, rest, queued, before, owners[..], e);
    var grown := e;
    if code.OpAt(ip).Ret? {
      grown := grown.(returnSites := grown.returnSites + {ip});
    }
    if Accesses(code, ip) {
      grown := grown.(slotByIp := grown.slotByIp[ip := SlotAt(code, allowCalls, ip, state)], slots := noted);
    }
    r := Success((queued, grown));
  }

  method AnalyzeStack(code: Code, allowCalls: bool) returns (r: Result<Evidence, StackError>)
    requires code.Valid()
    ensures r.Success? <==> Provable(code, allowCalls)
    ensures r.Success? ==> EvidenceExact(code, allowCalls, r.value)
  {
    if code.table == [] || |code.table| > 4096 {
      return Failure(BadSize);
    }
    if code.End() >= TWO64 {
      return Failure(AddressOverflow);
    }
    var pending := [(code.address, ENTRY_FRAME)];
    var incoming: Frames := map[];
    var owners := new Option<nat>[|code.table|](_ => None);
    var e := Evidence({}, 8, map[], []);
    ReachSelf(FrameEdges(code, allowCalls), (code.address, ENTRY_FRAME));
    while pending != []
      invariant Working(code, allowCalls, incoming, pending, owners[..], e)
      decreases |code.table| - |incoming|, |pending|
    {
      var (ip, state) := pending[0];
      assert pending == [(ip, state)] + pending[1..];
      pending := pending[1..];
      if ip in incoming {
        if incoming[ip] != state {
          NoProofOnConflict(code, allowCalls, incoming, ip, state, pending);
          return Failure(Conflicting(ip));
        }
        SkipKnown(code, allowCalls, incoming, ip, state, pending);
        continue;
      }
      var visited := Visit(code, allowCalls, ip, state, owners, incoming, pending, e);
      if visited.Failure? {
        return Failure(visited.error);
      }
      incoming := incoming[ip := state];
      pending, e := visited.value.0, visited.value.1;
    }
    Finish(code, allowCalls, incoming, owners[..], e);
    if e.returnSites == {} {
      return Failure(NoReturn);
    }
    r := Success(e);
  }

  method Queue(pending: seq<(nat, FrameState)>, successors: seq<nat>, after: FrameState)
    returns (r: seq<(nat, FrameState)>)
    ensures forall n, s :: (n, s) in r <==> ((n, s) in pending || (n in successors && s == after))
  {
    r := pending;
    for i := 0 to |successors|
      invariant forall n, s :: (n, s) in r <==> ((n, s) in pending || (n in successors[..i] && s == after))
    {
      assert successors[..i + 1] == successors[..i] + [successors[i]];
      r := r + [(successors[i], after)];
    }
    assert successors[..|successors|] == successors;
  }

  lemma SkipKnown(code: Code, allowCalls: bool, incoming: Frames, ip: nat, state: FrameState,
                  rest: seq<(nat, FrameState)>)
    requires Progress(code, allowCalls, incoming, [(ip, state)] + rest)
    requires ip in incoming && incoming[ip] == state
    ensures Progress(code, allowCalls, incoming, rest)
  {
    assert forall w :: w in [(ip, state)] + rest <==> w == (ip, state) || w in rest;
  }

  lemma NoProofOnConflict(code: Code, allowCalls: bool, incoming: Frames, ip: nat, state: FrameState,
                          rest: seq<(nat, FrameState)>)
    requires Progress(code, allowCalls, incoming, [(ip, state)] + rest)
    requires ip in incoming && incoming[ip] != state
    ensures !Provable(code, allowCalls)
  {
    assert (ip, state) in [(ip, state)] + rest;
  }

  lemma NoProof(code: Code, allowCalls: bool, incoming: Frames, ip: nat, state: FrameState,
                rest: seq<(nat, FrameState)>, owners: seq<Option<nat>>, e: Evidence)
    requires Progress(code, allowCalls, incoming, [(ip, state)] + rest) && ip !in incoming
    requires Gathered(code, allowCalls, incoming, e) && OwnersExact(code, incoming.Keys, owners)
    requires !(&& Accepted(code, allowCalls, ip, state)
               && BytesFree(code, owners, ip)
               && (Accesses(code, ip) ==> SlotFits(e.slots, SlotAt(code, allowCalls, ip, state))))
    ensures !Provable(code, allowCalls)
  {
    assert (ip, state) in [(ip, state)] + rest;
    assert Arrives(code, allowCalls, ip, state);
    if !Accepted(code, allowCalls, ip, state) {
    } else if !BytesFree(code, owners, ip) {
      var k :| 0 <= k < |owners| && code.Covers(ip, code.address + k) && owners[k].Some?;
      assert code.Overlap(ip, owners[k].value);
    } else if Provable(code, allowCalls) {
      var all :| SlotsExact(code, allowCalls, all);
      SlotFitsAll(code, allowCalls, incoming, ip, state, e, all);
    }
  }

  /** A used slot fits any list of used slots. */
  lemma SlotFitsAll(code: Code, allowCalls: bool, incoming: Frames, ip: nat, state: FrameState, e: Evidence,
                    all: seq<StackSlot>)
    requires forall x :: x in incoming ==> Arrives(code, allowCalls, x, incoming[x])
    requires Gathered(code, allowCalls, incoming, e) && SlotsExact(code, allowCalls, all)
    requires Arrives(code, allowCalls, ip, state) && Accepted(code, allowCalls, ip, state) && Accesses(code, ip)
    ensures SlotFits(e.slots, SlotAt(code, allowCalls, ip, state))
  {
    var slot := SlotAt(code, allowCalls, ip, state);
    assert SlotUsed(code, allowCalls, slot);
    forall x | x in e.slots
      ensures x in all
    {
      var y :| y in e.slotByIp && e.slotByIp[y] == x;
      assert SlotUsed(code, allowCalls, x);
    }
    OrderedSublist(InsertSlot(e.slots, slot), all);
  }

  lemma {:induction false} OrderedSublist(a: seq<StackSlot>, b: seq<StackSlot>)
    requires Ordered(a) && Ordered(b) && forall x :: x in a ==> x in b
    ensures |a| <= |b|
  {
    if |a| > 0 {
      assert a[0] in b;
      var i :| 0 <= i < |b| && b[i] == a[0];
      forall x | x in a[1..]
        ensures x in b[i + 1..]
      {
        assert x in a && Before(a[0], x);
        var j :| 0 <= j < |b| && b[j] == x;
        assert b[i + 1..][j - (i + 1)] == x;
      }
      OrderedSublist(a[1..], b[i + 1..]);
    }
  }

  lemma Advance(code: Code, allowCalls: bool, incoming: Frames, ip: nat, state: FrameState,
                rest: seq<(nat, FrameState)>, queued: seq<(nat, FrameState)>)
    requires Progress(code, allowCalls, incoming, [(ip, state)] + rest) && ip !in incoming
    requires Accepted(code, allowCalls, ip, state)
    requires forall n, s :: (n, s) in queued <==>
               ((n, s) in rest || (n in SuccessorsAfter(code, allowCalls, ip, state) &&
                 s == StateAfter(code, allowCalls, ip, state)))
    ensures Progress(code, allowCalls, incoming[ip := state], queued)
  {
    assert forall n, s :: (n, s) in [(ip, state)] + rest <==> (n, s) == (ip, state) || (n, s) in rest;
    forall n, s | (n, s) in queued
      ensures Arrives(code, allowCalls, n, s)
    {
      if (n, s) !in rest {
        ReachStep(FrameEdges(code, allowCalls), (code.address, ENTRY_FRAME), (ip, state), (n, s));
      }
    }
  }

  lemma RecordSlot(slotByIp: map<nat, StackSlot>, slots: seq<StackSlot>, ip: nat, slot: StackSlot)
    requires SlotsRecorded(slotByIp, slots) && ip !in slotByIp && SlotFits(slots, slot)
    ensures SlotsRecorded(slotByIp[ip := slot], InsertSlot(slots, slot))
  {
    var grown := slotByIp[ip := slot];
    forall x
      ensures x in grown.Values <==> x in slotByIp.Values || x == slot
    {
      if x in slotByIp.Values {
        var y :| y in slotByIp && slotByIp[y] == x;
        assert grown[y] == x;
      }
      assert grown[ip] == slot;
    }
  }

  lemma RecordAccess(code: Code, allowCalls: bool, incoming: Frames, slotByIp: map<nat, StackSlot>, ip: nat,
                     state: FrameState)
    requires AccessesRecorded(code, allowCalls, incoming, slotByIp) && ip !in incoming
    requires Accepted(code, allowCalls, ip, state)
    ensures AccessesRecorded(code, allowCalls, incoming[ip := state],
                             if Accesses(code, ip) then slotByIp[ip := SlotAt(code, allowCalls, ip, state)]
                               else slotByIp)
  {
  }

  lemma Gather(code: Code, allowCalls: bool, incoming: Frames, ip: nat, state: FrameState, e: Evidence)
    requires Gathered(code, allowCalls, incoming, e) && ip !in incoming
    requires Accepted(code, allowCalls, ip, state)
    requires Accesses(code, ip) ==> SlotFits(e.slots, SlotAt(code, allowCalls, ip, state))
    ensures Gathered(code, allowCalls, incoming[ip := state], Grown(code, allowCalls, ip, state, e))
  {
    RecordAccess(code, allowCalls, incoming, e.slotByIp, ip, state);
    if Accesses(code, ip) {
      RecordSlot(e.slotByIp, e.slots, ip, SlotAt(code, allowCalls, ip, state));
    }
  }

  function Grown(code: Code, allowCalls: bool, ip: nat, state: FrameState, e: Evidence): Evidence
    requires Accepted(code, allowCalls, ip, state) && Ordered(e.slots)
  {
    Evidence(
      if code.OpAt(ip).Ret? then e.returnSites + {ip} else e.returnSites, e.exitRspDelta,
      if Accesses(code, ip) then e.slotByIp[ip := SlotAt(code, allowCalls, ip, state)] else e.slotByIp,
      if Accesses(code, ip) then InsertSlot(e.slots, SlotAt(code, allowCalls, ip, state)) else e.slots)
  }

  /** Processing one accepted instruction keeps every invariant of the worklist. */
  lemma Record(code: Code, allowCalls: bool, incoming: Frames, ip: nat, state: FrameState, rest: seq<(nat, FrameState)>,
               queued: seq<(nat, FrameState)>, before: seq<Option<nat>>, after: seq<Option<nat>>, e: Evidence)
    requires code.Valid() && ip !in incoming && Accepted(code, allowCalls, ip, state)
    requires Progress(code, allowCalls, incoming, [(ip, state)] + rest)
    requires forall n, s :: (n, s) in queued <==>
               ((n, s) in rest || (n in SuccessorsAfter(code, allowCalls, ip, state) &&
                 s == StateAfter(code, allowCalls, ip, state)))
    requires OwnersExact(code, incoming.Keys, before) && BytesFree(code, before, ip) && Claimed(code, before, after, ip)
    requires Gathered(code, allowCalls, incoming, e)
    requires Accesses(code, ip) ==> SlotFits(e.slots, SlotAt(code, allowCalls, ip, state))
    ensures Progress(code, allowCalls, incoming[ip := state], queued)
    ensures OwnersExact(code, incoming[ip := state].Keys, after)
    ensures Gathered(code, allowCalls, incoming[ip := state], Grown(code, allowCalls, ip, state, e))
    ensures |incoming| < |incoming[ip := state]| <= |code.table|
  {
    Own(code, allowCalls, incoming, [(ip, state)] + rest, ip, state, before, after);
    Gather(code, allowCalls, incoming, ip, state, e);
    Advance(code, allowCalls, incoming, ip, state, rest, queued);
  }

  lemma Own(code: Code, allowCalls: bool, incoming: Frames, pending: seq<(nat, FrameState)>, ip: nat, state: FrameState,
            before: seq<Option<nat>>, after: seq<Option<nat>>)
    requires code.Valid() && ip !in incoming && code.Decodes(ip) && Progress(code, allowCalls, incoming, pending)
    requires OwnersExact(code, incoming.Keys, before) && BytesFree(code, before, ip) && Claimed(code, before, after, ip)
    ensures OwnersExact(code, incoming[ip := state].Keys, after)
    ensures |incoming| < |incoming[ip := state]| <= |code.table|
  {
    assert incoming[ip := state].Keys == incoming.Keys + {ip};
    NewBytes(code, incoming.Keys, before, after, ip);
  }

  /** With nothing pending the recorded states are all that arrive. */
  lemma AllArrived(code: Code, allowCalls: bool, incoming: Frames, ip: nat, s: FrameState)
    requires Progress(code, allowCalls, incoming, []) && Arrives(code, allowCalls, ip, s)
    ensures ip in incoming && incoming[ip] == s
  {
    var recorded := set x | x in incoming :: (x, incoming[x]);
    assert Closed(FrameEdges(code, allowCalls), recorded);
    ClosedHoldsReachable(FrameEdges(code, allowCalls), recorded, (code.address, ENTRY_FRAME), (ip, s));
  }

  lemma Finish(code: Code, allowCalls: bool, incoming: Frames, owners: seq<Option<nat>>, e: Evidence)
    requires code.Valid() && 1 <= |code.table| <= 4096 && code.End() < TWO64
    requires Progress(code, allowCalls, incoming, []) && OwnersExact(code, incoming.Keys, owners)
    requires Gathered(code, allowCalls, incoming, e)
    ensures Provable(code, allowCalls) <==> e.returnSites != {}
    ensures EvidenceExact(code, allowCalls, e)
  {
    forall ip, s | Arrives(code, allowCalls, ip, s)
      ensures ip in incoming && incoming[ip] == s
    {
      AllArrived(code, allowCalls, incoming, ip, s);
    }
    forall ip, other | ip in incoming && other in incoming && code.Overlap(ip, other)
      ensures ip == other
    {
      OwnersDisjoint(code, incoming.Keys, owners, ip, other);
    }
    forall slot
      ensures slot in e.slots <==> SlotUsed(code, allowCalls, slot)
    {
      if slot in e.slots {
        var y :| y in e.slotByIp && e.slotByIp[y] == slot;
        assert Arrives(code, allowCalls, y, incoming[y]);
      }
      if SlotUsed(code, allowCalls, slot) {
        var ip, s :| Arrives(code, allowCalls, ip, s) && Accepted(code, allowCalls, ip, s) && Accesses(code, ip) &&
                     SlotAt(code, allowCalls, ip, s) == slot;
        assert e.slotByIp[ip] == slot;
      }
    }
    assert SlotsExact(code, allowCalls, e.slots);
  }
}
