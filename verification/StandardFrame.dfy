/**
 The standard frame of a compiled function: push rbp; mov rbp,rsp; sub rsp,n; body; leave; ret. The
 stack proof accepts it exactly when n fits the bounded frame and the body's locals lie in the open
 window, are at most eight and do not clash.
 */
module StandardFrame {
  import opened Wrappers
  import opened Words
  import opened Semantics
  import opened Decode
  import opened Paths
  import opened StackProof

  /** The instructions stand one after the other and fill the code. */
  ghost predicate Listing(code: Code, ops: seq<Op>, at: seq<nat>) {
    && |at| == |ops| + 1 && at[0] == code.address && at[|ops|] == code.End()
    && forall i :: 0 <= i < |ops| ==> InstructionAt(code, at[i], ops[i], at[i + 1])
  }

  predicate InstructionAt(code: Code, ip: nat, op: Op, next: nat) {
    code.Decodes(ip) && code.OpAt(ip) == op && code.NextIp(ip) == next
  }

  /** Neither moves RSP or RBP nor leaves the sequence. */
  predicate Plain(op: Op) {
    !IsFrameOp(op) && !op.Jcc? && !op.Jmp? && !op.CallDirect? && !op.Ret?
  }

  function Framed(n: Int64, body: seq<Op>): seq<Op> {
    [SaveFramePointer, SetFramePointer, AdjustStack(Sub, n)] + body + [LeaveFrame, Ret]
  }

  /** The local an operand of the body names, as bytes relative to the entry RSP. */
  function Local(n: Int64, a: StackOperand): StackSlot {
    StackSlot(a.displacement - 8 - (if a.base == RBP then 0 else n), a.width)
  }

  function Locals(n: Int64, body: seq<Op>): set<StackSlot> {
    set op | op in body && StackAccess(op).Some? :: Local(n, StackAccess(op).value)
  }

  /** A local between the saved RBP and the bottom of the frame, red zone included where no calls are followed. */
  predicate InWindow(n: Int64, calls: bool, local: StackSlot) {
    -8 - n - (if calls then 0 else 128) <= local.offset && local.offset + local.width <= -8
  }

  ghost predicate Fits(n: Int64, body: seq<Op>, calls: bool) {
    && 0 <= n <= 4088
    && |Locals(n, body)| <= 8
    && (forall local :: local in Locals(n, body) ==> InWindow(n, calls, local))
    && (forall a, b :: a in Locals(n, body) && b in Locals(n, body) ==> !Clash(a, b))
  }

  /** The frame state before instruction i. */
  function FrameAt(n: int, size: nat, i: nat): FrameState {
    if i == 0 then ENTRY_FRAME
    else if i == 1 then FrameState(-8, None, true)
    else if i == 2 then FrameState(-8, Some(-8), true)
    else if i <= size + 3 then FrameState(-8 - n, Some(-8), true)
    else ENTRY_FRAME
  }

  lemma OpOf(n: Int64, body: seq<Op>, i: nat)
    requires i < |body| + 5
    ensures Framed(n, body)[i] ==
            if i == 0 then SaveFramePointer
            else if i == 1 then SetFramePointer
            else if i == 2 then AdjustStack(Sub, n)
            else if i < |body| + 3 then body[i - 3]
            else if i == |body| + 3 then LeaveFrame
            else Ret
  {
  }

  /** What acceptance asks of instruction i. */
  predicate AcceptsAt(n: Int64, body: seq<Op>, calls: bool, i: nat)
    requires i < |body| + 5
  {
    && (i == 2 ==> 0 <= n <= 4088)
    && (3 <= i < |body| + 3 && StackAccess(body[i - 3]).Some? ==>
          InWindow(n, calls, Local(n, StackAccess(body[i - 3]).value)))
  }

  lemma BodySlot(n: Int64, a: StackOperand, calls: bool)
    requires 0 <= n <= 4088
    ensures SlotFor(FrameState(-8 - n, Some(-8), true), a, calls) ==
            if InWindow(n, calls, Local(n, a)) then Some(Local(n, a)) else None
  {
  }

  lemma AcceptedAt(code: Code, n: Int64, body: seq<Op>, at: seq<nat>, calls: bool, i: nat)
    requires Listing(code, Framed(n, body), at) && i < |body| + 5 && (i > 2 ==> 0 <= n <= 4088)
    requires forall op :: op in body ==> Plain(op)
    ensures Accepted(code, calls, at[i], FrameAt(n, |body|, i)) <==> AcceptsAt(n, body, calls, i)
    ensures AcceptsAt(n, body, calls, i) && i < |body| + 4 ==>
              && StateAfter(code, calls, at[i], FrameAt(n, |body|, i)) == FrameAt(n, |body|, i + 1)
              && SuccessorsAfter(code, calls, at[i], FrameAt(n, |body|, i)) == [at[i + 1]]
    ensures AcceptsAt(n, body, calls, i) && i == |body| + 4 ==>
              SuccessorsAfter(code, calls, at[i], FrameAt(n, |body|, i)) == []
  {
    OpOf(n, body, i);
    assert InstructionAt(code, at[i], Framed(n, body)[i], at[i + 1]);
    if 3 <= i < |body| + 3 {
      assert body[i - 3] in body;
      if StackAccess(body[i - 3]).Some? {
        BodySlot(n, StackAccess(body[i - 3]).value, calls);
      }
    }
  }

  /** The frame code in question: a valid table listing the framed body. */
  ghost predicate Frames(code: Code, n: Int64, body: seq<Op>, at: seq<nat>) {
    && code.Valid() && 1 <= |code.table| <= 4096 && code.End() < TWO64
    && Listing(code, Framed(n, body), at)
    && forall op :: op in body ==> Plain(op)
  }

  lemma {:induction false} ArrivesAt(code: Code, n: Int64, body: seq<Op>, at: seq<nat>, calls: bool, i: nat)
    requires Frames(code, n, body, at) && i < |body| + 5
    requires forall j: nat :: j < i ==> AcceptsAt(n, body, calls, j)
    ensures Arrives(code, calls, at[i], FrameAt(n, |body|, i))
  {
    var edges, start := FrameEdges(code, calls), (code.address, ENTRY_FRAME);
    if i == 0 {
      ReachSelf(edges, start);
    } else {
      ArrivesAt(code, n, body, at, calls, i - 1);
      assert AcceptsAt(n, body, calls, i - 1) && (i > 3 ==> AcceptsAt(n, body, calls, 2));
      AcceptedAt(code, n, body, at, calls, i - 1);
      var before, after := (at[i - 1], FrameAt(n, |body|, i - 1)), (at[i], FrameAt(n, |body|, i));
      assert after.0 in SuccessorsAfter(code, calls, before.0, before.1);
      ReachStep(edges, start, before, after);
    }
  }

  ghost predicate Listed(n: Int64, body: seq<Op>, at: seq<nat>, ip: nat, s: FrameState)
    requires |at| == |body| + 6
  {
    exists i: nat :: i < |body| + 5 && ip == at[i] && s == FrameAt(n, |body|, i)
  }

  /** Once all instructions are accepted, the proof arrives at them in order and nowhere else. */
  lemma {:induction false} ArrivesOnly(code: Code, n: Int64, body: seq<Op>, at: seq<nat>, calls: bool,
                                       q: seq<(nat, FrameState)>)
    requires Frames(code, n, body, at) && forall j: nat :: j < |body| + 5 ==> AcceptsAt(n, body, calls, j)
    requires PathFrom(FrameEdges(code, calls), (code.address, ENTRY_FRAME), q)
    ensures Listed(n, body, at, Last(q).0, Last(q).1)
    decreases |q|
  {
    if |q| == 1 {
      assert q[0].0 == at[0] && q[0].1 == FrameAt(n, |body|, 0);
    } else {
      PathFront(FrameEdges(code, calls), (code.address, ENTRY_FRAME), q);
      ArrivesOnly(code, n, body, at, calls, Front(q));
      var i: nat :| i < |body| + 5 && Last(Front(q)).0 == at[i] && Last(Front(q)).1 == FrameAt(n, |body|, i);
      assert AcceptsAt(n, body, calls, 2) && AcceptsAt(n, body, calls, i);
      AcceptedAt(code, n, body, at, calls, i);
      assert Last(q).0 == at[i + 1] && Last(q).1 == FrameAt(n, |body|, i + 1);
    }
  }

  lemma {:induction false} Increasing(code: Code, n: Int64, body: seq<Op>, at: seq<nat>, i: nat, j: nat)
    requires Frames(code, n, body, at) && i < j < |at|
    ensures at[i] < at[j]
    decreases j
  {
    assert InstructionAt(code, at[j - 1], Framed(n, body)[j - 1], at[j]);
    assert code.At(at[j - 1]).length >= 1;
    if i < j - 1 {
      Increasing(code, n, body, at, i, j - 1);
    }
  }

  lemma NoOverlap(code: Code, n: Int64, body: seq<Op>, at: seq<nat>, i: nat, j: nat)
    requires Frames(code, n, body, at) && i < |body| + 5 && j < |body| + 5 && at[i] != at[j]
    ensures !code.Overlap(at[i], at[j])
  {
    var low, high := if i < j then i else j, if i < j then j else i;
    assert InstructionAt(code, at[low], Framed(n, body)[low], at[low + 1]);
    if low + 1 < high {
      Increasing(code, n, body, at, low + 1, high);
    }
  }

  // ----- the locals as a list -----

  lemma {:induction false} InsertGrows(slots: seq<StackSlot>, slot: StackSlot)
    requires Ordered(slots) && slot !in slots
    ensures |InsertSlot(slots, slot)| == |slots| + 1
  {
    if slots != [] && slots[0] != slot && !Before(slot, slots[0]) {
      InsertGrows(slots[1..], slot);
    }
  }

  /** A set of slots in order. */
  lemma {:induction false} InOrder(locals: set<StackSlot>) returns (slots: seq<StackSlot>)
    ensures Ordered(slots) && |slots| == |locals| && forall slot :: slot in slots <==> slot in locals
  {
    if locals == {} {
      slots := [];
    } else {
      var slot :| slot in locals;
      var rest := InOrder(locals - {slot});
      InsertGrows(rest, slot);
      slots := InsertSlot(rest, slot);
    }
  }

  lemma {:induction false} CountListed(locals: set<StackSlot>, slots: seq<StackSlot>)
    requires forall slot :: slot in locals ==> slot in slots
    ensures |locals| <= |slots|
  {
    if slots == [] {
      assert locals == {};
    } else {
      CountListed(locals - {slots[0]}, slots[1..]);
      assert |locals| <= |locals - {slots[0]}| + 1;
    }
  }

  // ----- both directions -----

  lemma FitsAccepts(n: Int64, body: seq<Op>, calls: bool)
    requires Fits(n, body, calls)
    ensures forall j: nat :: j < |body| + 5 ==> AcceptsAt(n, body, calls, j)
  {
    forall j: nat | j < |body| + 5
      ensures AcceptsAt(n, body, calls, j)
    {
      if 3 <= j < |body| + 3 && StackAccess(body[j - 3]).Some? {
        assert Local(n, StackAccess(body[j - 3]).value) in Locals(n, body);
      }
    }
  }

  /** All that arrives is listed, in one frame state each. */
  lemma ArrivalsListed(code: Code, n: Int64, body: seq<Op>, at: seq<nat>, calls: bool)
    requires Frames(code, n, body, at) && forall j: nat :: j < |body| + 5 ==> AcceptsAt(n, body, calls, j)
    ensures forall ip, s :: Arrives(code, calls, ip, s) <==> Listed(n, body, at, ip, s)
  {
    forall ip: nat, s | Listed(n, body, at, ip, s)
      ensures Arrives(code, calls, ip, s)
    {
      var i: nat :| i < |body| + 5 && ip == at[i] && s == FrameAt(n, |body|, i);
      ArrivesAt(code, n, body, at, calls, i);
    }
    forall ip, s | Arrives(code, calls, ip, s)
      ensures Listed(n, body, at, ip, s)
    {
      var q :| PathFrom(FrameEdges(code, calls), (code.address, ENTRY_FRAME), q) && Last(q) == (ip, s);
      ArrivesOnly(code, n, body, at, calls, q);
    }
  }

  lemma ListedAccepted(code: Code, n: Int64, body: seq<Op>, at: seq<nat>, calls: bool, ip: nat, s: FrameState)
    requires Frames(code, n, body, at) && forall j: nat :: j < |body| + 5 ==> AcceptsAt(n, body, calls, j)
    requires Listed(n, body, at, ip, s)
    ensures Accepted(code, calls, ip, s)
    ensures Accesses(code, ip) ==> SlotAt(code, calls, ip, s) in Locals(n, body)
  {
    var i: nat :| i < |body| + 5 && ip == at[i] && s == FrameAt(n, |body|, i);
    assert AcceptsAt(n, body, calls, 2) && AcceptsAt(n, body, calls, i);
    AcceptedAt(code, n, body, at, calls, i);
    if Accesses(code, ip) {
      assert InstructionAt(code, at[i], Framed(n, body)[i], at[i + 1]);
      OpOf(n, body, i);
      assert body[i - 3] in body;
      BodySlot(n, StackAccess(body[i - 3]).value, calls);
    }
  }

  lemma ListedOnce(code: Code, n: Int64, body: seq<Op>, at: seq<nat>, ip: nat, s: FrameState, t: FrameState)
    requires Frames(code, n, body, at) && Listed(n, body, at, ip, s) && Listed(n, body, at, ip, t)
    ensures s == t
  {
    var i: nat :| i < |body| + 5 && ip == at[i] && s == FrameAt(n, |body|, i);
    var j: nat :| j < |body| + 5 && ip == at[j] && t == FrameAt(n, |body|, j);
    if i < j {
      Increasing(code, n, body, at, i, j);
    } else if j < i {
      Increasing(code, n, body, at, j, i);
    }
  }

  lemma ListedDisjoint(code: Code, n: Int64, body: seq<Op>, at: seq<nat>, ip: nat, s: FrameState, other: nat,
                       t: FrameState)
    requires Frames(code, n, body, at) && Listed(n, body, at, ip, s) && Listed(n, body, at, other, t) && ip != other
    ensures !code.Overlap(ip, other)
  {
    var i: nat :| i < |body| + 5 && ip == at[i] && s == FrameAt(n, |body|, i);
    var j: nat :| j < |body| + 5 && other == at[j] && t == FrameAt(n, |body|, j);
    NoOverlap(code, n, body, at, i, j);
  }

  /** The instruction of the body that names a local uses it as its slot. */
  lemma LocalUsed(code: Code, n: Int64, body: seq<Op>, at: seq<nat>, calls: bool, k: nat)
    requires Frames(code, n, body, at) && k < |body| && StackAccess(body[k]).Some?
    requires Arrives(code, calls, at[k + 3], FrameAt(n, |body|, k + 3))
    requires Accepted(code, calls, at[k + 3], FrameAt(n, |body|, k + 3)) && 0 <= n <= 4088
    ensures SlotUsed(code, calls, Local(n, StackAccess(body[k]).value))
  {
    var i := k + 3;
    OpOf(n, body, i);
    assert InstructionAt(code, at[i], Framed(n, body)[i], at[i + 1]);
    BodySlot(n, StackAccess(body[k]).value, calls);
    assert SlotAt(code, calls, at[i], FrameAt(n, |body|, i)) == Local(n, StackAccess(body[k]).value);
  }

  lemma LocalsExact(code: Code, n: Int64, body: seq<Op>, at: seq<nat>, calls: bool)
    requires Frames(code, n, body, at) && Fits(n, body, calls)
    ensures exists slots :: SlotsExact(code, calls, slots)
  {
    FitsAccepts(n, body, calls);
    ArrivalsListed(code, n, body, at, calls);
    var slots := InOrder(Locals(n, body));
    forall slot | slot in Locals(n, body)
      ensures SlotUsed(code, calls, slot)
    {
      var k :| 0 <= k < |body| && StackAccess(body[k]).Some? && Local(n, StackAccess(body[k]).value) == slot;
      assert Listed(n, body, at, at[k + 3], FrameAt(n, |body|, k + 3));
      ListedAccepted(code, n, body, at, calls, at[k + 3], FrameAt(n, |body|, k + 3));
      LocalUsed(code, n, body, at, calls, k);
    }
    forall slot | SlotUsed(code, calls, slot)
      ensures slot in Locals(n, body)
    {
      var ip, s :| Arrives(code, calls, ip, s) && Accepted(code, calls, ip, s) && Accesses(code, ip) &&
                   SlotAt(code, calls, ip, s) == slot;
      ListedAccepted(code, n, body, at, calls, ip, s);
    }
    assert SlotsExact(code, calls, slots);
  }

  lemma FitsProvable(code: Code, n: Int64, body: seq<Op>, at: seq<nat>, calls: bool)
    requires Frames(code, n, body, at) && Fits(n, body, calls)
    ensures Provable(code, calls)
  {
    FitsAccepts(n, body, calls);
    ArrivalsListed(code, n, body, at, calls);
    forall ip, s | Arrives(code, calls, ip, s)
      ensures Accepted(code, calls, ip, s)
    {
      ListedAccepted(code, n, body, at, calls, ip, s);
    }
    forall ip, s, t | Arrives(code, calls, ip, s) && Arrives(code, calls, ip, t)
      ensures s == t
    {
      ListedOnce(code, n, body, at, ip, s, t);
    }
    forall ip, s, other, t | Arrives(code, calls, ip, s) && Arrives(code, calls, other, t) && ip != other
      ensures !code.Overlap(ip, other)
    {
      ListedDisjoint(code, n, body, at, ip, s, other, t);
    }
    LocalsExact(code, n, body, at, calls);
    var last := |body| + 4;
    OpOf(n, body, last);
    assert InstructionAt(code, at[last], Framed(n, body)[last], at[last + 1]);
    assert Listed(n, body, at, at[last], FrameAt(n, |body|, last));
  }

  /** A proof has accepted every instruction. */
  lemma {:induction false} ProvableAccepts(code: Code, n: Int64, body: seq<Op>, at: seq<nat>, calls: bool, i: nat)
    requires Frames(code, n, body, at) && Provable(code, calls) && i <= |body| + 5
    ensures forall j: nat :: j < i ==> AcceptsAt(n, body, calls, j)
  {
    if i > 0 {
      ProvableAccepts(code, n, body, at, calls, i - 1);
      ArrivesAt(code, n, body, at, calls, i - 1);
      assert i - 1 > 2 ==> AcceptsAt(n, body, calls, 2);
      AcceptedAt(code, n, body, at, calls, i - 1);
    }
  }

  lemma ProvableFits(code: Code, n: Int64, body: seq<Op>, at: seq<nat>, calls: bool)
    requires Frames(code, n, body, at) && Provable(code, calls)
    ensures Fits(n, body, calls)
  {
    ProvableAccepts(code, n, body, at, calls, |body| + 5);
    assert AcceptsAt(n, body, calls, 2);
    var slots :| SlotsExact(code, calls, slots);
    forall local | local in Locals(n, body)
      ensures InWindow(n, calls, local) && local in slots
    {
      var k :| 0 <= k < |body| && StackAccess(body[k]).Some? && Local(n, StackAccess(body[k]).value) == local;
      assert AcceptsAt(n, body, calls, k + 3);
      ArrivesAt(code, n, body, at, calls, k + 3);
      AcceptedAt(code, n, body, at, calls, k + 3);
      LocalUsed(code, n, body, at, calls, k);
    }
    CountListed(Locals(n, body), slots);
  }

  /** The standard frame is provable for exactly the sizes and locals that fit. */
  lemma StandardFrameProvable(code: Code, n: Int64, body: seq<Op>, at: seq<nat>, calls: bool)
    requires Frames(code, n, body, at)
    ensures Provable(code, calls) <==> Fits(n, body, calls)
  {
    if Fits(n, body, calls) {
      FitsProvable(code, n, body, at, calls);
    }
    if Provable(code, calls) {
      ProvableFits(code, n, body, at, calls);
    }
  }
}
