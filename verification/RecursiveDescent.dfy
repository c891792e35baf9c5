/**
 Recursive descent from one symbol seed (`recover_seed`, crates/hydir-backend/src/disasm.rs): which
 instructions it recovers, said with the flow kinds and targets themselves, and the gaps it notes.
 */
module RecursiveDescent {
  import opened Wrappers
  import opened Words
  import opened Paths

  datatype Flow =
    | Next | ConditionalBranch | UnconditionalBranch | Call | IndirectBranch | IndirectCall | Return | Unknown

  datatype Decoded = Invalid | Decoded(length: nat, flow: Flow, target: Option<nat>)

  /** A text section: its address and what decoding yields at each of its bytes. */
  datatype Section = Section(address: nat, table: seq<Decoded>) {
    function End(): nat { address + |table| }

    /** Every byte of the section has an address. */
    predicate Valid() { End() < TWO64 }

    predicate Contains(x: nat) { address <= x < End() }

    predicate Decodes(offset: nat) {
      offset < |table| && table[offset].Decoded? && table[offset].length > 0
    }
  }

  datatype Seed = Seed(address: nat, size: nat)

  /** `recovered` tells recursive descent from the linear sweep. */
  datatype Record = Record(length: nat, recovered: bool)

  type Records = map<nat, Record>

  datatype Reason = UndecodableBytes | OverlapsRecoveredCode

  datatype Gap = Gap(address: nat, size: nat, reason: Reason, sweep: bool)

  /** Long invariants are folded, each under its own name: only a proof that mentions the name opens it. */
  datatype Part =
    | Bitmap | GapList | Descent | Growing | Frame | Invariant | Skips | Step | Seeding | Visiting | Tracing | Turning
    | Sweep

  ghost predicate Open(part: Part) { true }

  predicate Covers(g: Gap, x: nat) { g.address <= x < g.address + g.size }

  /** The second gap goes on where the first ends, with the same reason and origin. */
  predicate Continues(g: Gap, next: Gap) {
    g.address + g.size == next.address && g.reason == next.reason && g.sweep == next.sweep
  }

  /** Gaps that continue each other are merged. */
  predicate Merged(gaps: seq<Gap>) {
    forall i | 0 <= i < |gaps| - 1 :: !Continues(gaps[i], gaps[i + 1])
  }

  /** A gap of a seed, for this reason, holds x. */
  ghost predicate Noted(gaps: seq<Gap>, reason: Reason, x: nat) {
    exists i :: 0 <= i < |gaps| && !gaps[i].sweep && gaps[i].reason == reason && Covers(gaps[i], x)
  }

  // ----- what descent seeks -----

  /** One past the last byte of a seed's extent: at least one byte, and none beyond the section. */
  function Extent(section: Section, seed: Seed): nat {
    var end := seed.address + (if seed.size == 0 then 1 else seed.size);
    if end < section.End() then end else section.End()
  }

  predicate DecodesAt(section: Section, x: nat) { section.Contains(x) && section.Decodes(x - section.address) }

  function LengthAt(section: Section, x: nat): nat
    requires DecodesAt(section, x)
  {
    section.table[x - section.address].length
  }

  /** Where control flows from the instruction at a, in the order it is followed: behind it, then to a direct target. */
  function FollowerList(section: Section, a: nat): seq<nat> {
    if !DecodesAt(section, a) then []
    else
      var d := section.table[a - section.address];
      (if d.flow.Next? || d.flow.Call? || d.flow.ConditionalBranch? then [a + d.length] else []) +
      (if (d.flow.ConditionalBranch? || d.flow.UnconditionalBranch?) && d.target.Some? then [d.target.value] else [])
  }

  function Followers(section: Section, a: nat): set<nat> {
    set x | x in FollowerList(section, a)
  }

  ghost function FlowAmong(section: Section, found: set<nat>): nat -> set<nat> {
    (a: nat) => if a in found then Followers(section, a) else {}
  }

  /** x is the seed itself or where control flows from something found. */
  ghost predicate From(section: Section, seed: Seed, found: set<nat>, x: nat) {
    x == seed.address || exists a :: a in found && x in Followers(section, a)
  }

  ghost predicate Sought(section: Section, seed: Seed, found: set<nat>, x: nat) {
    seed.address <= x < Extent(section, seed) && From(section, seed, found, x)
  }

  /** The instruction at x decodes and ends within the seed's extent. */
  predicate FitsExtent(section: Section, seed: Seed, x: nat) {
    DecodesAt(section, x) && x + LengthAt(section, x) <= Extent(section, seed)
  }

  /** The instruction at x would take an occupied byte. */
  ghost predicate Overlapped(section: Section, occupied: seq<bool>, x: nat)
    requires |occupied| == |section.table|
  {
    DecodesAt(section, x) &&
    exists y: nat :: x <= y < x + LengthAt(section, x) && section.Contains(y) && occupied[y - section.address]
  }

  // ----- what descent from a seed finds -----

  /**
   Everything found is reached from the seed through what was found, and whatever is sought is recorded
   unless it does not decode, crosses the extent or overlaps an occupied byte.
   */
  ghost predicate Traced(section: Section, seed: Seed, found: set<nat>, records: Records, occupied: seq<bool>) {
    && |occupied| == |section.table|
    && (forall a :: a in found ==>
          FitsExtent(section, seed, a) && a in records && records[a] == Record(LengthAt(section, a), true))
    && (forall a :: a in found ==> Reachable(FlowAmong(section, found), seed.address, a))
    && (forall x :: Sought(section, seed, found, x) ==>
          x in records || !FitsExtent(section, seed, x) || Overlapped(section, occupied, x))
  }

  ghost predicate Kept(records: Records, records': Records) {
    forall a :: a in records ==> a in records' && records'[a] == records[a]
  }

  /** Descent from one seed: new records are what it found, old ones stay, and what it refused is noted as a gap. */
  ghost predicate DescentFrom(section: Section, seed: Seed, records: Records, gaps: seq<Gap>, records': Records,
                              gaps': seq<Gap>, occupied: seq<bool>) {
    var found := records'.Keys - records.Keys;
    && Traced(section, seed, found, records', occupied) && Kept(records, records')
    && (forall x: nat :: Noted(gaps', UndecodableBytes, x) <==>
          Noted(gaps, UndecodableBytes, x) || (Sought(section, seed, found, x) && !DecodesAt(section, x)))
    && (forall x: nat :: Noted(gaps', OverlapsRecoveredCode, x) <==>
          Noted(gaps, OverlapsRecoveredCode, x) ||
          (Sought(section, seed, found, x) && FitsExtent(section, seed, x) && x !in records'))
  }

  // ----- the order of the descent -----

  ghost predicate InExtent(section: Section, seed: Seed, x: nat) {
    seed.address <= x < Extent(section, seed)
  }

  /** The followers of the instructions taken, in order. */
  ghost function Queued(section: Section, order: seq<nat>, taken: seq<bool>): seq<nat>
    requires |taken| == |order|
  {
    if order == [] then []
    else
      var last := |order| - 1;
      Queued(section, order[..last], taken[..last]) + if taken[last] then FollowerList(section, order[last]) else []
  }

  /** Some instruction taken before turn m has the byte at y. */
  ghost predicate TakenBefore(section: Section, order: seq<nat>, taken: seq<bool>, m: nat, y: nat)
    requires |taken| == |order| && m <= |order|
  {
    exists j :: 0 <= j < m && taken[j] && DecodesAt(section, order[j]) &&
                order[j] <= y < order[j] + LengthAt(section, order[j])
  }

  /** At its turn an address is new, fits the extent, and all its bytes are free. */
  ghost predicate Takes(section: Section, seed: Seed, start: seq<bool>, order: seq<nat>, taken: seq<bool>, m: nat)
    requires |taken| == |order| && m < |order| && |start| == |section.table|
  {
    && order[m] !in order[..m] && InExtent(section, seed, order[m]) && FitsExtent(section, seed, order[m])
    && forall y: nat :: order[m] <= y < order[m] + LengthAt(section, order[m]) && section.Contains(y) ==>
         !start[y - section.address] && !TakenBefore(section, order, taken, m, y)
  }

  ghost predicate InTurn(section: Section, seed: Seed, start: seq<bool>, order: seq<nat>, taken: seq<bool>) {
    && |taken| == |order| && |start| == |section.table|
    && forall m :: 0 <= m < |order| ==> (taken[m] <==> Takes(section, seed, start, order, taken, m))
  }

  ghost predicate TakenAt(order: seq<nat>, taken: seq<bool>, a: nat)
    requires |taken| == |order|
  {
    exists m :: 0 <= m < |order| && taken[m] && order[m] == a
  }

  /** Breadth first: the addresses tried are the seed and then the followers of what is taken, in that order. */
  ghost predicate BreadthFirst(section: Section, seed: Seed, start: seq<bool>, found: set<nat>) {
    exists order: seq<nat>, taken: seq<bool> ::
      && InTurn(section, seed, start, order, taken) && order == [seed.address] + Queued(section, order, taken)
      && forall a :: a in found <==> TakenAt(order, taken, a)
  }

  // ----- one visit -----

  /** Every instruction recorded in the section has its first byte occupied. */
  ghost predicate RecordsOccupied(section: Section, records: Records, occupied: seq<bool>)
    requires |occupied| == |section.table|
  {
    forall a :: a in records && section.Contains(a) ==> occupied[a - section.address]
  }

  ghost predicate SameNotes(gaps: seq<Gap>, gaps': seq<Gap>) {
    forall why, x: nat :: Noted(gaps', why, x) <==> Noted(gaps, why, x)
  }

  ghost predicate OneNote(gaps: seq<Gap>, gaps': seq<Gap>, reason: Reason, at: nat) {
    forall why, x: nat :: Noted(gaps', why, x) <==> Noted(gaps, why, x) || (why == reason && x == at)
  }

  /** The instruction at x is recorded and its bytes become occupied. */
  ghost predicate Recorded(section: Section, x: nat, records: Records, before: seq<bool>, records': Records,
                           next: seq<nat>, after: seq<bool>)
    requires |before| == |section.table| && DecodesAt(section, x)
  {
    && records' == records[x := Record(LengthAt(section, x), true)] && |after| == |before|
    && (forall y: nat :: section.Contains(y) ==>
          (after[y - section.address] <==> before[y - section.address] || x <= y < x + LengthAt(section, x)))
    && next == FollowerList(section, x)
  }

  ghost predicate Refused(records: Records, before: seq<bool>, records': Records, next: seq<nat>, after: seq<bool>) {
    records' == records && next == [] && after == before
  }

  /** What taking one pending address of the extent comes to. */
  ghost predicate VisitOutcome(section: Section, seed: Seed, x: nat, records: Records, gaps: seq<Gap>,
                               before: seq<bool>, records': Records, gaps': seq<Gap>, next: seq<nat>,
                               after: seq<bool>)
    requires |before| == |section.table|
  {
    if !DecodesAt(section, x) then
      Refused(records, before, records', next, after) && OneNote(gaps, gaps', UndecodableBytes, x)
    else if !FitsExtent(section, seed, x) then
      Refused(records, before, records', next, after) && SameNotes(gaps, gaps')
    else if Overlapped(section, before, x) then
      && Refused(records, before, records', next, after)
      && (if x in records then SameNotes(gaps, gaps') else OneNote(gaps, gaps', OverlapsRecoveredCode, x))
    else
      Recorded(section, x, records, before, records', next, after) && SameNotes(gaps, gaps')
  }

  ghost predicate Visited(section: Section, seed: Seed, x: nat, records: Records, gaps: seq<Gap>, before: seq<bool>,
                          records': Records, gaps': seq<Gap>, next: seq<nat>, after: seq<bool>) {
    forall part {:trigger Open(part)} :: Open(part) && part == Visiting ==>
      |before| == |section.table| && VisitOutcome(section, seed, x, records, gaps, before, records', gaps', next, after)
  }

  // ----- the invariant of the descent -----

  /** What has been recorded so far: found by following the flow, each at a place already seen. */
  ghost predicate FoundSoFar(section: Section, seed: Seed, found: set<nat>, records: Records, seen: set<nat>) {
    forall a :: a in found ==>
      && a in seen && FitsExtent(section, seed, a) && a in records && records[a] == Record(LengthAt(section, a), true)
      && Reachable(FlowAmong(section, found), seed.address, a)
  }

  /** What waits or was seen is exactly what flow from the found comes to. */
  ghost predicate Frontier(section: Section, seed: Seed, found: set<nat>, pending: seq<nat>, seen: set<nat>) {
    && (forall x :: x in pending ==> From(section, seed, found, x))
    && (forall x :: x in seen && InExtent(section, seed, x) ==> From(section, seed, found, x))
    && (forall x :: From(section, seed, found, x) ==> x in pending || x in seen)
  }

  ghost predicate Settled(section: Section, seed: Seed, records: Records, occupied: seq<bool>, seen: set<nat>)
    requires |occupied| == |section.table|
  {
    forall x :: x in seen && InExtent(section, seed, x) ==>
      x in records || !FitsExtent(section, seed, x) || Overlapped(section, occupied, x)
  }

  ghost predicate NotesSoFar(section: Section, seed: Seed, gaps: seq<Gap>, records': Records, gaps': seq<Gap>,
                             seen: set<nat>) {
    && (forall x: nat :: Noted(gaps', UndecodableBytes, x) <==>
          Noted(gaps, UndecodableBytes, x) ||
          (x in seen && InExtent(section, seed, x) && !DecodesAt(section, x)))
    && (forall x: nat :: Noted(gaps', OverlapsRecoveredCode, x) <==>
          Noted(gaps, OverlapsRecoveredCode, x) ||
          (x in seen && InExtent(section, seed, x) && FitsExtent(section, seed, x) && x !in records'))
  }

  ghost predicate Tracking(section: Section, seed: Seed, found: set<nat>, records: Records, gaps: seq<Gap>,
                           records': Records, gaps': seq<Gap>, occupied: seq<bool>, pending: seq<nat>, seen: set<nat>) {
    && |occupied| == |section.table| && Kept(records, records') && RecordsOccupied(section, records', occupied)
    && FoundSoFar(section, seed, found, records', seen) && Frontier(section, seed, found, pending, seen)
    && Settled(section, seed, records', occupied, seen)
    && NotesSoFar(section, seed, gaps, records', gaps', seen)
  }

  ghost predicate Tracks(section: Section, seed: Seed, records: Records, gaps: seq<Gap>, records': Records,
                         gaps': seq<Gap>, occupied: seq<bool>, pending: seq<nat>, seen: set<nat>) {
    forall part {:trigger Open(part)} :: Open(part) && part == Tracing ==>
      Tracking(section, seed, records'.Keys - records.Keys, records, gaps, records', gaps', occupied, pending, seen)
  }

  lemma TracksStart(section: Section, seed: Seed, records: Records, gaps: seq<Gap>, occupied: seq<bool>)
    requires |occupied| == |section.table| && RecordsOccupied(section, records, occupied)
    ensures Tracks(section, seed, records, gaps, records, gaps, occupied, [seed.address], {})
  {
    assert records.Keys - records.Keys == {};
  }

  lemma TracksKept(section: Section, seed: Seed, records: Records, gaps: seq<Gap>, records': Records, gaps': seq<Gap>,
                   occupied: seq<bool>, pending: seq<nat>, seen: set<nat>)
    requires Tracks(section, seed, records, gaps, records', gaps', occupied, pending, seen)
    ensures |occupied| == |section.table| && Kept(records, records') && RecordsOccupied(section, records', occupied)
  {
    assert Open(Tracing);
  }

  /** With nothing pending, descent is complete. */
  lemma TracksEnd(section: Section, seed: Seed, records: Records, gaps: seq<Gap>, records': Records, gaps': seq<Gap>,
                  occupied: seq<bool>, seen: set<nat>)
    requires Tracks(section, seed, records, gaps, records', gaps', occupied, [], seen)
    ensures DescentFrom(section, seed, records, gaps, records', gaps', occupied)
    ensures |occupied| == |section.table| && RecordsOccupied(section, records', occupied)
  {
    assert Open(Tracing);
    var found := records'.Keys - records.Keys;
    forall x
      ensures Sought(section, seed, found, x) <==> x in seen && InExtent(section, seed, x)
    {
      assert From(section, seed, found, x) ==> x in [] || x in seen;
    }
  }

  /** An address out of the extent, or seen before, changes nothing. */
  lemma TracksSkip(section: Section, seed: Seed, records: Records, gaps: seq<Gap>, records': Records, gaps': seq<Gap>,
                   occupied: seq<bool>, x: nat, rest: seq<nat>, seen: set<nat>)
    requires Tracks(section, seed, records, gaps, records', gaps', occupied, [x] + rest, seen)
    requires x in seen || !InExtent(section, seed, x)
    ensures Tracks(section, seed, records, gaps, records', gaps', occupied, rest, seen + {x})
  {
    assert Open(Tracing);
    assert forall y :: y in [x] + rest <==> y == x || y in rest;
  }

  // ----- one more address seen, nothing recorded -----

  lemma FrontierSeen(section: Section, seed: Seed, found: set<nat>, x: nat, rest: seq<nat>, seen: set<nat>)
    requires Frontier(section, seed, found, [x] + rest, seen)
    ensures Frontier(section, seed, found, rest, seen + {x})
  {
    assert forall y :: y in [x] + rest <==> y == x || y in rest;
  }

  /** A refused address is settled and noted as its refusal says. */
  lemma RefusedStep(section: Section, seed: Seed, records: Records, gaps: seq<Gap>, r: Records, g: seq<Gap>,
                    g': seq<Gap>, occupied: seq<bool>, x: nat, rest: seq<nat>, seen: set<nat>)
    requires Tracks(section, seed, records, gaps, r, g, occupied, [x] + rest, seen)
    requires x !in seen && InExtent(section, seed, x) && |occupied| == |section.table|
    requires x in r || !FitsExtent(section, seed, x) || Overlapped(section, occupied, x)
    requires if !DecodesAt(section, x) then OneNote(g, g', UndecodableBytes, x)
             else if !FitsExtent(section, seed, x) || x in r then SameNotes(g, g')
             else OneNote(g, g', OverlapsRecoveredCode, x)
    ensures Tracks(section, seed, records, gaps, r, g', occupied, rest, seen + {x})
  {
    assert Open(Tracing);
    FrontierSeen(section, seed, r.Keys - records.Keys, x, rest, seen);
    RefusalNoted(section, seed, gaps, r, g, g', x, seen);
  }

  lemma RefusalNoted(section: Section, seed: Seed, gaps: seq<Gap>, r: Records, g: seq<Gap>, g': seq<Gap>, x: nat,
                     seen: set<nat>)
    requires NotesSoFar(section, seed, gaps, r, g, seen) && InExtent(section, seed, x)
    requires if !DecodesAt(section, x) then OneNote(g, g', UndecodableBytes, x)
             else if !FitsExtent(section, seed, x) || x in r then SameNotes(g, g')
             else OneNote(g, g', OverlapsRecoveredCode, x)
    ensures NotesSoFar(section, seed, gaps, r, g', seen + {x})
  {
  }

  lemma RecordNoted(section: Section, seed: Seed, gaps: seq<Gap>, r: Records, g: seq<Gap>, r': Records, g': seq<Gap>,
                    x: nat, seen: set<nat>)
    requires NotesSoFar(section, seed, gaps, r, g, seen) && x !in seen && DecodesAt(section, x)
    requires r'.Keys == r.Keys + {x} && SameNotes(g, g')
    ensures NotesSoFar(section, seed, gaps, r', g', seen + {x})
  {
  }

  // ----- one instruction recorded -----

  lemma {:induction false} ReachMore(section: Section, found: set<nat>, more: set<nat>, from: nat, p: seq<nat>)
    requires found <= more && PathFrom(FlowAmong(section, found), from, p)
    ensures PathFrom(FlowAmong(section, more), from, p)
  {
    forall i | 0 <= i < |p| - 1
      ensures p[i + 1] in FlowAmong(section, more)(p[i])
    {
      assert p[i + 1] in FlowAmong(section, found)(p[i]);
    }
  }

  lemma ReachesMore(section: Section, found: set<nat>, more: set<nat>, from: nat, a: nat)
    requires found <= more && Reachable(FlowAmong(section, found), from, a)
    ensures Reachable(FlowAmong(section, more), from, a)
  {
    var p: seq<nat> :| PathFrom(FlowAmong(section, found), from, p) && Last(p) == a;
    ReachMore(section, found, more, from, p);
  }

  lemma FoundOneMore(section: Section, seed: Seed, found: set<nat>, records: Records, seen: set<nat>, x: nat)
    requires FoundSoFar(section, seed, found, records, seen) && From(section, seed, found, x)
    requires FitsExtent(section, seed, x) && x !in found
    ensures FoundSoFar(section, seed, found + {x}, records[x := Record(LengthAt(section, x), true)], seen + {x})
  {
    var more := found + {x};
    forall a | a in more
      ensures Reachable(FlowAmong(section, more), seed.address, a)
    {
      if a in found {
        ReachesMore(section, found, more, seed.address, a);
      } else if a == seed.address {
        ReachSelf(FlowAmong(section, more), a);
      } else {
        var before :| before in found && a in Followers(section, before);
        ReachesMore(section, found, more, seed.address, before);
        ReachStep(FlowAmong(section, more), seed.address, before, a);
      }
    }
  }

  lemma FrontierGrows(section: Section, seed: Seed, found: set<nat>, x: nat, rest: seq<nat>, next: seq<nat>,
                      seen: set<nat>)
    requires Frontier(section, seed, found, [x] + rest, seen)
    requires next == FollowerList(section, x)
    ensures Frontier(section, seed, found + {x}, rest + next, seen + {x})
  {
    assert forall y :: y in [x] + rest <==> y == x || y in rest;
    forall y
      ensures From(section, seed, found + {x}, y) <==> From(section, seed, found, y) || y in next
    {
      if y in next {
        assert x in found + {x} && y in Followers(section, x);
      }
      if From(section, seed, found, y) && y != seed.address {
        var a :| a in found && y in Followers(section, a);
        assert a in found + {x};
      }
    }
  }

  lemma StillOverlapped(section: Section, before: seq<bool>, after: seq<bool>, y: nat)
    requires |before| == |after| == |section.table| && Overlapped(section, before, y)
    requires forall o :: 0 <= o < |before| && before[o] ==> after[o]
    ensures Overlapped(section, after, y)
  {
  }

  lemma SettledGrows(section: Section, seed: Seed, records: Records, before: seq<bool>, records': Records,
                     after: seq<bool>, seen: set<nat>)
    requires |before| == |after| == |section.table| && Settled(section, seed, records, before, seen)
    requires records.Keys <= records'.Keys && forall o :: 0 <= o < |before| && before[o] ==> after[o]
    ensures Settled(section, seed, records', after, seen)
  {
    forall x | x in seen && InExtent(section, seed, x) && x !in records' && FitsExtent(section, seed, x)
      ensures Overlapped(section, after, x)
    {
      StillOverlapped(section, before, after, x);
    }
  }

  /** A byte-by-byte reading of the new bitmap. */
  lemma RecordedBits(section: Section, x: nat, records: Records, before: seq<bool>, records': Records,
                     next: seq<nat>, after: seq<bool>)
    requires |before| == |section.table| && DecodesAt(section, x)
    requires Recorded(section, x, records, before, records', next, after) && RecordsOccupied(section, records, before)
    ensures |after| == |section.table| && RecordsOccupied(section, records', after)
    ensures forall o :: 0 <= o < |before| && before[o] ==> after[o]
  {
    forall o | 0 <= o < |before| && before[o]
      ensures after[o]
    {
      assert section.Contains(section.address + o);
    }
  }

  lemma NewAddress(section: Section, records: Records, occupied: seq<bool>, x: nat)
    requires |occupied| == |section.table| && RecordsOccupied(section, records, occupied)
    requires DecodesAt(section, x) && !Overlapped(section, occupied, x)
    ensures x !in records
  {
  }

  lemma RecordedParts(section: Section, seed: Seed, found: set<nat>, records: Records, gaps: seq<Gap>, r: Records,
                      g: seq<Gap>, before: seq<bool>, r': Records, g': seq<Gap>, after: seq<bool>, x: nat,
                      rest: seq<nat>, next: seq<nat>, seen: set<nat>)
    requires Tracking(section, seed, found, records, gaps, r, g, before, [x] + rest, seen)
    requires x !in seen && InExtent(section, seed, x) && x !in r
    requires FitsExtent(section, seed, x)
    requires Recorded(section, x, r, before, r', next, after) && SameNotes(g, g')
    ensures Tracking(section, seed, found + {x}, records, gaps, r', g', after, rest + next, seen + {x})
  {
    assert x in [x] + rest;
    RecordedBits(section, x, r, before, r', next, after);
    FoundOneMore(section, seed, found, r, seen, x);
    FrontierGrows(section, seed, found, x, rest, next, seen);
    SettledGrows(section, seed, r, before, r', after, seen);
    RecordNoted(section, seed, gaps, r, g, r', g', x, seen);
  }

  lemma RecordedStep(section: Section, seed: Seed, records: Records, gaps: seq<Gap>, r: Records, g: seq<Gap>,
                     before: seq<bool>, r': Records, g': seq<Gap>, after: seq<bool>, x: nat, rest: seq<nat>,
                     next: seq<nat>, seen: set<nat>)
    requires Tracks(section, seed, records, gaps, r, g, before, [x] + rest, seen)
    requires x !in seen && InExtent(section, seed, x) && |before| == |section.table|
    requires FitsExtent(section, seed, x) && !Overlapped(section, before, x)
    requires Recorded(section, x, r, before, r', next, after) && SameNotes(g, g')
    ensures Tracks(section, seed, records, gaps, r', g', after, rest + next, seen + {x})
  {
    var found := r.Keys - records.Keys;
    assert Tracking(section, seed, found, records, gaps, r, g, before, [x] + rest, seen) by {
      assert Open(Tracing);
    }
    NewAddress(section, r, before, x);
    RecordedParts(section, seed, found, records, gaps, r, g, before, r', g', after, x, rest, next, seen);
    assert r'.Keys - records.Keys == found + {x};
  }

  /** One visit keeps the invariant of the descent. */
  lemma TracksStep(section: Section, seed: Seed, records: Records, gaps: seq<Gap>, r: Records, g: seq<Gap>,
                   before: seq<bool>, r': Records, g': seq<Gap>, after: seq<bool>, x: nat, rest: seq<nat>,
                   next: seq<nat>, seen: set<nat>)
    requires Tracks(section, seed, records, gaps, r, g, before, [x] + rest, seen)
    requires x !in seen && InExtent(section, seed, x)
    requires Visited(section, seed, x, r, g, before, r', g', next, after)
    ensures Tracks(section, seed, records, gaps, r', g', after, rest + next, seen + {x})
  {
    assert Open(Visiting);
    if FitsExtent(section, seed, x) && !Overlapped(section, before, x) {
      RecordedStep(section, seed, records, gaps, r, g, before, r', g', after, x, rest, next, seen);
    } else {
      RefusedStep(section, seed, records, gaps, r, g, g', before, x, rest, seen);
      assert rest + next == rest;
    }
  }

  // ----- the order, turn by turn -----

  /** The bitmap is what was occupied at the start and what the turns took. */
  ghost predicate BitsShow(section: Section, start: seq<bool>, occupied: seq<bool>, order: seq<nat>, taken: seq<bool>)
    requires |start| == |section.table| == |occupied| && |taken| == |order|
  {
    forall y: nat :: section.Contains(y) ==>
      (occupied[y - section.address] <==>
        start[y - section.address] || TakenBefore(section, order, taken, |order|, y))
  }

  ghost predicate TurnsSoFar(section: Section, seed: Seed, start: seq<bool>, found: set<nat>, occupied: seq<bool>,
                             order: seq<nat>, taken: seq<bool>, pending: seq<nat>, seen: set<nat>) {
    && InTurn(section, seed, start, order, taken) && |occupied| == |start|
    && BitsShow(section, start, occupied, order, taken)
    && order + pending == [seed.address] + Queued(section, order, taken)
    && (forall a :: a in seen <==> a in order)
    && (forall a :: a in found <==> TakenAt(order, taken, a))
  }

  /** The turns so far, with what still waits, make up the queue; the bitmap shows what they took. */
  ghost predicate Turns(section: Section, seed: Seed, start: seq<bool>, records: Records, records': Records,
                        occupied: seq<bool>, order: seq<nat>, taken: seq<bool>, pending: seq<nat>, seen: set<nat>) {
    forall part {:trigger Open(part)} :: Open(part) && part == Turning ==>
      TurnsSoFar(section, seed, start, records'.Keys - records.Keys, occupied, order, taken, pending, seen)
  }

  lemma TurnsStart(section: Section, seed: Seed, records: Records, start: seq<bool>)
    requires |start| == |section.table|
    ensures Turns(section, seed, start, records, records, start, [], [], [seed.address], {})
  {
    assert records.Keys - records.Keys == {};
  }

  lemma TurnsEnd(section: Section, seed: Seed, start: seq<bool>, records: Records, records': Records,
                 occupied: seq<bool>, order: seq<nat>, taken: seq<bool>, seen: set<nat>)
    requires Turns(section, seed, start, records, records', occupied, order, taken, [], seen)
    ensures BreadthFirst(section, seed, start, records'.Keys - records.Keys)
  {
    assert Open(Turning);
    var none: seq<nat> := [];
    assert order + none == order;
  }

  lemma QueuedNext(section: Section, order: seq<nat>, taken: seq<bool>, x: nat, take: bool)
    requires |taken| == |order|
    ensures Queued(section, order + [x], taken + [take]) ==
            Queued(section, order, taken) + if take then FollowerList(section, x) else []
  {
    assert (order + [x])[..|order|] == order && (taken + [take])[..|taken|] == taken;
  }

  lemma TakenBeforeSame(section: Section, order: seq<nat>, taken: seq<bool>, x: nat, take: bool, m: nat, y: nat)
    requires |taken| == |order| && m <= |order|
    ensures TakenBefore(section, order + [x], taken + [take], m, y) <==> TakenBefore(section, order, taken, m, y)
  {
    var more, flags := order + [x], taken + [take];
    assert forall j :: 0 <= j < m ==> more[j] == order[j] && flags[j] == taken[j];
  }

  lemma TakenBeforeNext(section: Section, order: seq<nat>, taken: seq<bool>, x: nat, take: bool, y: nat)
    requires |taken| == |order|
    ensures TakenBefore(section, order + [x], taken + [take], |order| + 1, y) <==>
            TakenBefore(section, order, taken, |order|, y) ||
            (take && DecodesAt(section, x) && x <= y < x + LengthAt(section, x))
  {
    var more, flags := order + [x], taken + [take];
    TakenBeforeSame(section, order, taken, x, take, |order|, y);
    assert more[|order|] == x && flags[|order|] == take;
  }

  /** An address's turn depends only on the turns before it. */
  lemma SameTurn(section: Section, seed: Seed, start: seq<bool>, order: seq<nat>, taken: seq<bool>, x: nat, take: bool,
                 m: nat)
    requires |taken| == |order| && m < |order| && |start| == |section.table|
    ensures Takes(section, seed, start, order + [x], taken + [take], m) <==>
            Takes(section, seed, start, order, taken, m)
  {
    assert (order + [x])[..m] == order[..m];
    forall y: nat
      ensures TakenBefore(section, order + [x], taken + [take], m, y) <==> TakenBefore(section, order, taken, m, y)
    {
      TakenBeforeSame(section, order, taken, x, take, m, y);
    }
  }

  /** What the next address's turn comes to. */
  ghost predicate Takeable(section: Section, seed: Seed, start: seq<bool>, order: seq<nat>, taken: seq<bool>, x: nat)
    requires |taken| == |order| && |start| == |section.table|
  {
    && x !in order && InExtent(section, seed, x) && FitsExtent(section, seed, x)
    && forall y: nat :: x <= y < x + LengthAt(section, x) && section.Contains(y) ==>
         !start[y - section.address] && !TakenBefore(section, order, taken, |order|, y)
  }

  lemma LastTurn(section: Section, seed: Seed, start: seq<bool>, order: seq<nat>, taken: seq<bool>, x: nat, take: bool)
    requires |taken| == |order| && |start| == |section.table|
    ensures Takes(section, seed, start, order + [x], taken + [take], |order|) <==>
            Takeable(section, seed, start, order, taken, x)
  {
    assert (order + [x])[..|order|] == order;
    forall y: nat
      ensures TakenBefore(section, order + [x], taken + [take], |order|, y) <==>
              TakenBefore(section, order, taken, |order|, y)
    {
      TakenBeforeSame(section, order, taken, x, take, |order|, y);
    }
  }

  lemma InTurnNext(section: Section, seed: Seed, start: seq<bool>, order: seq<nat>, taken: seq<bool>, x: nat,
                   take: bool)
    requires InTurn(section, seed, start, order, taken)
    requires take <==> Takeable(section, seed, start, order, taken, x)
    ensures InTurn(section, seed, start, order + [x], taken + [take])
  {
    LastTurn(section, seed, start, order, taken, x, take);
    forall m | 0 <= m < |order|
      ensures (taken + [take])[m] <==> Takes(section, seed, start, order + [x], taken + [take], m)
    {
      SameTurn(section, seed, start, order, taken, x, take, m);
    }
  }

  lemma TakenAtNext(order: seq<nat>, taken: seq<bool>, x: nat, take: bool, a: nat)
    requires |taken| == |order|
    ensures TakenAt(order + [x], taken + [take], a) <==> TakenAt(order, taken, a) || (take && a == x)
  {
    var more, flags := order + [x], taken + [take];
    assert forall j :: 0 <= j < |order| ==> more[j] == order[j] && flags[j] == taken[j];
    assert more[|order|] == x && flags[|order|] == take;
  }

  /** Taking x off the queue and putting its followers behind. */
  lemma QueueMoves(section: Section, seed: Seed, order: seq<nat>, taken: seq<bool>, x: nat, take: bool, rest: seq<nat>,
                   next: seq<nat>)
    requires |taken| == |order| && order + ([x] + rest) == [seed.address] + Queued(section, order, taken)
    requires next == if take then FollowerList(section, x) else []
    ensures (order + [x]) + (rest + next) == [seed.address] + Queued(section, order + [x], taken + [take])
  {
    QueuedNext(section, order, taken, x, take);
    var queue := Queued(section, order, taken);
    assert (order + [x]) + (rest + next) == (order + ([x] + rest)) + next;
    assert ([seed.address] + queue) + next == [seed.address] + (queue + next);
  }

  lemma SeenNext(order: seq<nat>, seen: set<nat>, x: nat)
    requires forall a :: a in seen <==> a in order
    ensures forall a :: a in seen + {x} <==> a in order + [x]
  {
  }

  /** One more turn. */
  lemma NextTurn(section: Section, seed: Seed, start: seq<bool>, found: set<nat>, before: seq<bool>, found': set<nat>,
                 after: seq<bool>, order: seq<nat>, taken: seq<bool>, x: nat, take: bool, rest: seq<nat>,
                 next: seq<nat>, seen: set<nat>)
    requires TurnsSoFar(section, seed, start, found, before, order, taken, [x] + rest, seen)
    requires take <==> x !in seen && InExtent(section, seed, x) && FitsExtent(section, seed, x) &&
                       !Overlapped(section, before, x)
    requires |after| == |before| && next == if take then FollowerList(section, x) else []
    requires forall a :: a in found' <==> a in found || (take && a == x)
    requires forall y: nat :: section.Contains(y) ==>
      (after[y - section.address] <==>
        before[y - section.address] || (take && DecodesAt(section, x) && x <= y < x + LengthAt(section, x)))
    ensures TurnsSoFar(section, seed, start, found', after, order + [x], taken + [take], rest + next, seen + {x})
  {
    QueueMoves(section, seed, order, taken, x, take, rest, next);
    FreeIsTakeable(section, seed, start, before, order, taken, x);
    InTurnNext(section, seed, start, order, taken, x, take);
    BitsNext(section, start, before, after, order, taken, x, take);
    SeenNext(order, seen, x);
    forall a
      ensures TakenAt(order + [x], taken + [take], a) <==> TakenAt(order, taken, a) || (take && a == x)
    {
      TakenAtNext(order, taken, x, take, a);
    }
  }

  lemma FreeIsTakeable(section: Section, seed: Seed, start: seq<bool>, occupied: seq<bool>, order: seq<nat>,
                       taken: seq<bool>, x: nat)
    requires |start| == |section.table| == |occupied| && |taken| == |order|
    requires BitsShow(section, start, occupied, order, taken)
    ensures Takeable(section, seed, start, order, taken, x) <==>
            && x !in order && InExtent(section, seed, x) && FitsExtent(section, seed, x)
            && !Overlapped(section, occupied, x)
  {
  }

  lemma BitsNext(section: Section, start: seq<bool>, before: seq<bool>, after: seq<bool>, order: seq<nat>,
                 taken: seq<bool>, x: nat, take: bool)
    requires |start| == |section.table| == |before| == |after| && |taken| == |order|
    requires BitsShow(section, start, before, order, taken)
    requires forall y: nat :: section.Contains(y) ==>
      (after[y - section.address] <==>
        before[y - section.address] || (take && DecodesAt(section, x) && x <= y < x + LengthAt(section, x)))
    ensures BitsShow(section, start, after, order + [x], taken + [take])
  {
    forall y: nat | section.Contains(y)
      ensures after[y - section.address] <==>
              start[y - section.address] || TakenBefore(section, order + [x], taken + [take], |order| + 1, y)
    {
      TakenBeforeNext(section, order, taken, x, take, y);
    }
  }

  /** A turn that is skipped takes nothing. */
  lemma TurnsSkip(section: Section, seed: Seed, start: seq<bool>, records: Records, records': Records,
                  occupied: seq<bool>, order: seq<nat>, taken: seq<bool>, x: nat, rest: seq<nat>, seen: set<nat>)
    requires Turns(section, seed, start, records, records', occupied, order, taken, [x] + rest, seen)
    requires x in seen || !InExtent(section, seed, x)
    ensures Turns(section, seed, start, records, records', occupied, order + [x], taken + [false], rest, seen + {x})
  {
    assert Open(Turning);
    var found, none: seq<nat> := records'.Keys - records.Keys, [];
    NextTurn(section, seed, start, found, occupied, found, occupied, order, taken, x, false, rest, none, seen);
    assert rest + none == rest;
  }

  /** A visit takes the address exactly when its turn says so. */
  lemma TurnsVisit(section: Section, seed: Seed, start: seq<bool>, records: Records, r: Records, g: seq<Gap>,
                   before: seq<bool>, r': Records, g': seq<Gap>, after: seq<bool>, order: seq<nat>, taken: seq<bool>,
                   x: nat, rest: seq<nat>, next: seq<nat>, seen: set<nat>)
    requires Turns(section, seed, start, records, r, before, order, taken, [x] + rest, seen)
    requires x !in seen && InExtent(section, seed, x) && |before| == |section.table|
    requires Visited(section, seed, x, r, g, before, r', g', next, after)
    requires Kept(records, r) && RecordsOccupied(section, r, before)
    ensures Turns(section, seed, start, records, r', after, order + [x],
                  taken + [FitsExtent(section, seed, x) && !Overlapped(section, before, x)], rest + next, seen + {x})
  {
    assert Open(Turning) && Open(Visiting);
    var take := FitsExtent(section, seed, x) && !Overlapped(section, before, x);
    var found, found' := r.Keys - records.Keys, r'.Keys - records.Keys;
    if take {
      NewAddress(section, r, before, x);
    }
    NextTurn(section, seed, start, found, before, found', after, order, taken, x, take, rest, next, seen);
  }

  // ----- both invariants together -----

  /** What descent keeps: where it stands, and in which order it got there. */
  ghost predicate Follows(section: Section, seed: Seed, start: seq<bool>, records: Records, gaps: seq<Gap>,
                          records': Records, gaps': seq<Gap>, occupied: seq<bool>, order: seq<nat>, taken: seq<bool>,
                          pending: seq<nat>, seen: set<nat>) {
    && Tracks(section, seed, records, gaps, records', gaps', occupied, pending, seen)
    && Turns(section, seed, start, records, records', occupied, order, taken, pending, seen)
  }

  lemma FollowsStart(section: Section, seed: Seed, records: Records, gaps: seq<Gap>, start: seq<bool>)
    requires |start| == |section.table| && RecordsOccupied(section, records, start)
    ensures Follows(section, seed, start, records, gaps, records, gaps, start, [], [], [seed.address], {})
  {
    TracksStart(section, seed, records, gaps, start);
    TurnsStart(section, seed, records, start);
  }

  lemma FollowsSkip(section: Section, seed: Seed, start: seq<bool>, records: Records, gaps: seq<Gap>, r: Records,
                    g: seq<Gap>, occupied: seq<bool>, order: seq<nat>, taken: seq<bool>, x: nat, rest: seq<nat>,
                    seen: set<nat>)
    requires Follows(section, seed, start, records, gaps, r, g, occupied, order, taken, [x] + rest, seen)
    requires x in seen || !InExtent(section, seed, x)
    ensures Follows(section, seed, start, records, gaps, r, g, occupied, order + [x], taken + [false], rest, seen + {x})
  {
    TracksSkip(section, seed, records, gaps, r, g, occupied, x, rest, seen);
    TurnsSkip(section, seed, start, records, r, occupied, order, taken, x, rest, seen);
  }

  lemma FollowsVisit(section: Section, seed: Seed, start: seq<bool>, records: Records, gaps: seq<Gap>, r: Records,
                     g: seq<Gap>, before: seq<bool>, r': Records, g': seq<Gap>, after: seq<bool>, order: seq<nat>,
                     taken: seq<bool>, x: nat, rest: seq<nat>, next: seq<nat>, seen: set<nat>)
    returns (taken': seq<bool>)
    requires Follows(section, seed, start, records, gaps, r, g, before, order, taken, [x] + rest, seen)
    requires x !in seen && InExtent(section, seed, x)
    requires Visited(section, seed, x, r, g, before, r', g', next, after)
    ensures Follows(section, seed, start, records, gaps, r', g', after, order + [x], taken', rest + next, seen + {x})
  {
    TracksKept(section, seed, records, gaps, r, g, before, [x] + rest, seen);
    TurnsVisit(section, seed, start, records, r, g, before, r', g', after, order, taken, x, rest, next, seen);
    TracksStep(section, seed, records, gaps, r, g, before, r', g', after, x, rest, next, seen);
    taken' := taken + [FitsExtent(section, seed, x) && !Overlapped(section, before, x)];
  }

  lemma FollowsEnd(section: Section, seed: Seed, start: seq<bool>, records: Records, gaps: seq<Gap>, records': Records,
                   gaps': seq<Gap>, occupied: seq<bool>, order: seq<nat>, taken: seq<bool>, seen: set<nat>)
    requires Follows(section, seed, start, records, gaps, records', gaps', occupied, order, taken, [], seen)
    ensures DescentFrom(section, seed, records, gaps, records', gaps', occupied)
    ensures BreadthFirst(section, seed, start, records'.Keys - records.Keys)
    ensures |occupied| == |section.table| && RecordsOccupied(section, records', occupied)
  {
    TracksEnd(section, seed, records, gaps, records', gaps', occupied, seen);
    TurnsEnd(section, seed, start, records, records', occupied, order, taken, seen);
  }

  // ----- all seeds of a section -----

  lemma TracedKept(section: Section, seed: Seed, found: set<nat>, records: Records, before: seq<bool>,
                   records': Records, after: seq<bool>)
    requires Traced(section, seed, found, records, before) && Kept(records, records') && |after| == |before|
    requires forall o :: 0 <= o < |before| && before[o] ==> after[o]
    ensures Traced(section, seed, found, records', after)
  {
    forall x | Sought(section, seed, found, x) && x !in records' && FitsExtent(section, seed, x)
      ensures Overlapped(section, after, x)
    {
      StillOverlapped(section, before, after, x);
    }
  }

  /** What descent found from each seed so far: together exactly the new records. */
  ghost predicate SeedsTraced(section: Section, seeds: seq<Seed>, founds: seq<set<nat>>, start: Records,
                              records: Records, occupied: seq<bool>) {
    && |founds| == |seeds| && |occupied| == |section.table|
    && Kept(start, records) && RecordsOccupied(section, records, occupied)
    && (forall a :: a in records && a !in start ==> FoundBy(founds, a))
    && (forall i, a :: 0 <= i < |founds| && a in founds[i] ==> a in records && a !in start)
    && (forall i :: 0 <= i < |seeds| ==>
          if section.address <= seeds[i].address then Traced(section, seeds[i], founds[i], records, occupied)
          else founds[i] == {})
  }

  ghost predicate FoundBy(founds: seq<set<nat>>, a: nat) {
    exists i :: 0 <= i < |founds| && a in founds[i]
  }

  lemma FoundByMore(founds: seq<set<nat>>, found: set<nat>, a: nat)
    ensures FoundBy(founds + [found], a) <==> FoundBy(founds, a) || a in found
  {
    var more := founds + [found];
    if FoundBy(founds, a) {
      var i :| 0 <= i < |founds| && a in founds[i];
      assert a in more[i];
    }
    if a in found {
      assert a in more[|founds|];
    }
  }

  /** One more seed inside the section. */
  lemma TracedStep(section: Section, seeds: seq<Seed>, founds: seq<set<nat>>, start: Records, seed: Seed,
                   records: Records, gaps: seq<Gap>, before: seq<bool>, records': Records, gaps': seq<Gap>,
                   after: seq<bool>)
    requires SeedsTraced(section, seeds, founds, start, records, before) && section.address <= seed.address
    requires DescentFrom(section, seed, records, gaps, records', gaps', after)
    requires RecordsOccupied(section, records', after)
    requires forall o :: 0 <= o < |before| && before[o] ==> after[o]
    ensures SeedsTraced(section, seeds + [seed], founds + [records'.Keys - records.Keys], start, records', after)
  {
    var found := records'.Keys - records.Keys;
    forall a
      ensures FoundBy(founds + [found], a) <==> FoundBy(founds, a) || a in found
    {
      FoundByMore(founds, found, a);
    }
    forall i | 0 <= i < |seeds| && section.address <= seeds[i].address
      ensures Traced(section, seeds[i], founds[i], records', after)
    {
      TracedKept(section, seeds[i], founds[i], records, before, records', after);
    }
  }

  /** One more seed below the section that does nothing. */
  lemma TracedSkip(section: Section, seeds: seq<Seed>, founds: seq<set<nat>>, start: Records, seed: Seed,
                   records: Records, occupied: seq<bool>)
    requires SeedsTraced(section, seeds, founds, start, records, occupied) && seed.address < section.address
    ensures SeedsTraced(section, seeds + [seed], founds + [{}], start, records, occupied)
  {
    forall a
      ensures FoundBy(founds + [{}], a) <==> FoundBy(founds, a)
    {
      FoundByMore(founds, {}, a);
    }
  }

  // ----- a finished section -----

  /** A recovered instruction of the section takes the byte at y. */
  ghost predicate RecoveredByte(section: Section, records: Records, y: nat) {
    exists a :: a in records && section.Contains(a) && records[a].recovered && a <= y < a + records[a].length
  }

  /** The instruction at x would run into a recovered one. */
  ghost predicate Collided(section: Section, records: Records, x: nat) {
    DecodesAt(section, x) && exists y: nat :: x <= y < x + LengthAt(section, x) && RecoveredByte(section, records, y)
  }

  ghost predicate IsRecovered(records: Records, a: nat) { a in records && records[a].recovered }

  /** Descent from a seed inside the section, as its finished records show it. */
  ghost predicate DescendedFrom(section: Section, seed: Seed, found: set<nat>, records: Records) {
    && (forall a :: a in found ==>
          FitsExtent(section, seed, a) && Reachable(FlowAmong(section, found), seed.address, a))
    && (forall x :: Sought(section, seed, found, x) ==>
          IsRecovered(records, x) || !FitsExtent(section, seed, x) || Collided(section, records, x))
  }

  /** A record of the section counts as recovered exactly when descent from one of the seeds found it. */
  ghost predicate DescentExact(section: Section, seeds: seq<Seed>, founds: seq<set<nat>>, records: Records) {
    && |founds| == |seeds|
    && (forall a :: section.Contains(a) ==> (IsRecovered(records, a) <==> FoundBy(founds, a)))
    && (forall i :: 0 <= i < |seeds| ==>
          if section.address <= seeds[i].address then DescendedFrom(section, seeds[i], founds[i], records)
          else founds[i] == {})
  }

  ghost predicate RecoveredExactly(section: Section, seeds: seq<Seed>, records: Records) {
    exists founds: seq<set<nat>> :: DescentExact(section, seeds, founds, records)
  }

  /** Work on other sections leaves this one's descent alone. */
  lemma RecoveredKept(section: Section, seeds: seq<Seed>, records: Records, records': Records)
    requires RecoveredExactly(section, seeds, records)
    requires forall a :: section.Contains(a) ==>
      (a in records' <==> a in records) && (a in records ==> records'[a] == records[a])
    ensures RecoveredExactly(section, seeds, records')
  {
    var founds :| DescentExact(section, seeds, founds, records);
    forall y: nat | RecoveredByte(section, records, y)
      ensures RecoveredByte(section, records', y)
    {
      var a :| a in records && section.Contains(a) && records[a].recovered && a <= y < a + records[a].length;
      assert a in records';
    }
    forall i, x | 0 <= i < |seeds| && section.address <= seeds[i].address && Sought(section, seeds[i], founds[i], x)
      ensures IsRecovered(records', x) || !FitsExtent(section, seeds[i], x) || Collided(section, records', x)
    {
      assert section.Contains(x);
    }
    assert DescentExact(section, seeds, founds, records');
  }
}
