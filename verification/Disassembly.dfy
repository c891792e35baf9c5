/**
 Disassembly of text sections (crates/hydir-backend/src/disasm.rs): recursive descent from symbol
 seeds, then a linear sweep over what is left; a bitmap says which bytes instructions occupy.
 */
module Disassembly {
  import opened Wrappers
  import opened Words
  import opened RecursiveDescent

  const MAX_DISASSEMBLY_INSTRUCTIONS: nat := 1_000_000

  datatype DisassemblyError = TooManyInstructions

  // ----- what the result means -----

  /** An instruction placed in this section takes the byte at x. */
  ghost predicate Taken(placed: set<nat>, records: Records, x: nat) {
    exists a :: a in placed && a in records && a <= x < a + records[a].length
  }

  /** The bitmap is the union of the placed instructions, which lie in the section and do not overlap. */
  ghost predicate Exact(section: Section, placed: set<nat>, records: Records, occupied: seq<bool>) {
    forall part {:trigger Open(part)} :: Open(part) && part == Bitmap ==> Union(section, placed, records, occupied)
  }

  ghost predicate Union(section: Section, placed: set<nat>, records: Records, occupied: seq<bool>) {
    && |occupied| == |section.table|
    && (forall a :: a in placed ==> a in records && section.address <= a && a + records[a].length <= section.End())
    && (forall a :: a in placed ==> a in records && section.Decodes(a - section.address) &&
                                    records[a].length == section.table[a - section.address].length)
    && (forall a, b :: a in placed && b in placed && a < b ==> a in records && a + records[a].length <= b)
    && (forall x: nat :: section.Contains(x) ==> (Occupied(section, occupied, x) <==> Taken(placed, records, x)))
  }

  predicate Occupied(section: Section, occupied: seq<bool>, x: nat)
    requires |occupied| == |section.table| && section.Contains(x)
  {
    occupied[x - section.address]
  }

  /** A gap left by the linear sweep for this reason holds x. */
  ghost predicate Swept(gaps: seq<Gap>, reason: Reason, x: nat) {
    exists i :: 0 <= i < |gaps| && gaps[i].sweep && gaps[i].reason == reason && Covers(gaps[i], x)
  }

  ghost predicate InGap(gaps: seq<Gap>, x: nat) {
    Swept(gaps, UndecodableBytes, x) || Swept(gaps, OverlapsRecoveredCode, x)
  }

  /** No byte is in two sweep gaps. */
  ghost predicate GapsApart(gaps: seq<Gap>) {
    forall i, j, x: nat :: 0 <= i < j < |gaps| && gaps[i].sweep && gaps[j].sweep && Covers(gaps[i], x) ==>
      !Covers(gaps[j], x)
  }

  /** The instruction that would start at x leaves the section or runs into a placed one. */
  ghost predicate Collides(section: Section, placed: set<nat>, records: Records, x: nat) {
    section.Contains(x) && section.Decodes(x - section.address) &&
    var end := x + section.table[x - section.address].length;
    end > section.End() || exists y: nat :: x <= y < end && Taken(placed, records, y)
  }

  /** Every byte is in exactly one instruction or sweep gap, and each gap's reason is right. */
  ghost predicate Partitioned(section: Section, placed: set<nat>, records: Records, gaps: seq<Gap>) {
    && (forall a :: a in placed ==> a in records && section.address <= a && a + records[a].length <= section.End())
    && (forall a, b :: a in placed && b in placed && a < b ==> a in records && a + records[a].length <= b)
    && (forall x: nat :: section.Contains(x) ==> (Taken(placed, records, x) <==> !InGap(gaps, x)))
    && (forall x: nat :: section.Contains(x) && Swept(gaps, UndecodableBytes, x) ==>
      !section.Decodes(x - section.address))
    && (forall x: nat :: section.Contains(x) && Swept(gaps, OverlapsRecoveredCode, x) ==>
      Collides(section, placed, records, x))
  }

  // ----- gaps -----

  /** The sweep gaps cover what they did and, for a sweep, the new range; they stay apart if it was free. */
  ghost predicate Appended(gaps: seq<Gap>, address: nat, size: nat, reason: Reason, sweep: bool, r: seq<Gap>) {
    forall part {:trigger Open(part)} :: Open(part) && part == GapList ==>
      && (forall why, x: nat :: Swept(r, why, x) <==>
            Swept(gaps, why, x) || (sweep && why == reason && address <= x < address + size))
      && (forall why, x: nat :: Noted(r, why, x) <==>
            Noted(gaps, why, x) || (!sweep && why == reason && address <= x < address + size))
      && (GapsApart(gaps) && (sweep ==> forall x: nat :: address <= x < address + size ==> !InGap(gaps, x)) ==>
        GapsApart(r))
  }

  method AppendGap(gaps: seq<Gap>, address: nat, size: nat, reason: Reason, sweep: bool) returns (r: seq<Gap>)
    ensures Appended(gaps, address, size, reason, sweep, r)
    ensures Merged(gaps) ==> Merged(r)
  {
    if size == 0 {
      return gaps;
    }
    if gaps != [] {
      var last := |gaps| - 1;
      var previous := gaps[last];
      if previous.address + previous.size == address && previous.reason == reason && previous.sweep == sweep {
        r := gaps[last := previous.(size := previous.size + size)];
        ExtendedGap(gaps, r, address, size, reason, sweep);
        return;
      }
    }
    r := gaps + [Gap(address, size, reason, sweep)];
    NewGap(gaps, r, address, size, reason, sweep);
  }

  lemma ExtendedGap(gaps: seq<Gap>, r: seq<Gap>, address: nat, size: nat, reason: Reason, sweep: bool)
    requires gaps != []
    requires var previous := gaps[|gaps| - 1];
             && previous.address + previous.size == address && previous.reason == reason && previous.sweep == sweep
             && r == gaps[|gaps| - 1 := previous.(size := previous.size + size)]
    ensures Appended(gaps, address, size, reason, sweep, r)
  {
    var last := |gaps| - 1;
    forall i, x: nat | 0 <= i < |r|
      ensures r[i].sweep == gaps[i].sweep && r[i].reason == gaps[i].reason
      ensures Covers(r[i], x) <==> Covers(gaps[i], x) || (i == last && address <= x < address + size)
    {
    }
    GapsFollow(gaps, r, last, address, size, reason, sweep);
  }

  lemma NewGap(gaps: seq<Gap>, r: seq<Gap>, address: nat, size: nat, reason: Reason, sweep: bool)
    requires r == gaps + [Gap(address, size, reason, sweep)]
    ensures Appended(gaps, address, size, reason, sweep, r)
  {
    var padded := gaps + [Gap(address, 0, reason, sweep)];
    forall why, x: nat
      ensures Swept(padded, why, x) <==> Swept(gaps, why, x)
    {
      if Swept(gaps, why, x) {
        var i :| 0 <= i < |gaps| && gaps[i].sweep && gaps[i].reason == why && Covers(gaps[i], x);
        assert padded[i] == gaps[i];
      }
    }
    SameNoted(gaps, padded, Gap(address, 0, reason, sweep));
    forall i, x: nat | 0 <= i < |r|
      ensures r[i].sweep == padded[i].sweep && r[i].reason == padded[i].reason
      ensures Covers(r[i], x) <==> Covers(padded[i], x) || (i == |gaps| && address <= x < address + size)
    {
    }
    if GapsApart(gaps) {
      forall i, j, x: nat | 0 <= i < j < |padded| && padded[i].sweep && padded[j].sweep && Covers(padded[i], x)
        ensures !Covers(padded[j], x)
      {
        assert j < |gaps| ==> padded[i] == gaps[i] && padded[j] == gaps[j];
      }
      assert GapsApart(padded);
      assert forall x: nat :: InGap(padded, x) <==> InGap(gaps, x);
    }
    GapsFollow(padded, r, |gaps|, address, size, reason, sweep);
  }

  /** An empty gap notes nothing. */
  lemma SameNoted(gaps: seq<Gap>, padded: seq<Gap>, empty: Gap)
    requires padded == gaps + [empty] && empty.size == 0
    ensures SameNotes(gaps, padded)
  {
    forall why, x: nat | Noted(gaps, why, x)
      ensures Noted(padded, why, x)
    {
      var i :| 0 <= i < |gaps| && !gaps[i].sweep && gaps[i].reason == why && Covers(gaps[i], x);
      assert padded[i] == gaps[i];
    }
  }

  lemma NotedFollow(gaps: seq<Gap>, r: seq<Gap>, at: nat, address: nat, size: nat, reason: Reason, sweep: bool)
    requires |r| == |gaps| && at < |gaps| && gaps[at].sweep == sweep && gaps[at].reason == reason
    requires forall i :: 0 <= i < |r| ==> r[i].sweep == gaps[i].sweep && r[i].reason == gaps[i].reason
    requires forall i, x: nat :: 0 <= i < |r| ==>
             (Covers(r[i], x) <==> Covers(gaps[i], x) || (i == at && address <= x < address + size))
    ensures forall why, x: nat :: Noted(r, why, x) <==>
              Noted(gaps, why, x) || (!sweep && why == reason && address <= x < address + size)
  {
    forall why, x: nat
      ensures Noted(r, why, x) <==> Noted(gaps, why, x) || (!sweep && why == reason && address <= x < address + size)
    {
      if Noted(gaps, why, x) {
        var i :| 0 <= i < |gaps| && !gaps[i].sweep && gaps[i].reason == why && Covers(gaps[i], x);
        assert Covers(r[i], x);
      }
      if !sweep && why == reason && address <= x < address + size {
        assert Covers(r[at], x);
      }
    }
  }

  /** One gap grew by a range. */
  lemma GapsFollow(gaps: seq<Gap>, r: seq<Gap>, at: nat, address: nat, size: nat, reason: Reason, sweep: bool)
    requires |r| == |gaps| && at < |gaps| && gaps[at].sweep == sweep && gaps[at].reason == reason
    requires forall i :: 0 <= i < |r| ==> r[i].sweep == gaps[i].sweep && r[i].reason == gaps[i].reason
    requires forall i, x: nat :: 0 <= i < |r| ==>
             (Covers(r[i], x) <==> Covers(gaps[i], x) || (i == at && address <= x < address + size))
    ensures Appended(gaps, address, size, reason, sweep, r)
  {
    NotedFollow(gaps, r, at, address, size, reason, sweep);
    forall why, x: nat
      ensures Swept(r, why, x) <==> Swept(gaps, why, x) || (sweep && why == reason && address <= x < address + size)
    {
      if Swept(gaps, why, x) {
        var i :| 0 <= i < |gaps| && gaps[i].sweep && gaps[i].reason == why && Covers(gaps[i], x);
        assert Covers(r[i], x);
      }
      if sweep && why == reason && address <= x < address + size {
        assert Covers(r[at], x);
      }
    }
    if GapsApart(gaps) && (sweep ==> forall x: nat :: address <= x < address + size ==> !InGap(gaps, x)) {
      forall i, j, x: nat | 0 <= i < j < |r| && r[i].sweep && r[j].sweep && Covers(r[i], x)
        ensures !Covers(r[j], x)
      {
        assert Covers(gaps[i], x) ==> Swept(gaps, gaps[i].reason, x) && InGap(gaps, x);
        assert Covers(gaps[j], x) ==> Swept(gaps, gaps[j].reason, x) && InGap(gaps, x);
      }
    }
  }

  // ----- placing an instruction -----

  function Min(a: nat, b: nat): nat { if a < b then a else b }

  /** One past the last address of the seed's extent; additions saturate. */
  function ExtentEnd(section: Section, seed: Seed): nat {
    Min(Min(seed.address + (if seed.size == 0 then 1 else seed.size), TWO64 - 1), section.End())
  }

  /** Offset of an address, zero below the section. */
  function OffsetOf(section: Section, a: nat): nat {
    if a < section.address then 0 else a - section.address
  }

  ghost predicate Filled(before: seq<bool>, from: nat, to: nat, after: seq<bool>) {
    && from <= to <= |before| == |after|
    && forall o :: 0 <= o < |before| ==> after[o] == (before[o] || from <= o < to)
  }

  method Fill(occupied: array<bool>, from: nat, to: nat)
    requires from <= to <= occupied.Length
    modifies occupied
    ensures Filled(old(occupied[..]), from, to, occupied[..])
  {
    forall o | from <= o < to {
      occupied[o] := true;
    }
  }

  /** The bytes from offset on leave the section or include an occupied one. */
  predicate Blocked(occupied: seq<bool>, offset: nat, length: nat) {
    offset + length > |occupied| || exists o | offset <= o < offset + length :: occupied[o]
  }

  /** Recording a free, fitting instruction keeps the bitmap exact. */
  lemma PlaceKeepsExact(section: Section, placed: set<nat>, records: Records, before: seq<bool>, after: seq<bool>,
                        a: nat, record: Record)
    requires Exact(section, placed, records, before) && |before| == |section.table|
    requires section.Contains(a) && section.Decodes(a - section.address) &&
             record.length == section.table[a - section.address].length
    requires a + record.length <= section.End() && !Blocked(before, a - section.address, record.length)
    requires Filled(before, a - section.address, a - section.address + record.length, after)
    ensures Exact(section, placed + {a}, records[a := record], after)
  {
    assert Open(Bitmap);
    var grown := records[a := record];
    assert forall x: nat :: section.Contains(x) ==>
        (Occupied(section, after, x) <==> Occupied(section, before, x) || a <= x < a + record.length);
    assert !Occupied(section, before, a) && !Taken(placed, records, a);
    assert a !in placed;
    forall x: nat
      ensures Taken(placed + {a}, grown, x) <==> Taken(placed, records, x) || a <= x < a + record.length
    {
      TakenGrows(placed, records, a, record, x);
    }
    forall b | b in placed
      ensures if b < a then b + records[b].length <= a else a + record.length <= b
    {
      assert Taken(placed, records, b);
      NotWithin(section, before, a, record.length, b);
    }
  }

  lemma NotWithin(section: Section, occupied: seq<bool>, a: nat, length: nat, b: nat)
    requires |occupied| == |section.table| && section.Contains(b) && Occupied(section, occupied, b)
    requires section.address <= a && a + length <= section.End()
    requires forall x: nat :: a <= x < a + length ==> !Occupied(section, occupied, x)
    ensures b < a || a + length <= b
  {
  }

  lemma TakenGrows(placed: set<nat>, records: Records, a: nat, record: Record, x: nat)
    requires a !in placed
    ensures Taken(placed + {a}, records[a := record], x) <==> Taken(placed, records, x) || a <= x < a + record.length
  {
    var grown := records[a := record];
    if Taken(placed, records, x) {
      var b :| b in placed && b in records && b <= x < b + records[b].length;
      assert b in placed + {a} && b in grown && grown[b] == records[b];
    }
    if a <= x < a + record.length {
      assert a in grown;
    }
  }

  // ----- recursive descent from a seed -----

  predicate Inside(section: Section, seed: Seed) { section.address <= seed.address }

  /** The instruction a pending address would decode to, when it fits the section and the seed's extent. */
  predicate Fits(section: Section, seed: Seed, offset: nat) {
    && section.Decodes(offset) && offset + section.table[offset].length <= |section.table|
    && section.address + offset + section.table[offset].length <= ExtentEnd(section, seed)
  }

  /**
   A seed below its section is decoded at the section's first byte but recorded at its own address;
   it is harmless only when that instruction is refused.
   */
  predicate Harmless(section: Section, seed: Seed) {
    Inside(section, seed) || !Fits(section, seed, 0)
  }

  /** What changes between two points of one section: records of placed addresses, and only gaps of seeds. */
  ghost predicate Descended(placed: set<nat>, records: Records, gaps: seq<Gap>, placed': set<nat>, records': Records,
                            gaps': seq<Gap>) {
    forall part {:trigger Open(part)} :: Open(part) && part == Descent ==>
      && placed <= placed' && records.Keys <= records'.Keys <= records.Keys + placed'
      && (forall a :: a in records && a !in placed' ==> records'[a] == records[a])
      && (forall why, x: nat :: Swept(gaps', why, x) <==> Swept(gaps, why, x))
      && (GapsApart(gaps) ==> GapsApart(gaps'))
  }

  lemma RecordDescends(placed: set<nat>, records: Records, gaps: seq<Gap>, a: nat, record: Record)
    ensures Descended(placed, records, gaps, placed + {a}, records[a := record], gaps)
  {
  }

  lemma NothingDescends(placed: set<nat>, records: Records, gaps: seq<Gap>)
    ensures Descended(placed, records, gaps, placed, records, gaps)
  {
  }

  /** A gap of a seed. */
  lemma GapDescends(placed: set<nat>, records: Records, gaps: seq<Gap>, address: nat, reason: Reason, gaps': seq<Gap>)
    requires Appended(gaps, address, 1, reason, false, gaps')
    ensures Descended(placed, records, gaps, placed, records, gaps')
  {
    assert Open(GapList);
  }

  /** The offsets of the occupied bytes. */
  function Marked(occupied: seq<bool>): set<nat> {
    set o | 0 <= o < |occupied| && occupied[o]
  }

  /**
   What recording instructions may do, harmful or not: bytes stay taken, a new record is in the section,
   at a byte just taken, or below it at `from` or later, and each new record takes at least one byte.
   */
  ghost predicate Grows(section: Section, from: nat, records: Records, before: seq<bool>, records': Records,
                        after: seq<bool>) {
    forall part {:trigger Open(part)} :: Open(part) && part == Growing ==>
      Growth(section, from, records, before, records', after)
  }

  ghost predicate Growth(section: Section, from: nat, records: Records, before: seq<bool>, records': Records,
                         after: seq<bool>) {
    && |after| == |before| == |section.table|
    && (forall o :: 0 <= o < |before| && before[o] ==> after[o])
    && records.Keys <= records'.Keys
    && (forall a :: a in records' && a !in records ==>
          from <= a < section.End() && (section.Contains(a) ==>
            !Occupied(section, before, a) && Occupied(section, after, a)))
    && |records'| + |Marked(before)| <= |records| + |Marked(after)|
  }

  lemma GrowsTwice(section: Section, from: nat, r0: Records, b0: seq<bool>, r1: Records, b1: seq<bool>, r2: Records,
                   b2: seq<bool>)
    requires Grows(section, from, r0, b0, r1, b1) && Grows(section, from, r1, b1, r2, b2)
    ensures Grows(section, from, r0, b0, r2, b2)
  {
    assert Open(Growing);
  }

  lemma NothingGrows(section: Section, from: nat, records: Records, occupied: seq<bool>)
    requires |occupied| == |section.table|
    ensures Grows(section, from, records, occupied, records, occupied)
  {
  }

  lemma RecordGrows(section: Section, from: nat, records: Records, before: seq<bool>, a: nat, record: Record,
                    after: seq<bool>)
    requires |before| == |section.table| && from <= a < section.End() && record.length > 0
    requires var o := OffsetOf(section, a); Filled(before, o, o + record.length, after) && !before[o]
    ensures Grows(section, from, records, before, records[a := record], after)
  {
    FilledMarks(before, OffsetOf(section, a), record.length, after);
    OneMore(records, a, record);
    assert Growth(section, from, records, before, records[a := record], after);
  }

  lemma FilledMarks(before: seq<bool>, o: nat, length: nat, after: seq<bool>)
    requires length > 0 && Filled(before, o, o + length, after) && !before[o]
    ensures |Marked(before)| < |Marked(after)|
  {
    assert o in Marked(after) && Marked(before) <= Marked(after) - {o};
    MoreMarked(Marked(before), Marked(after), o);
  }

  lemma OneMore(records: Records, a: nat, record: Record)
    ensures records[a := record].Keys == records.Keys + {a} && |records[a := record]| <= |records| + 1
  {
    assert records[a := record].Keys == records.Keys + {a};
    assert |records[a := record]| == |records[a := record].Keys| && |records| == |records.Keys|;
  }

  lemma MoreMarked(small: set<nat>, large: set<nat>, o: nat)
    requires o in large && small <= large - {o}
    ensures |small| < |large|
  {
    Fewer(small, large - {o});
  }

  lemma {:induction false} Fewer(small: set<nat>, large: set<nat>)
    requires small <= large
    ensures |small| <= |large|
    decreases small
  {
    if small != {} {
      var o :| o in small;
      Fewer(small - {o}, large - {o});
    }
  }

  function Queue(decoded: Decoded, next: nat): seq<nat>
    requires decoded.Decoded?
  {
    var target := if decoded.target.Some? then [decoded.target.value] else [];
    match decoded.flow
    case Next => [next]
    case Call => [next]
    case ConditionalBranch => [next] + target
    case UnconditionalBranch => target
    case _ => []
  }

  lemma ExtentAgrees(section: Section, seed: Seed)
    requires section.Valid()
    ensures ExtentEnd(section, seed) == Extent(section, seed)
  {
  }

  lemma UndecodableVisited(section: Section, seed: Seed, x: nat, records: Records, gaps: seq<Gap>, gaps': seq<Gap>,
                           occupied: seq<bool>)
    requires |occupied| == |section.table| && (section.Contains(x) ==> !DecodesAt(section, x))
    requires Appended(gaps, x, 1, UndecodableBytes, false, gaps')
    ensures section.Contains(x) ==> Visited(section, seed, x, records, gaps, occupied, records, gaps', [], occupied)
  {
    assert Open(GapList);
  }

  lemma CrossingVisited(section: Section, seed: Seed, x: nat, records: Records, gaps: seq<Gap>, occupied: seq<bool>)
    requires |occupied| == |section.table|
    requires section.Contains(x) ==> DecodesAt(section, x) && !FitsExtent(section, seed, x)
    ensures section.Contains(x) ==> Visited(section, seed, x, records, gaps, occupied, records, gaps, [], occupied)
  {
  }

  lemma BlockedVisited(section: Section, seed: Seed, x: nat, records: Records, gaps: seq<Gap>, gaps': seq<Gap>,
                       occupied: seq<bool>)
    requires |occupied| == |section.table|
    requires section.Contains(x) ==>
               FitsExtent(section, seed, x) && Blocked(occupied, x - section.address, LengthAt(section, x))
    requires if x in records then gaps' == gaps else Appended(gaps, x, 1, OverlapsRecoveredCode, false, gaps')
    ensures section.Contains(x) ==> Visited(section, seed, x, records, gaps, occupied, records, gaps', [], occupied)
  {
    assert Open(GapList);
    if section.Contains(x) {
      var o :| x - section.address <= o < x - section.address + LengthAt(section, x) && occupied[o];
      assert section.Contains(section.address + o) && Overlapped(section, occupied, x);
    }
  }

  lemma QueueFollows(section: Section, x: nat)
    requires DecodesAt(section, x)
    ensures Queue(section.table[x - section.address], x + LengthAt(section, x)) == FollowerList(section, x)
  {
  }

  lemma FreeVisited(section: Section, seed: Seed, x: nat, records: Records, gaps: seq<Gap>, before: seq<bool>,
                    records': Records, next: seq<nat>, after: seq<bool>)
    requires |before| == |section.table| && FitsExtent(section, seed, x)
    requires var o, length := x - section.address, LengthAt(section, x);
             && !Blocked(before, o, length) && Filled(before, o, o + length, after)
             && records' == records[x := Record(length, true)] && next == Queue(section.table[o], x + length)
    ensures Visited(section, seed, x, records, gaps, before, records', gaps, next, after)
  {
    QueueFollows(section, x);
    forall y: nat | section.Contains(y)
      ensures after[y - section.address] <==> before[y - section.address] || x <= y < x + LengthAt(section, x)
    {
    }
    assert !Overlapped(section, before, x);
    assert Recorded(section, x, records, before, records', next, after);
  }

  /** Recovers the instruction at one pending address of the extent, if it decodes, fits and is free. */
  method VisitAddress(section: Section, seed: Seed, address: nat, occupied: array<bool>, records: Records,
                      gaps: seq<Gap>, ghost placed: set<nat>)
    returns (records': Records, gaps': seq<Gap>, next: seq<nat>, ghost placed': set<nat>)
    requires section.Valid() && occupied.Length == |section.table| && seed.address <= address < ExtentEnd(section, seed)
    modifies occupied
    ensures Descended(placed, records, gaps, placed', records', gaps')
    ensures Inside(section, seed) && Exact(section, placed, records, old(occupied[..])) ==>
            Exact(section, placed', records', occupied[..])
    ensures !Fits(section, seed, OffsetOf(section, address)) ==>
              placed' == placed && records' == records && next == [] && occupied[..] == old(occupied[..])
    ensures Grows(section, seed.address, records, old(occupied[..]), records', occupied[..])
    ensures Fits(section, seed, OffsetOf(section, address)) &&
            (forall o :: 0 <= o < occupied.Length ==> !old(occupied[o])) ==>
              records'.Keys == records.Keys + {address} && occupied[OffsetOf(section, address)]
    ensures section.Contains(address) ==>
              Visited(section, seed, address, records, gaps, old(occupied[..]), records', gaps', next, occupied[..])
    ensures Merged(gaps) ==> Merged(gaps')
  {
    records', gaps', next, placed' := records, gaps, [], placed;
    ExtentAgrees(section, seed);
    ghost var start := occupied[..];
    NothingGrows(section, seed.address, records, occupied[..]);
    NothingDescends(placed, records, gaps);
    var offset := OffsetOf(section, address);
    if !section.Decodes(offset) {
      gaps' := AppendGap(gaps, address, 1, UndecodableBytes, false);
      GapDescends(placed, records, gaps, address, UndecodableBytes, gaps');
      assert occupied[..] == start;
      UndecodableVisited(section, seed, address, records, gaps, gaps', start);
      return;
    }
    var length := section.table[offset].length;
    if offset + length > |section.table| || section.address + offset + length > ExtentEnd(section, seed) {
      CrossingVisited(section, seed, address, records, gaps, start);
      return;
    }
    if Blocked(occupied[..], offset, length) {
      if address !in records {
        gaps' := AppendGap(gaps, address, 1, OverlapsRecoveredCode, false);
        GapDescends(placed, records, gaps, address, OverlapsRecoveredCode, gaps');
      }
      assert occupied[..] == start;
      BlockedVisited(section, seed, address, records, gaps, gaps', start);
      return;
    }
    ghost var before := occupied[..];
    Fill(occupied, offset, offset + length);
    if Inside(section, seed) && Exact(section, placed, records, before) {
      PlaceKeepsExact(section, placed, records, before, occupied[..], address, Record(length, true));
    }
    RecordGrows(section, seed.address, records, before, address, Record(length, true), occupied[..]);
    RecordDescends(placed, records, gaps, address, Record(length, true));
    records' := records[address := Record(length, true)];
    placed' := placed + {address};
    next := Queue(section.table[offset], section.address + offset + length);
    if section.Contains(address) {
      FreeVisited(section, seed, address, records, gaps, start, records', next, occupied[..]);
    }
  }

  /** The seed is recorded below the section, and its first byte is taken for good without a record. */
  ghost predicate Spoiled(section: Section, seed: Seed, records: Records, records': Records, after: seq<bool>) {
    && !Inside(section, seed) && seed.address in records'
    && |after| > 0 && after[0] && (section.address in records' ==> section.address in records)
  }

  lemma SpoiledStays(section: Section, seed: Seed, r0: Records, r1: Records, b1: seq<bool>, r2: Records, b2: seq<bool>)
    requires Spoiled(section, seed, r0, r1, b1) && Grows(section, seed.address, r1, b1, r2, b2)
    ensures Spoiled(section, seed, r0, r2, b2)
  {
    assert Open(Growing);
    assert section.Contains(section.address);
  }

  /** What a seed below its section comes to: nothing while harmless, a spoiled bitmap once a harmful one is taken. */
  ghost predicate Straying(section: Section, seed: Seed, placed: set<nat>, records: Records, start: seq<bool>,
                           placed': set<nat>, records': Records, occupied: seq<bool>, pending: seq<nat>,
                           seen: set<nat>) {
    && (!Inside(section, seed) && Harmless(section, seed) ==>
          && placed' == placed && records' == records && occupied == start
          && forall a :: a in pending ==> a == seed.address)
    && (!Harmless(section, seed) && (forall o :: 0 <= o < |start| ==> !start[o]) ==>
          if seen == {} then pending == [seed.address] && occupied == start && records' == records
          else Spoiled(section, seed, records, records', occupied))
  }

  lemma StrayingSkip(section: Section, seed: Seed, placed: set<nat>, records: Records, start: seq<bool>,
                     placed': set<nat>, records': Records, occupied: seq<bool>, x: nat, rest: seq<nat>, seen: set<nat>)
    requires Straying(section, seed, placed, records, start, placed', records', occupied, [x] + rest, seen)
    requires x in seen || x < seed.address || x >= ExtentEnd(section, seed)
    ensures Straying(section, seed, placed, records, start, placed', records', occupied, rest, seen + {x})
  {
    assert forall a :: a in rest ==> a in [x] + rest;
    assert seen == {} ==> [x] + rest != [seed.address] || x == ([x] + rest)[0] == seed.address;
  }

  lemma StrayingVisit(section: Section, seed: Seed, placed: set<nat>, records: Records, start: seq<bool>, p: set<nat>,
                      r: Records, before: seq<bool>, placed': set<nat>, records': Records, after: seq<bool>, x: nat,
                      rest: seq<nat>, next: seq<nat>, seen: set<nat>)
    requires |before| == |section.table| == |after| && seed.address <= x < ExtentEnd(section, seed)
    requires Straying(section, seed, placed, records, start, p, r, before, [x] + rest, seen)
    requires Grows(section, seed.address, r, before, records', after)
    requires !Fits(section, seed, OffsetOf(section, x)) ==>
               placed' == p && records' == r && next == [] && after == before
    requires Fits(section, seed, OffsetOf(section, x)) && (forall o :: 0 <= o < |before| ==> !before[o]) ==>
               records'.Keys == r.Keys + {x} && after[OffsetOf(section, x)]
    ensures Straying(section, seed, placed, records, start, placed', records', after, rest + next, seen + {x})
  {
    assert x in [x] + rest && forall a :: a in rest ==> a in [x] + rest;
    if !Harmless(section, seed) && forall o :: 0 <= o < |start| ==> !start[o] {
      if seen == {} {
        assert x == ([x] + rest)[0] == seed.address;
      } else {
        SpoiledStays(section, seed, records, r, before, records', after);
      }
    }
  }

  method RecoverSeed(section: Section, seed: Seed, occupied: array<bool>, records: Records, gaps: seq<Gap>,
                     ghost placed: set<nat>)
    returns (records': Records, gaps': seq<Gap>, ghost placed': set<nat>)
    requires section.Valid() && seed.address < TWO64 && occupied.Length == |section.table|
    modifies occupied
    ensures Descended(placed, records, gaps, placed', records', gaps')
    ensures Inside(section, seed) && Exact(section, placed, records, old(occupied[..])) ==>
            Exact(section, placed', records', occupied[..])
    ensures !Inside(section, seed) && Harmless(section, seed) ==>
            placed' == placed && records' == records && occupied[..] == old(occupied[..])
    ensures Grows(section, seed.address, records, old(occupied[..]), records', occupied[..])
    ensures !Harmless(section, seed) && (forall o :: 0 <= o < occupied.Length ==> !old(occupied[o])) ==>
              Spoiled(section, seed, records, records', occupied[..])
    ensures Inside(section, seed) && RecordsOccupied(section, records, old(occupied[..])) ==>
              DescentFrom(section, seed, records, gaps, records', gaps', occupied[..]) &&
                BreadthFirst(section, seed, old(occupied[..]), records'.Keys - records.Keys) &&
                RecordsOccupied(section, records', occupied[..])
    ensures Merged(gaps) ==> Merged(gaps')
  {
    records', gaps', placed' := records, gaps, placed;
    ghost var start := occupied[..];
    ghost var tracked := Inside(section, seed) && RecordsOccupied(section, records, start);
    ExtentAgrees(section, seed);
    ghost var order: seq<nat>, taken: seq<bool> := [], [];
    if tracked {
      FollowsStart(section, seed, records, gaps, start);
    }
    NothingGrows(section, seed.address, records, start);
    NothingDescends(placed, records, gaps);
    var end := ExtentEnd(section, seed);
    var pending: seq<nat> := [seed.address];
    var seen: set<nat> := {};
    ghost var extent := set a: nat | seed.address <= a < end && InRange(seed, end, a);
    while pending != []
      invariant Descended(placed, records, gaps, placed', records', gaps')
      invariant Inside(section, seed) && Exact(section, placed, records, start) ==>
                Exact(section, placed', records', occupied[..])
      invariant Grows(section, seed.address, records, start, records', occupied[..])
      invariant Merged(gaps) ==> Merged(gaps')
      invariant Straying(section, seed, placed, records, start, placed', records', occupied[..], pending, seen)
      invariant tracked ==>
        Follows(section, seed, start, records, gaps, records', gaps', occupied[..], order, taken, pending, seen)
      decreases extent - seen, |pending|
    {
      var address: nat := pending[0];
      assert address in pending && forall a :: a in pending[1..] ==> a in pending;
      ghost var rest := pending[1..];
      assert pending == [address] + rest;
      pending := pending[1..];
      if address in seen || address < seed.address || address >= end {
        StrayingSkip(section, seed, placed, records, start, placed', records', occupied[..], address, rest, seen);
        if tracked {
          FollowsSkip(section, seed, start, records, gaps, records', gaps', occupied[..], order, taken, address, rest,
            seen);
          order, taken := order + [address], taken + [false];
        }
        seen := seen + {address};
        continue;
      }
      ghost var p, r, g, bits := placed', records', gaps', occupied[..];
      var next;
      records', gaps', next, placed' := VisitAddress(section, seed, address, occupied, records', gaps', placed');
      DescendedTwice(placed, records, gaps, p, r, g, placed', records', gaps');
      GrowsTwice(section, seed.address, records, start, r, bits, records', occupied[..]);
      StrayingVisit(section, seed, placed, records, start, p, r, bits, placed', records', occupied[..], address, rest,
        next, seen);
      if tracked {
        taken := FollowsVisit(section, seed, start, records, gaps, r, g, bits, records', gaps', occupied[..], order,
          taken, address, rest, next, seen);
        order := order + [address];
      }
      pending, seen := pending + next, seen + {address};
    }
    if tracked {
      FollowsEnd(section, seed, start, records, gaps, records', gaps', occupied[..], order, taken, seen);
    }
  }

  lemma DescendedTwice(p0: set<nat>, r0: Records, g0: seq<Gap>, p1: set<nat>, r1: Records, g1: seq<Gap>, p2: set<nat>,
                       r2: Records, g2: seq<Gap>)
    requires Descended(p0, r0, g0, p1, r1, g1) && Descended(p1, r1, g1, p2, r2, g2)
    ensures Descended(p0, r0, g0, p2, r2, g2)
  {
    assert Open(Descent);
  }

  predicate InRange(seed: Seed, end: nat, a: nat) { seed.address <= a < end }

  // ----- the linear sweep -----

  /** Bytes before `upto` are each in an instruction or a sweep gap; later ones are in no sweep gap. */
  ghost predicate SweptTo(section: Section, placed: set<nat>, records: Records, gaps: seq<Gap>, upto: nat) {
    && (forall x: nat :: section.Contains(x) ==> (InGap(gaps, x) <==> x < upto && !Taken(placed, records, x)))
    && (forall x: nat :: section.Contains(x) && Swept(gaps, UndecodableBytes, x) ==>
      !section.Decodes(x - section.address))
    && (forall x: nat :: section.Contains(x) && Swept(gaps, OverlapsRecoveredCode, x) ==>
      Collides(section, placed, records, x))
  }

  /** Effects outside this section. */
  ghost predicate SweepFrame(section: Section, placed: set<nat>, records: Records, gaps: seq<Gap>, placed': set<nat>,
                             records': Records, gaps': seq<Gap>) {
    forall part {:trigger Open(part)} :: Open(part) && part == Frame ==>
      && placed <= placed' && records.Keys <= records'.Keys <= records.Keys + placed'
      && (forall a :: a in placed' && a !in placed ==> section.Contains(a))
      && (forall a :: a in records && a !in placed' ==> records'[a] == records[a])
      && (forall why, x: nat :: !section.Contains(x) ==> (Swept(gaps', why, x) <==> Swept(gaps, why, x)))
      && (GapsApart(gaps) ==> GapsApart(gaps'))
  }

  lemma NothingSwept(section: Section, placed: set<nat>, records: Records, gaps: seq<Gap>, occupied: seq<bool>)
    requires |occupied| == |section.table|
    ensures SweepFrame(section, placed, records, gaps, placed, records, gaps)
    ensures GapsSkip(section, gaps, occupied, gaps)
  {
  }

  /** A byte the sweep cannot decode over becomes a one-byte gap. */
  lemma GapStep(section: Section, placed: set<nat>, records: Records, gaps: seq<Gap>, gaps': seq<Gap>, x: nat,
                reason: Reason)
    requires SweptTo(section, placed, records, gaps, x) && section.Contains(x) && !Taken(placed, records, x)
    requires forall why, y: nat :: Swept(gaps', why, y) <==> Swept(gaps, why, y) || (why == reason && x <= y < x + 1)
    requires if reason.UndecodableBytes? then !section.Decodes(x - section.address)
             else Collides(section, placed, records, x)
    ensures SweptTo(section, placed, records, gaps', x + 1)
  {
  }

  /** Placing an instruction at the sweep point moves the point past it. */
  lemma PlaceStep(section: Section, placed: set<nat>, records: Records, gaps: seq<Gap>, a: nat, record: Record)
    requires SweptTo(section, placed, records, gaps, a) && a !in placed && section.address <= a &&
             a + record.length <= section.End()
    ensures SweptTo(section, placed + {a}, records[a := record], gaps, a + record.length)
  {
    forall x: nat
      ensures Taken(placed + {a}, records[a := record], x) <==> Taken(placed, records, x) || a <= x < a + record.length
    {
      TakenGrows(placed, records, a, record, x);
    }
    forall x: nat | section.Contains(x) && Collides(section, placed, records, x)
      ensures Collides(section, placed + {a}, records[a := record], x)
    {
    }
  }

  /** What the sweep keeps, unless a seed below the section spoiled the bitmap. */
  ghost predicate Sweeping(section: Section, placed: set<nat>, records: Records, gaps: seq<Gap>, occupied: seq<bool>,
                           upto: nat) {
    forall part {:trigger Open(part)} :: Open(part) && part == Invariant ==>
      Exact(section, placed, records, occupied) && SweptTo(section, placed, records, gaps, upto)
  }

  /** The sweep leaves gaps only in the section, at free bytes. */
  ghost predicate GapsSkip(section: Section, gaps: seq<Gap>, before: seq<bool>, gaps': seq<Gap>) {
    forall part {:trigger Open(part)} :: Open(part) && part == Skips ==>
      |before| == |section.table| &&
      forall x: nat :: InGap(gaps', x) && !InGap(gaps, x) ==> section.Contains(x) && !Occupied(section, before, x)
  }

  lemma GapSkips(section: Section, gaps: seq<Gap>, occupied: seq<bool>, gaps': seq<Gap>, offset: nat, reason: Reason)
    requires |occupied| == |section.table| && offset < |occupied| && !occupied[offset]
    requires Appended(gaps, section.address + offset, 1, reason, true, gaps')
    ensures GapsSkip(section, gaps, occupied, gaps')
  {
    assert Open(GapList);
  }

  lemma GapsSkipTwice(section: Section, r0: Records, g0: seq<Gap>, b0: seq<bool>, r1: Records, g1: seq<Gap>,
                      b1: seq<bool>, g2: seq<Gap>)
    requires GapsSkip(section, g0, b0, g1) && GapsSkip(section, g1, b1, g2)
    requires Grows(section, section.address, r0, b0, r1, b1)
    ensures GapsSkip(section, g0, b0, g2)
  {
    assert Open(Skips) && Open(Growing);
  }

  /** The sweep only adds records, none of them recovered by descent. */
  ghost predicate SweepAdds(section: Section, records: Records, before: seq<bool>, records': Records,
                            after: seq<bool>) {
    forall part {:trigger Open(part)} :: Open(part) && part == Sweep ==>
      |before| == |section.table| && (RecordsOccupied(section, records, before) ==>
          && |after| == |section.table| && RecordsOccupied(section, records', after) && Kept(records, records')
          && forall a :: a in records' && a !in records ==> !records'[a].recovered)
  }

  lemma NothingAdded(section: Section, records: Records, occupied: seq<bool>)
    requires |occupied| == |section.table|
    ensures SweepAdds(section, records, occupied, records, occupied)
  {
  }

  lemma SweepAdded(section: Section, records: Records, before: seq<bool>, offset: nat, length: nat, after: seq<bool>)
    requires |before| == |section.table| && offset < |before| && !before[offset] && length > 0
    requires Filled(before, offset, offset + length, after)
    ensures SweepAdds(section, records, before, records[section.address + offset := Record(length, false)], after)
  {
  }

  lemma AddsTwice(section: Section, r0: Records, b0: seq<bool>, r1: Records, b1: seq<bool>, r2: Records, b2: seq<bool>)
    requires SweepAdds(section, r0, b0, r1, b1) && SweepAdds(section, r1, b1, r2, b2)
    ensures SweepAdds(section, r0, b0, r2, b2)
  {
    assert Open(Sweep);
  }

  /** What one step of the sweep comes to. */
  ghost predicate Stepped(section: Section, placed: set<nat>, records: Records, gaps: seq<Gap>, before: seq<bool>,
                          offset: nat, placed': set<nat>, records': Records, gaps': seq<Gap>, after: seq<bool>,
                          next: nat) {
    forall part {:trigger Open(part)} :: Open(part) && part == Step ==>
      && Grows(section, section.address, records, before, records', after) && GapsSkip(section, gaps, before, gaps')
      && SweepAdds(section, records, before, records', after)
      && (Sweeping(section, placed, records, gaps, before, section.address + offset) ==>
            Sweeping(section, placed', records', gaps', after, section.address + next) &&
            SweepFrame(section, placed, records, gaps, placed', records', gaps'))
  }

  /** One step of the sweep: past an occupied byte, over a one-byte gap, or over a placed instruction. */
  method SweepStep(section: Section, occupied: array<bool>, records: Records, gaps: seq<Gap>, offset: nat,
                   ghost placed: set<nat>)
    returns (next: nat, records': Records, gaps': seq<Gap>, inserted: bool, ghost placed': set<nat>)
    requires section.Valid() && occupied.Length == |section.table| && offset < |section.table|
    modifies occupied
    ensures offset < next <= |section.table| && placed <= placed'
    ensures Stepped(section, placed, records, gaps, old(occupied[..]), offset, placed', records', gaps', occupied[..],
            next)
    ensures Merged(gaps) ==> Merged(gaps')
  {
    next, records', gaps', inserted, placed' := offset + 1, records, gaps, false, placed;
    var address: nat := section.address + offset;
    ghost var bits := occupied[..];
    if occupied[offset] {
      OccupiedSwept(section, placed, records, gaps, bits, offset);
      return;
    }
    if !section.Decodes(offset) {
      gaps' := AppendGap(gaps, address, 1, UndecodableBytes, true);
      assert occupied[..] == bits;
      GapSwept(section, placed, records, gaps, gaps', bits, offset, UndecodableBytes);
      return;
    }
    var length := section.table[offset].length;
    if Blocked(occupied[..], offset, length) {
      gaps' := AppendGap(gaps, address, 1, OverlapsRecoveredCode, true);
      assert occupied[..] == bits;
      GapSwept(section, placed, records, gaps, gaps', bits, offset, OverlapsRecoveredCode);
      return;
    }
    Fill(occupied, offset, offset + length);
    assert Filled(bits, offset, offset + length, occupied[..]) && !Blocked(bits, offset, length);
    next, records', inserted, placed' := offset + length, records[address := Record(length, false)], true,
      placed + {address};
    PlaceSwept(section, placed, records, gaps, bits, occupied[..], offset, address, Record(length, false), placed',
      records');
  }

  lemma OccupiedSwept(section: Section, placed: set<nat>, records: Records, gaps: seq<Gap>, occupied: seq<bool>,
                      offset: nat)
    requires |occupied| == |section.table| && offset < |occupied| && occupied[offset]
    ensures Stepped(section, placed, records, gaps, occupied, offset, placed, records, gaps, occupied, offset + 1)
  {
    assert Open(Invariant) && Open(Bitmap);
    NothingGrows(section, section.address, records, occupied);
    NothingSwept(section, placed, records, gaps, occupied);
    NothingAdded(section, records, occupied);
    assert Occupied(section, occupied, section.address + offset);
  }

  lemma GapSwept(section: Section, placed: set<nat>, records: Records, gaps: seq<Gap>, gaps': seq<Gap>,
                 occupied: seq<bool>, offset: nat, reason: Reason)
    requires |occupied| == |section.table| && offset < |occupied| && !occupied[offset]
    requires Appended(gaps, section.address + offset, 1, reason, true, gaps')
    requires reason.UndecodableBytes? ==> !section.Decodes(offset)
    requires reason.OverlapsRecoveredCode? ==>
             section.Decodes(offset) && Blocked(occupied, offset, section.table[offset].length)
    ensures Stepped(section, placed, records, gaps, occupied, offset, placed, records, gaps', occupied, offset + 1)
  {
    NothingGrows(section, section.address, records, occupied);
    NothingAdded(section, records, occupied);
    GapSkips(section, gaps, occupied, gaps', offset, reason);
    if Sweeping(section, placed, records, gaps, occupied, section.address + offset) {
      GapKeepsSweeping(section, placed, records, gaps, gaps', occupied, offset, reason);
    }
  }

  lemma GapKeepsSweeping(section: Section, placed: set<nat>, records: Records, gaps: seq<Gap>, gaps': seq<Gap>,
                         occupied: seq<bool>, offset: nat, reason: Reason)
    requires |occupied| == |section.table| && offset < |occupied| && !occupied[offset]
    requires Sweeping(section, placed, records, gaps, occupied, section.address + offset)
    requires Appended(gaps, section.address + offset, 1, reason, true, gaps')
    requires reason.UndecodableBytes? ==> !section.Decodes(offset)
    requires reason.OverlapsRecoveredCode? ==>
             section.Decodes(offset) && Blocked(occupied, offset, section.table[offset].length)
    ensures Sweeping(section, placed, records, gaps', occupied, section.address + offset + 1)
    ensures SweepFrame(section, placed, records, gaps, placed, records, gaps')
  {
    assert Open(GapList) && Open(Invariant) && Open(Bitmap);
    var x := section.address + offset;
    assert !Occupied(section, occupied, x);
    if reason.OverlapsRecoveredCode? {
      if offset + section.table[offset].length <= |occupied| {
        var o :| offset <= o < offset + section.table[offset].length && occupied[o];
        assert Occupied(section, occupied, section.address + o);
      }
      assert Collides(section, placed, records, x);
    }
    GapStep(section, placed, records, gaps, gaps', x, reason);
  }

  lemma PlaceSwept(section: Section, placed: set<nat>, records: Records, gaps: seq<Gap>, before: seq<bool>,
                   after: seq<bool>, offset: nat, a: nat, record: Record, placed': set<nat>, records': Records)
    requires |before| == |section.table| && Filled(before, offset, offset + record.length, after)
    requires section.Decodes(offset) && record.length == section.table[offset].length &&
             !Blocked(before, offset, record.length)
    requires !record.recovered && a == section.address + offset
    requires placed' == placed + {a} && records' == records[a := record]
    ensures Stepped(section, placed, records, gaps, before, offset, placed', records', gaps, after,
            offset + record.length)
  {
    RecordGrows(section, section.address, records, before, a, record, after);
    SweepAdded(section, records, before, offset, record.length, after);
    NothingSwept(section, placed, records, gaps, before);
    if Sweeping(section, placed, records, gaps, before, a) {
      PlaceKeepsSweeping(section, placed, records, gaps, before, after, offset, a, record, placed', records');
    }
  }

  lemma PlaceKeepsSweeping(section: Section, placed: set<nat>, records: Records, gaps: seq<Gap>, before: seq<bool>,
                           after: seq<bool>, offset: nat, a: nat, record: Record, placed': set<nat>, records': Records)
    requires Sweeping(section, placed, records, gaps, before, section.address + offset)
    requires |before| == |section.table| && Filled(before, offset, offset + record.length, after)
    requires section.Decodes(offset) && record.length == section.table[offset].length &&
             !Blocked(before, offset, record.length)
    requires a == section.address + offset && placed' == placed + {a} && records' == records[a := record]
    ensures Sweeping(section, placed', records', gaps, after, section.address + (offset + record.length))
    ensures SweepFrame(section, placed, records, gaps, placed', records', gaps)
  {
    assert Exact(section, placed, records, before) && SweptTo(section, placed, records, gaps, a) by {
      assert Open(Invariant);
    }
    assert a !in placed by {
      assert Open(Bitmap);
      assert !Occupied(section, before, a) && !Taken(placed, records, a);
    }
    PlaceKeepsExact(section, placed, records, before, after, a, record);
    PlaceStep(section, placed, records, gaps, a, record);
    assert SweptTo(section, placed', records', gaps, section.address + (offset + record.length));
  }

  lemma FramesCompose(section: Section, p0: set<nat>, r0: Records, g0: seq<Gap>, p1: set<nat>, r1: Records,
                      g1: seq<Gap>, p2: set<nat>, r2: Records, g2: seq<Gap>)
    requires SweepFrame(section, p0, r0, g0, p1, r1, g1) && SweepFrame(section, p1, r1, g1, p2, r2, g2)
    ensures SweepFrame(section, p0, r0, g0, p2, r2, g2)
  {
    assert Open(Frame);
  }

  lemma {:induction false} MarkedFits(occupied: seq<bool>)
    ensures |Marked(occupied)| <= |occupied|
  {
    if occupied != [] {
      var last := |occupied| - 1;
      MarkedFits(occupied[..last]);
      Fewer(Marked(occupied) - {last}, Marked(occupied[..last]));
    }
  }

  /** Where the sweep ends, everything is partitioned. */
  lemma SweepEnds(section: Section, placed: set<nat>, records: Records, gaps: seq<Gap>, before: seq<bool>,
                  placed': set<nat>, records': Records, gaps': seq<Gap>, after: seq<bool>)
    requires Stepped(section, placed, records, gaps, before, 0, placed', records', gaps', after, |section.table|)
    ensures Grows(section, section.address, records, before, records', after) && GapsSkip(section, gaps, before, gaps')
    ensures SweepAdds(section, records, before, records', after)
    ensures Sweeping(section, placed, records, gaps, before, section.address) ==>
              Exact(section, placed', records', after) && Partitioned(section, placed', records', gaps') &&
              SweepFrame(section, placed, records, gaps, placed', records', gaps')
  {
    assert Open(Step);
    if Sweeping(section, placed, records, gaps, before, section.address) {
      SweptIsPartitioned(section, placed', records', gaps', after);
    }
  }

  lemma SweptIsPartitioned(section: Section, placed: set<nat>, records: Records, gaps: seq<Gap>, occupied: seq<bool>)
    requires Sweeping(section, placed, records, gaps, occupied, section.End())
    ensures Exact(section, placed, records, occupied) && Partitioned(section, placed, records, gaps)
  {
    assert Open(Invariant) && Open(Bitmap);
  }

  lemma StepsCompose(section: Section, p0: set<nat>, r0: Records, g0: seq<Gap>, b0: seq<bool>, o0: nat, p1: set<nat>,
                     r1: Records, g1: seq<Gap>, b1: seq<bool>, o1: nat, p2: set<nat>, r2: Records, g2: seq<Gap>,
                     b2: seq<bool>, o2: nat)
    requires Stepped(section, p0, r0, g0, b0, o0, p1, r1, g1, b1, o1) &&
             Stepped(section, p1, r1, g1, b1, o1, p2, r2, g2, b2, o2)
    ensures Stepped(section, p0, r0, g0, b0, o0, p2, r2, g2, b2, o2)
  {
    assert Open(Step);
    GapsSkipTwice(section, r0, g0, b0, r1, g1, b1, g2);
    GrowsTwice(section, section.address, r0, b0, r1, b1, r2, b2);
    AddsTwice(section, r0, b0, r1, b1, r2, b2);
    if Sweeping(section, p0, r0, g0, b0, section.address + o0) {
      FramesCompose(section, p0, r0, g0, p1, r1, g1, p2, r2, g2);
    }
  }

  lemma NoStep(section: Section, placed: set<nat>, records: Records, gaps: seq<Gap>, occupied: seq<bool>, offset: nat)
    requires |occupied| == |section.table|
    ensures Stepped(section, placed, records, gaps, occupied, offset, placed, records, gaps, occupied, offset)
  {
    NothingGrows(section, section.address, records, occupied);
    NothingSwept(section, placed, records, gaps, occupied);
    NothingAdded(section, records, occupied);
  }

  lemma TooMany(section: Section, placed: set<nat>, records: Records, gaps: seq<Gap>, before: seq<bool>,
                placed': set<nat>, records': Records, gaps': seq<Gap>, after: seq<bool>, offset: nat)
    requires Stepped(section, placed, records, gaps, before, 0, placed', records', gaps', after, offset)
    ensures |records'| + |Marked(before)| <= |records| + |section.table|
  {
    assert Open(Step) && Open(Growing);
    MarkedFits(after);
  }

  method LinearSweep(section: Section, occupied: array<bool>, records: Records, gaps: seq<Gap>, ghost placed: set<nat>)
    returns (r: Result<(Records, seq<Gap>), DisassemblyError>, ghost placed': set<nat>)
    requires section.Valid() && occupied.Length == |section.table|
    modifies occupied
    ensures placed <= placed'
    ensures r.Failure? ==> |records| + |section.table| > MAX_DISASSEMBLY_INSTRUCTIONS + |Marked(old(occupied[..]))|
    ensures r.Success? && Merged(gaps) ==> Merged(r.value.1)
    ensures r.Success? ==> Grows(section, section.address, records, old(occupied[..]), r.value.0, occupied[..]) &&
                           GapsSkip(section, gaps, old(occupied[..]), r.value.1) &&
                           SweepAdds(section, records, old(occupied[..]), r.value.0, occupied[..])
    ensures Sweeping(section, placed, records, gaps, old(occupied[..]), section.address) && r.Success? ==>
              Exact(section, placed', r.value.0, occupied[..]) && Partitioned(section, placed', r.value.0, r.value.1) &&
              SweepFrame(section, placed, records, gaps, placed', r.value.0, r.value.1)
  {
    var current: Records, found := records, gaps;
    placed' := placed;
    var offset: nat := 0;
    ghost var start := occupied[..];
    NoStep(section, placed, records, gaps, start, 0);
    while offset < |section.table|
      invariant offset <= |section.table| && placed <= placed'
      invariant Stepped(section, placed, records, gaps, start, 0, placed', current, found, occupied[..], offset)
      invariant Merged(gaps) ==> Merged(found)
    {
      ghost var p, r, g, bits, o := placed', current, found, occupied[..], offset;
      var inserted;
      offset, current, found, inserted, placed' := SweepStep(section, occupied, current, found, offset, placed');
      StepsCompose(section, placed, records, gaps, start, 0, p, r, g, bits, o, placed', current, found, occupied[..],
        offset);
      if inserted && |current| > MAX_DISASSEMBLY_INSTRUCTIONS {
        TooMany(section, placed, records, gaps, start, placed', current, found, occupied[..], offset);
        return Failure(TooManyInstructions), placed';
      }
    }
    SweepEnds(section, placed, records, gaps, start, placed', current, found, occupied[..]);
    r := Success((current, found));
  }

  // ----- one section -----

  /** Seeds come in address order. */
  predicate Sorted(seeds: seq<Seed>) {
    forall i, j | 0 <= i < j < |seeds| :: seeds[i].address <= seeds[j].address
  }

  predicate AllHarmless(section: Section, seeds: seq<Seed>) {
    forall i | 0 <= i < |seeds| :: Harmless(section, seeds[i])
  }

  ghost predicate NoGapsIn(section: Section, gaps: seq<Gap>) {
    forall x: nat :: section.Contains(x) ==> !InGap(gaps, x)
  }

  /** Some harmful seed is recorded, outside the section. */
  ghost predicate Strays(section: Section, seeds: seq<Seed>, records: Records) {
    exists i :: 0 <= i < |seeds| && !Harmless(section, seeds[i]) && seeds[i].address in records
  }

  /** New records are in the section, or below it when a seed is harmful. */
  ghost predicate Confined(section: Section, harmless: bool, records: Records, records': Records) {
    && records.Keys <= records'.Keys
    && forall a :: a in records' && a !in records ==> a < section.End() && (harmless ==> section.address <= a)
  }

  /** Where recovery stands after some seeds, from the records at the section's start. */
  ghost predicate Seeded(section: Section, seeds: seq<Seed>, start: Records, placed: set<nat>, records: Records,
                         occupied: seq<bool>) {
    forall part {:trigger Open(part)} :: Open(part) && part == Seeding ==>
      SeedsDone(section, seeds, start, placed, records, occupied)
  }

  ghost predicate SeedsDone(section: Section, seeds: seq<Seed>, start: Records, placed: set<nat>, records: Records,
                            occupied: seq<bool>) {
    && |occupied| == |section.table|
    && Confined(section, AllHarmless(section, seeds), start, records) && |records| <= |start| + |Marked(occupied)|
    && (AllHarmless(section, seeds) ==> Exact(section, placed, records, occupied))
    && (!AllHarmless(section, seeds) ==>
          Strays(section, seeds, records) && |occupied| > 0 && occupied[0] &&
            (section.address in records ==> section.address in start))
    && (AllHarmless(section, seeds) && (forall i :: 0 <= i < |seeds| ==> !Inside(section, seeds[i])) ==>
          records == start && forall o :: 0 <= o < |occupied| ==> !occupied[o])
  }

  lemma NothingSeeded(section: Section, start: Records, occupied: seq<bool>)
    requires |occupied| == |section.table| && forall o :: 0 <= o < |occupied| ==> !occupied[o]
    ensures Seeded(section, [], start, {}, start, occupied)
  {
    assert Marked(occupied) == {};
  }

  lemma SeedStep(section: Section, seeds: seq<Seed>, k: nat, start: Records, placed: set<nat>, records: Records,
                 before: seq<bool>, placed': set<nat>, records': Records, after: seq<bool>)
    requires Sorted(seeds) && k < |seeds| && Seeded(section, seeds[..k], start, placed, records, before)
    requires Grows(section, seeds[k].address, records, before, records', after)
    requires Inside(section, seeds[k]) && Exact(section, placed, records, before) ==>
             Exact(section, placed', records', after)
    requires !Inside(section, seeds[k]) && Harmless(section, seeds[k]) ==>
             placed' == placed && records' == records && after == before
    requires !Harmless(section, seeds[k]) && (forall o :: 0 <= o < |before| ==> !before[o]) ==>
               Spoiled(section, seeds[k], records, records', after)
    ensures Seeded(section, seeds[..k + 1], start, placed', records', after)
  {
    var earlier, later := seeds[..k], seeds[..k + 1];
    assert SeedsDone(section, earlier, start, placed, records, before) by {
      assert Open(Seeding);
    }
    assert Growth(section, seeds[k].address, records, before, records', after) by {
      assert Open(Growing);
    }
    LastSeed(section, seeds, k);
    if AllHarmless(section, earlier) && !Harmless(section, seeds[k]) {
      assert !Harmless(section, later[k]) && later[k].address in records';
    } else if !AllHarmless(section, earlier) {
      StraysKept(section, seeds, k, records, records');
      assert section.Contains(section.address);
    }
    assert SeedsDone(section, later, start, placed', records', after);
  }

  lemma LastSeed(section: Section, seeds: seq<Seed>, k: nat)
    requires Sorted(seeds) && k < |seeds|
    ensures AllHarmless(section, seeds[..k + 1]) <==> AllHarmless(section, seeds[..k]) && Harmless(section, seeds[k])
    ensures !Inside(section, seeds[k]) ==> forall i :: 0 <= i < k ==> !Inside(section, seeds[i])
  {
    assert seeds[..k + 1] == seeds[..k] + [seeds[k]];
    assert AllHarmless(section, seeds[..k + 1]) ==> Harmless(section, seeds[..k + 1][k]);
  }

  lemma StraysKept(section: Section, seeds: seq<Seed>, k: nat, records: Records, records': Records)
    requires k < |seeds| && Strays(section, seeds[..k], records) && records.Keys <= records'.Keys
    ensures Strays(section, seeds[..k + 1], records')
  {
    var i :| 0 <= i < k && !Harmless(section, seeds[..k][i]) && seeds[..k][i].address in records;
    assert seeds[..k + 1][i] == seeds[..k][i];
  }

  /** The recorded instructions that start in the section. */
  function Own(section: Section, records: Records): set<nat> {
    set a | a in records && section.Contains(a)
  }

  /** Nothing is known of the section yet. */
  ghost predicate Untouched(section: Section, records: Records, gaps: seq<Gap>) {
    NoGapsIn(section, gaps) && Own(section, records) == {}
  }

  /** Everything outside the section is as it was. */
  ghost predicate OthersKept(section: Section, records: Records, gaps: seq<Gap>, records': Records, gaps': seq<Gap>) {
    && (forall a :: !section.Contains(a) ==>
      (a in records' <==> a in records) && (a in records ==> records'[a] == records[a]))
    && (forall why, x: nat :: !section.Contains(x) ==> (Swept(gaps', why, x) <==> Swept(gaps, why, x)))
    && (GapsApart(gaps) ==> GapsApart(gaps'))
  }

  lemma OwnPlaced(section: Section, placed: set<nat>, records: Records, gaps: seq<Gap>, records': Records,
                  gaps': seq<Gap>)
    requires SweepFrame(section, {}, records, gaps, placed, records', gaps') && Own(section, records) == {}
    requires forall a :: a in placed ==> a in records'
    ensures Own(section, records') == placed && OthersKept(section, records, gaps, records', gaps')
  {
    assert Open(Frame);
    forall a | a in records' && section.Contains(a)
      ensures a in placed
    {
      assert a in records ==> a in Own(section, records);
    }
  }

  /** The section's first byte is in no instruction that starts in the section, and in no sweep gap. */
  ghost predicate FirstByteLost(section: Section, records: Records, gaps: seq<Gap>) {
    section.address !in records && !InGap(gaps, section.address)
  }

  lemma LostByteSpoils(section: Section, records: Records, gaps: seq<Gap>)
    requires |section.table| > 0 && FirstByteLost(section, records, gaps)
    ensures !Partitioned(section, Own(section, records), records, gaps)
  {
    assert section.Contains(section.address);
    assert !Taken(Own(section, records), records, section.address);
  }

  /** What one section's turn comes to, from the records and gaps before it. */
  ghost predicate SectionDone(section: Section, seeds: seq<Seed>, records: Records, gaps: seq<Gap>, records': Records,
                              gaps': seq<Gap>) {
    && Confined(section, AllHarmless(section, seeds), records, records') && |records'| <= |records| + |section.table|
    && (forall x: nat :: InGap(gaps', x) && !InGap(gaps, x) ==> section.Contains(x))
    && (!AllHarmless(section, seeds) ==>
          Strays(section, seeds, records') &&
            (FirstByteLost(section, records, gaps) ==> FirstByteLost(section, records', gaps')))
  }

  lemma SeedsFit(section: Section, seeds: seq<Seed>, start: Records, placed: set<nat>, records: Records,
                 occupied: seq<bool>)
    requires Seeded(section, seeds, start, placed, records, occupied)
    ensures |records| <= |start| + |Marked(occupied)|
  {
    assert Open(Seeding);
  }

  /** The sweep after the seeds, harmful ones included. */
  lemma SweepDone(section: Section, seeds: seq<Seed>, start: Records, gaps: seq<Gap>, placed: set<nat>,
                  records: Records, left: seq<Gap>, before: seq<bool>, records': Records, gaps': seq<Gap>,
                  after: seq<bool>)
    requires Seeded(section, seeds, start, placed, records, before) && Descended({}, start, gaps, placed, records, left)
    requires Grows(section, section.address, records, before, records', after) && GapsSkip(section, left, before, gaps')
    ensures SectionDone(section, seeds, start, gaps, records', gaps')
  {
    assert Open(Seeding) && Open(Growing) && Open(Skips) && Open(Descent);
    MarkedFits(after);
    if !AllHarmless(section, seeds) {
      assert section.Contains(section.address) && Occupied(section, before, section.address);
    }
  }

  /** A harmful seed leaves the first byte lost. */
  lemma HarmSpoils(section: Section, seeds: seq<Seed>, records: Records, gaps: seq<Gap>, records': Records,
                   gaps': seq<Gap>)
    requires SectionDone(section, seeds, records, gaps, records', gaps') && Untouched(section, records, gaps)
    requires !AllHarmless(section, seeds)
    ensures !Partitioned(section, Own(section, records'), records', gaps')
  {
    assert |section.table| > 0 && section.Contains(section.address);
    assert section.address !in Own(section, records);
    LostByteSpoils(section, records', gaps');
  }

  lemma SweepStarts(section: Section, seeds: seq<Seed>, start: Records, gaps: seq<Gap>, placed: set<nat>,
                    records: Records, left: seq<Gap>, occupied: seq<bool>)
    requires Seeded(section, seeds, start, placed, records, occupied) && AllHarmless(section, seeds)
    requires Untouched(section, start, gaps) && Descended({}, start, gaps, placed, records, left)
    ensures Sweeping(section, placed, records, left, occupied, section.address)
    ensures forall a :: a in placed ==> section.Contains(a)
  {
    assert Open(Seeding) && Open(Descent) && Open(Bitmap);
    assert forall x: nat :: section.Contains(x) ==> !InGap(left, x);
  }

  /** The sweep after harmless seeds. */
  lemma CleanSection(section: Section, records: Records, gaps: seq<Gap>, recovered: set<nat>, descended: Records,
                     left: seq<Gap>, placed: set<nat>, records': Records, gaps': seq<Gap>, occupied: seq<bool>)
    requires Untouched(section, records, gaps) && Descended({}, records, gaps, recovered, descended, left)
    requires forall a :: a in recovered ==> section.Contains(a)
    requires SweepFrame(section, recovered, descended, left, placed, records', gaps') &&
             Exact(section, placed, records', occupied)
    requires Partitioned(section, placed, records', gaps')
    ensures Partitioned(section, Own(section, records'), records', gaps') &&
            OthersKept(section, records, gaps, records', gaps')
  {
    assert SweepFrame(section, {}, records, gaps, recovered, descended, left) by {
      assert Open(Descent);
    }
    FramesCompose(section, {}, records, gaps, recovered, descended, left, placed, records', gaps');
    OwnPlaced(section, placed, records, gaps, records', gaps');
  }

  // ----- what descent recovered in a section -----

  /** All seeds done, as long as they are harmless and the section was untouched. */
  ghost predicate Descending(section: Section, seeds: seq<Seed>, founds: seq<set<nat>>, start: Records,
                             records: Records, occupied: seq<bool>) {
    AllHarmless(section, seeds) && Own(section, start) == {} ==>
      SeedsTraced(section, seeds, founds, start, records, occupied)
  }

  lemma DescentStarts(section: Section, start: Records, occupied: seq<bool>)
    requires |occupied| == |section.table|
    ensures Descending(section, [], [], start, start, occupied)
  {
    assert forall a :: a in start && section.Contains(a) ==> a in Own(section, start);
  }

  lemma DescentStep(section: Section, seeds: seq<Seed>, k: nat, founds: seq<set<nat>>, start: Records, records: Records,
                    gaps: seq<Gap>, before: seq<bool>, records': Records, gaps': seq<Gap>, after: seq<bool>)
    requires Sorted(seeds) && k < |seeds| && Descending(section, seeds[..k], founds, start, records, before)
    requires Grows(section, seeds[k].address, records, before, records', after)
    requires |before| == |section.table| && |after| == |section.table|
    requires Inside(section, seeds[k]) && RecordsOccupied(section, records, before) ==>
      DescentFrom(section, seeds[k], records, gaps, records', gaps', after) && RecordsOccupied(section, records', after)
    requires !Inside(section, seeds[k]) && Harmless(section, seeds[k]) ==> records' == records && after == before
    ensures Descending(section, seeds[..k + 1], founds + [records'.Keys - records.Keys], start, records', after)
  {
    LastSeed(section, seeds, k);
    assert seeds[..k + 1] == seeds[..k] + [seeds[k]];
    if AllHarmless(section, seeds[..k + 1]) && Own(section, start) == {} {
      if Inside(section, seeds[k]) {
        assert forall o :: 0 <= o < |before| && before[o] ==> after[o] by {
          assert Open(Growing);
        }
        TracedStep(section, seeds[..k], founds, start, seeds[k], records, gaps, before, records', gaps', after);
      } else {
        assert records'.Keys - records.Keys == {};
        TracedSkip(section, seeds[..k], founds, start, seeds[k], records, before);
      }
    }
  }

  /** An occupied byte belongs to a recovered instruction once all seeds are done. */
  lemma OccupiedRecovered(section: Section, seeds: seq<Seed>, founds: seq<set<nat>>, start: Records, placed: set<nat>,
                          records: Records, occupied: seq<bool>, y: nat)
    requires SeedsTraced(section, seeds, founds, start, records, occupied) && Own(section, start) == {}
    requires Exact(section, placed, records, occupied) && section.Contains(y) && occupied[y - section.address]
    ensures RecoveredByte(section, records, y)
  {
    assert Open(Bitmap);
    assert Occupied(section, occupied, y);
    var a :| a in placed && a in records && a <= y < a + records[a].length;
    assert section.Contains(a);
    RecordFound(section, seeds, founds, start, records, occupied, a);
  }

  lemma RecordFound(section: Section, seeds: seq<Seed>, founds: seq<set<nat>>, start: Records, records: Records,
                    occupied: seq<bool>, a: nat)
    requires SeedsTraced(section, seeds, founds, start, records, occupied) && Own(section, start) == {}
    requires a in records && section.Contains(a)
    ensures FoundBy(founds, a) && records[a].recovered
  {
    assert a in start ==> a in Own(section, start);
    var i :| 0 <= i < |founds| && a in founds[i];
    assert section.address <= seeds[i].address && Traced(section, seeds[i], founds[i], records, occupied);
  }

  /** The sweep adds nothing recovered, so what the seeds found stays exactly what counts as recovered. */
  lemma RecoveredFound(section: Section, seeds: seq<Seed>, founds: seq<set<nat>>, start: Records, records: Records,
                       before: seq<bool>, records': Records, after: seq<bool>, a: nat)
    requires SeedsTraced(section, seeds, founds, start, records, before) && Own(section, start) == {}
    requires SweepAdds(section, records, before, records', after) && section.Contains(a)
    ensures IsRecovered(records', a) <==> FoundBy(founds, a)
    ensures a in records ==> a in records' && records'[a] == records[a]
  {
    assert Open(Sweep);
    if FoundBy(founds, a) {
      var i :| 0 <= i < |founds| && a in founds[i];
      assert a in records;
    }
    if a in records {
      RecordFound(section, seeds, founds, start, records, before, a);
    }
  }

  lemma CollisionKept(section: Section, seeds: seq<Seed>, founds: seq<set<nat>>, start: Records, placed: set<nat>,
                      records: Records, before: seq<bool>, records': Records, after: seq<bool>, x: nat)
    requires SeedsTraced(section, seeds, founds, start, records, before) && Own(section, start) == {}
    requires Exact(section, placed, records, before) && SweepAdds(section, records, before, records', after)
    requires Overlapped(section, before, x)
    ensures Collided(section, records', x)
  {
    var y: nat :| x <= y < x + LengthAt(section, x) && section.Contains(y) && before[y - section.address];
    OccupiedRecovered(section, seeds, founds, start, placed, records, before, y);
    var a :| a in records && section.Contains(a) && records[a].recovered && a <= y < a + records[a].length;
    RecoveredFound(section, seeds, founds, start, records, before, records', after, a);
    assert RecoveredByte(section, records', y);
  }

  lemma SeedDescended(section: Section, seeds: seq<Seed>, founds: seq<set<nat>>, start: Records, placed: set<nat>,
                      records: Records, before: seq<bool>, records': Records, after: seq<bool>, i: nat)
    requires SeedsTraced(section, seeds, founds, start, records, before) && Own(section, start) == {}
    requires Exact(section, placed, records, before) && SweepAdds(section, records, before, records', after)
    requires i < |seeds| && Inside(section, seeds[i])
    ensures DescendedFrom(section, seeds[i], founds[i], records')
  {
    assert Traced(section, seeds[i], founds[i], records, before);
    forall x | Sought(section, seeds[i], founds[i], x) && FitsExtent(section, seeds[i], x)
      ensures IsRecovered(records', x) || Collided(section, records', x)
    {
      if x in records {
        RecordFound(section, seeds, founds, start, records, before, x);
        RecoveredFound(section, seeds, founds, start, records, before, records', after, x);
      } else {
        CollisionKept(section, seeds, founds, start, placed, records, before, records', after, x);
      }
    }
  }

  /** In a finished section the recovered records are exactly what descent from its seeds finds. */
  lemma DescentDone(section: Section, seeds: seq<Seed>, founds: seq<set<nat>>, start: Records, placed: set<nat>,
                    records: Records, before: seq<bool>, records': Records, after: seq<bool>)
    requires Descending(section, seeds, founds, start, records, before)
    requires AllHarmless(section, seeds) && Own(section, start) == {}
    requires Seeded(section, seeds, start, placed, records, before)
    requires SweepAdds(section, records, before, records', after)
    ensures RecoveredExactly(section, seeds, records')
  {
    assert Exact(section, placed, records, before) by {
      assert Open(Seeding);
    }
    forall a | section.Contains(a)
      ensures IsRecovered(records', a) <==> FoundBy(founds, a)
    {
      RecoveredFound(section, seeds, founds, start, records, before, records', after, a);
    }
    forall i | 0 <= i < |seeds| && Inside(section, seeds[i])
      ensures DescendedFrom(section, seeds[i], founds[i], records')
    {
      SeedDescended(section, seeds, founds, start, placed, records, before, records', after, i);
    }
    assert DescentExact(section, seeds, founds, records');
  }

  method DisassembleSection(section: Section, seeds: seq<Seed>, records: Records, gaps: seq<Gap>)
    returns (r: Result<(Records, seq<Gap>), DisassemblyError>)
    requires section.Valid() && Sorted(seeds) && (forall i :: 0 <= i < |seeds| ==> seeds[i].address < TWO64)
    ensures r.Failure? ==> |records| + |section.table| > MAX_DISASSEMBLY_INSTRUCTIONS
    ensures r.Success? && Merged(gaps) ==> Merged(r.value.1)
    ensures r.Success? ==> SectionDone(section, seeds, records, gaps, r.value.0, r.value.1)
    ensures r.Success? && Untouched(section, records, gaps) ==>
              (Partitioned(section, Own(section, r.value.0), r.value.0, r.value.1) <==> AllHarmless(section, seeds))
    ensures r.Success? && Untouched(section, records, gaps) && AllHarmless(section, seeds) ==>
              OthersKept(section, records, gaps, r.value.0, r.value.1) &&
                RecoveredExactly(section, seeds, r.value.0)
  {
    var occupied := new bool[|section.table|](_ => false);
    var current, found := records, gaps;
    ghost var placed: set<nat> := {};
    ghost var founds: seq<set<nat>> := [];
    NothingSeeded(section, records, occupied[..]);
    DescentStarts(section, records, occupied[..]);
    NothingDescends({}, records, gaps);
    for k := 0 to |seeds|
      invariant Seeded(section, seeds[..k], records, placed, current, occupied[..])
      invariant Descended({}, records, gaps, placed, current, found)
      invariant Descending(section, seeds[..k], founds, records, current, occupied[..])
      invariant Merged(gaps) ==> Merged(found)
    {
      ghost var p, c, g, bits := placed, current, found, occupied[..];
      current, found, placed := RecoverSeed(section, seeds[k], occupied, current, found, placed);
      DescendedTwice({}, records, gaps, p, c, g, placed, current, found);
      SeedStep(section, seeds, k, records, p, c, bits, placed, current, occupied[..]);
      DescentStep(section, seeds, k, founds, records, c, g, bits, current, found, occupied[..]);
      founds := founds + [current.Keys - c.Keys];
    }
    assert seeds[..|seeds|] == seeds;
    ghost var recovered, descended, left, bits := placed, current, found, occupied[..];
    ghost var clean := Untouched(section, records, gaps) && AllHarmless(section, seeds);
    if clean {
      SweepStarts(section, seeds, records, gaps, recovered, descended, left, bits);
    }
    r, placed := LinearSweep(section, occupied, current, found, placed);
    if r.Success? {
      SweepDone(section, seeds, records, gaps, recovered, descended, left, bits, r.value.0, r.value.1, occupied[..]);
      if clean {
        DescentDone(section, seeds, founds, records, recovered, descended, bits, r.value.0, occupied[..]);
        CleanSection(section, records, gaps, recovered, descended, left, placed, r.value.0, r.value.1, occupied[..]);
      } else if Untouched(section, records, gaps) {
        HarmSpoils(section, seeds, records, gaps, r.value.0, r.value.1);
      }
    } else {
      SeedsFit(section, seeds, records, recovered, descended, bits);
    }
  }

  // ----- all sections -----

  predicate SectionsApart(sections: seq<Section>) {
    forall i, j | 0 <= i < j < |sections| ::
      sections[i].End() <= sections[j].address || sections[j].End() <= sections[i].address
  }

  /** Work on another section leaves this one's partition alone. */
  lemma PartitionKept(section: Section, other: Section, records: Records, gaps: seq<Gap>, records': Records,
                      gaps': seq<Gap>)
    requires Partitioned(section, Own(section, records), records, gaps) &&
             OthersKept(other, records, gaps, records', gaps')
    requires section.End() <= other.address || other.End() <= section.address
    ensures Partitioned(section, Own(section, records'), records', gaps')
  {
    assert forall x: nat :: section.Contains(x) ==> !other.Contains(x);
    assert Own(section, records') == Own(section, records);
    assert forall x: nat :: Taken(Own(section, records), records', x) <==> Taken(Own(section, records), records, x);
  }

  lemma UntouchedKept(section: Section, other: Section, records: Records, gaps: seq<Gap>, records': Records,
                      gaps': seq<Gap>)
    requires Untouched(section, records, gaps) && OthersKept(other, records, gaps, records', gaps')
    requires section.End() <= other.address || other.End() <= section.address
    ensures Untouched(section, records', gaps')
  {
    assert forall x: nat :: section.Contains(x) ==> !other.Contains(x);
    assert Own(section, records') == Own(section, records);
  }

  /** The first n sections are partitioned among the instructions that start in them and the sweep gaps. */
  ghost predicate AllPartitioned(sections: seq<Section>, n: nat, records: Records, gaps: seq<Gap>) {
    forall k :: 0 <= k < n && k < |sections| ==> Partitioned(sections[k], Own(sections[k], records), records, gaps)
  }

  /** In the first n sections the recovered records are exactly what descent from their seeds finds. */
  ghost predicate AllRecovered(sections: seq<Section>, seeds: seq<seq<Seed>>, n: nat, records: Records)
    requires |seeds| == |sections|
  {
    forall k :: 0 <= k < n && k < |sections| ==> RecoveredExactly(sections[k], seeds[k], records)
  }

  predicate EverySeedHarmless(sections: seq<Section>, seeds: seq<seq<Seed>>)
    requires |seeds| == |sections|
  {
    forall k | 0 <= k < |sections| :: AllHarmless(sections[k], seeds[k])
  }

  /** All bytes of the sections. */
  function TotalBytes(sections: seq<Section>): nat {
    if sections == [] then 0 else TotalBytes(sections[..|sections| - 1]) + |sections[|sections| - 1].table|
  }

  lemma {:induction false} TotalGrows(sections: seq<Section>, k: nat)
    requires k < |sections|
    ensures TotalBytes(sections[..k]) + |sections[k].table| == TotalBytes(sections[..k + 1]) <= TotalBytes(sections)
    decreases |sections| - k
  {
    assert sections[..k + 1][..k] == sections[..k];
    if k + 1 < |sections| {
      TotalGrows(sections, k + 1);
    } else {
      assert sections[..k + 1] == sections;
    }
  }

  /** Of the sections with a harmful seed, the highest. */
  ghost predicate HighestHarmful(sections: seq<Section>, seeds: seq<seq<Seed>>, h: nat)
    requires |seeds| == |sections|
  {
    && h < |sections| && !AllHarmless(sections[h], seeds[h])
    && forall k :: 0 <= k < |sections| && !AllHarmless(sections[k], seeds[k]) ==>
      sections[k].address <= sections[h].address
  }

  lemma {:induction false} SomeHighest(sections: seq<Section>, seeds: seq<seq<Seed>>) returns (h: nat)
    requires |seeds| == |sections| && !EverySeedHarmless(sections, seeds)
    ensures HighestHarmful(sections, seeds, h)
    decreases |sections|
  {
    var last := |sections| - 1;
    if EverySeedHarmless(sections[..last], seeds[..last]) {
      assert forall k :: 0 <= k < last ==> AllHarmless(sections[..last][k], seeds[..last][k]);
      h := last;
    } else {
      h := SomeHighest(sections[..last], seeds[..last]);
      assert forall k :: 0 <= k < last ==> sections[..last][k] == sections[k] && seeds[..last][k] == seeds[k];
      if !AllHarmless(sections[last], seeds[last]) && sections[last].address > sections[h].address {
        h := last;
      }
    }
  }

  /** No section's turn gives the highest harmful section its first byte back. */
  lemma LostStaysLost(sections: seq<Section>, seeds: seq<seq<Seed>>, h: nat, k: nat, records: Records, gaps: seq<Gap>,
                      records': Records, gaps': seq<Gap>)
    requires |seeds| == |sections| && SectionsApart(sections) && HighestHarmful(sections, seeds, h) && k < |sections|
    requires FirstByteLost(sections[h], records, gaps) &&
             SectionDone(sections[k], seeds[k], records, gaps, records', gaps')
    ensures FirstByteLost(sections[h], records', gaps')
  {
    if k != h {
      assert |sections[h].table| > 0 && sections[h].Contains(sections[h].address);
      assert !sections[k].Contains(sections[h].address);
    }
  }

  method Disassemble(sections: seq<Section>, seeds: seq<seq<Seed>>)
    returns (r: Result<(Records, seq<Gap>), DisassemblyError>)
    requires |seeds| == |sections| && forall k :: 0 <= k < |sections| ==> sections[k].Valid() && Sorted(seeds[k])
    requires forall k, i :: 0 <= k < |sections| && 0 <= i < |seeds[k]| ==> seeds[k][i].address < TWO64
    ensures r.Failure? ==> TotalBytes(sections) > MAX_DISASSEMBLY_INSTRUCTIONS
    ensures r.Success? ==> Merged(r.value.1)
    ensures r.Success? && SectionsApart(sections) ==>
              (AllPartitioned(sections, |sections|, r.value.0, r.value.1) <==> EverySeedHarmless(sections, seeds))
    ensures r.Success? && SectionsApart(sections) && EverySeedHarmless(sections, seeds) ==>
              GapsApart(r.value.1) && AllRecovered(sections, seeds, |sections|, r.value.0)
  {
    var records: Records, gaps := map[], [];
    ghost var apart, good := SectionsApart(sections), SectionsApart(sections) && EverySeedHarmless(sections, seeds);
    ghost var h: nat := 0;
    if apart && !good {
      h := SomeHighest(sections, seeds);
    }
    for k := 0 to |sections|
      invariant |records| <= TotalBytes(sections[..k]) && Merged(gaps)
      invariant good ==> AllPartitioned(sections, k, records, gaps) && GapsApart(gaps)
      invariant good ==> AllRecovered(sections, seeds, k, records)
      invariant good ==> forall j :: k <= j < |sections| ==> Untouched(sections[j], records, gaps)
      invariant apart && !good ==> FirstByteLost(sections[h], records, gaps)
    {
      TotalGrows(sections, k);
      var done := DisassembleSection(sections[k], seeds[k], records, gaps);
      if done.Failure? {
        return done;
      }
      if good {
        SectionStep(sections, k, records, gaps, done.value.0, done.value.1);
        RecoveredStep(sections, seeds, k, records, gaps, done.value.0, done.value.1);
      } else if apart {
        LostStaysLost(sections, seeds, h, k, records, gaps, done.value.0, done.value.1);
      }
      records, gaps := done.value.0, done.value.1;
    }
    if apart && !good {
      LostByteSpoils(sections[h], records, gaps);
    }
    assert sections[..|sections|] == sections;
    r := Success((records, gaps));
  }

  lemma RecoveredStep(sections: seq<Section>, seeds: seq<seq<Seed>>, k: nat, records: Records, gaps: seq<Gap>,
                      records': Records, gaps': seq<Gap>)
    requires |seeds| == |sections| && SectionsApart(sections) && k < |sections|
    requires AllRecovered(sections, seeds, k, records) && OthersKept(sections[k], records, gaps, records', gaps')
    requires RecoveredExactly(sections[k], seeds[k], records')
    ensures AllRecovered(sections, seeds, k + 1, records')
  {
    forall j | 0 <= j < k
      ensures RecoveredExactly(sections[j], seeds[j], records')
    {
      assert forall a: nat :: sections[j].Contains(a) ==> !sections[k].Contains(a);
      RecoveredKept(sections[j], seeds[j], records, records');
    }
  }

  lemma SectionStep(sections: seq<Section>, k: nat, records: Records, gaps: seq<Gap>, records': Records,
                    gaps': seq<Gap>)
    requires SectionsApart(sections) && k < |sections| && AllPartitioned(sections, k, records, gaps) && GapsApart(gaps)
    requires forall j :: k <= j < |sections| ==> Untouched(sections[j], records, gaps)
    requires Partitioned(sections[k], Own(sections[k], records'), records', gaps') &&
             OthersKept(sections[k], records, gaps, records', gaps')
    ensures AllPartitioned(sections, k + 1, records', gaps') && GapsApart(gaps')
    ensures forall j :: k < j < |sections| ==> Untouched(sections[j], records', gaps')
  {
    forall j | 0 <= j < k
      ensures Partitioned(sections[j], Own(sections[j], records'), records', gaps')
    {
      PartitionKept(sections[j], sections[k], records, gaps, records', gaps');
    }
    forall j | k < j < |sections|
      ensures Untouched(sections[j], records', gaps')
    {
      UntouchedKept(sections[j], sections[k], records, gaps, records', gaps');
    }
  }

  /** A symbol one byte below a one-byte section: its record is outside the section, whose byte is lost. */
  method SeedBelowSectionHarms() returns (records: Records, gaps: seq<Gap>)
    ensures var section := Section(0x1000, [Decoded(1, Return, None)]);
            0xFFF in records && !Partitioned(section, Own(section, records), records, gaps)
  {
    var section, seed := Section(0x1000, [Decoded(1, Return, None)]), Seed(0xFFF, 2);
    var r := DisassembleSection(section, [seed], map[], []);
    assert !Harmless(section, [seed][0]);
    records, gaps := r.value.0, r.value.1;
  }
}
