/**
 Decision regions (`lift_region_decision`): a side-effect-free region that chooses between two exits.
 */
module DecisionRegion {
  import opened Wrappers
  import opened Semantics
  import opened Machine
  import opened Decode
  import opened CfgRecovery
  import opened Runs
  import opened Paths

  /** A physical location a region imports or exports. */
  datatype Location = Location(name: string, kind: nat, width: nat, typeName: string)

  datatype RegionError =
    | CallsOrInteriorEntries | NotRecovered(cfg: Error) | ChangesState(ip: nat) | NoBranch | InternalContinuation
    | ExitsDiffer | FlagNotImported(flag: Flag) | OutputNotAnInput(output: nat)
    | RepeatedExit | InventoryTooLarge | DuplicateNames | FlagWidth(flag: Flag)

  const MAX_LOCATIONS: nat := 256

  /** `predicate` decides for `trueExit`; output i is the unchanged input passThrough[i]. */
  datatype Decision = Decision(addresses: set<nat>, condition: Condition, trueExit: nat, falseExit: nat,
    passThrough: seq<nat>)

  function Lower(c: char): char {
    if 'A' <= c <= 'Z' then ((c as int) + 32) as char else c
  }

  /** The name with ASCII case folded away. */
  function Fold(name: string): string {
    seq(|name|, i requires 0 <= i < |name| => Lower(name[i]))
  }

  predicate SameIgnoringCase(a: string, b: string) { Fold(a) == Fold(b) }

  function FlagName(flag: Flag): string {
    match flag
    case ZF => "ZF"
    case SF => "SF"
    case OF => "OF"
    case CF => "CF"
  }

  /** The same letter in upper and lower case. */
  predicate CasePair(a: char, b: char) {
    ('A' <= a <= 'Z' && b as int == a as int + 32) || ('A' <= b <= 'Z' && a as int == b as int + 32)
  }

  /** Names are the same, case aside, when they differ only in the case of letters. */
  lemma SameNameExactly(a: string, b: string)
    ensures SameIgnoringCase(a, b) <==>
            |a| == |b| && forall i :: 0 <= i < |a| ==> a[i] == b[i] || CasePair(a[i], b[i])
  {
    if SameIgnoringCase(a, b) {
      assert |Fold(a)| == |a| && |Fold(b)| == |b|;
      forall i | 0 <= i < |a|
        ensures a[i] == b[i] || CasePair(a[i], b[i])
      {
        assert Fold(a)[i] == Lower(a[i]) && Fold(b)[i] == Lower(b[i]);
      }
    }
    if |a| == |b| && forall i :: 0 <= i < |a| ==> a[i] == b[i] || CasePair(a[i], b[i]) {
      assert forall i :: 0 <= i < |a| ==> Fold(a)[i] == Fold(b)[i];
    }
  }

  /** A name stands for a flag exactly when it is the flag's letter and F, in any case. */
  lemma NamesFlag(name: string, flag: Flag)
    ensures SameIgnoringCase(name, FlagName(flag)) <==>
            && |name| == 2
            && (name[1] == 'F' || name[1] == 'f')
            && match flag
               case ZF => name[0] == 'Z' || name[0] == 'z'
               case SF => name[0] == 'S' || name[0] == 's'
               case OF => name[0] == 'O' || name[0] == 'o'
               case CF => name[0] == 'C' || name[0] == 'c'
  {
    SameNameExactly(name, FlagName(flag));
  }

  predicate Imports(liveIn: seq<Location>, flag: Flag) {
    exists k | 0 <= k < |liveIn| :: SameIgnoringCase(liveIn[k].name, FlagName(flag))
  }

  /** No two locations share a name, case aside. */
  predicate DistinctNames(locations: seq<Location>) {
    forall i, j | 0 <= i < j < |locations| :: !SameIgnoringCase(locations[i].name, locations[j].name)
  }

  /** What the closing validation demands of the declared exits and locations. */
  ghost predicate InventoryValid(exits: seq<nat>, liveIn: seq<Location>, liveOut: seq<Location>, condition: Condition) {
    && |exits| == 2 && |liveIn| <= MAX_LOCATIONS && |liveOut| <= MAX_LOCATIONS
    && DistinctNames(liveIn) && DistinctNames(liveOut)
    && forall flag :: flag in ConditionReads(condition) ==> FlagWidths(liveIn, flag)
  }

  /** Inputs with the flag's name are one bit or one byte wide. */
  predicate FlagWidths(liveIn: seq<Location>, flag: Flag) {
    forall k | 0 <= k < |liveIn| && SameIgnoringCase(liveIn[k].name, FlagName(flag)) ::
      liveIn[k].width == 1 || liveIn[k].width == 8
  }

  function Declared(exits: set<nat>): Options {
    Options(None, Some(exits), None, false)
  }

  // ----- what a decision means -----

  /** Every run stays in the region, changes nothing, and leaves by the exit the entry flags choose. */
  ghost predicate Decides(code: Code, d: Decision, m0: State, steps: nat) {
    && (forall j: nat {:trigger MachineRun(code, m0, j)} :: j <= steps ==>
          MachineRun(code, m0, j).Next? && var m := MachineRun(code, m0, j).state;
          m == m0.(rip := m.rip) && (if j < steps then m.rip in d.addresses
                                     else m.rip == if Holds(d.condition, m0.flags) then d.trueExit else d.falseExit))
    && steps > 0
  }

  ghost predicate AlwaysDecides(code: Code, d: Decision, steps: nat) {
    forall m0: State :: m0.rip == code.address ==> Decides(code, d, m0, steps)
  }

  ghost predicate DecisionExact(code: Code, exits: set<nat>, liveIn: seq<Location>, liveOut: seq<Location>, d: Decision)
  {
    && {d.trueExit, d.falseExit} == exits && d.trueExit != d.falseExit
    && !code.Contains(d.trueExit) && !code.Contains(d.falseExit)
    && (forall ip :: ip in d.addresses <==> Reached(code, Declared(exits), ip))
    && (exists last :: last in d.addresses && code.Decodes(last) && code.OpAt(last) == Jcc(d.condition) &&
                       forall ip :: ip in d.addresses && ip != last ==>
                         ip < last && code.Decodes(ip) && code.OpAt(ip).Nop?)
    && (exists steps :: AlwaysDecides(code, d, steps))
    && (forall flag :: flag in ConditionReads(d.condition) ==> Imports(liveIn, flag))
    && |d.passThrough| == |liveOut|
    && (forall i :: 0 <= i < |liveOut| ==> d.passThrough[i] < |liveIn| && liveIn[d.passThrough[i]] == liveOut[i])
  }

  /** The regions accepted, said without the algorithm. */
  ghost predicate DecisionAccepted(code: Code, exits: seq<nat>, callsOrInterior: bool, liveIn: seq<Location>,
                                   liveOut: seq<Location>) {
    && !callsOrInterior && Recoverable(code, Declared(ExitSet(exits)))
    && (exists last :: BranchRegion(code, ExitSet(exits), liveIn, last) &&
                       InventoryValid(exits, liveIn, liveOut, code.OpAt(last).condition))
    && forall i :: 0 <= i < |liveOut| ==> liveOut[i] in liveIn
  }

  function ExitSet(exits: seq<nat>): set<nat> { set exit | exit in exits }

  /** One reachable conditional branch, all else NOPs, to the two declared exits; its flags are imported. */
  ghost predicate BranchRegion(code: Code, exits: set<nat>, liveIn: seq<Location>, last: nat) {
    && Reached(code, Declared(exits), last) && code.Decodes(last) && code.OpAt(last).Jcc?
    && (forall ip :: Reached(code, Declared(exits), ip) && ip != last ==> code.Decodes(ip) && code.OpAt(ip).Nop?)
    && var taken, other := code.At(last).target, code.NextIp(last);
    && !code.Contains(taken) && !code.Contains(other) && taken != other && {taken, other} == exits
    && forall flag :: flag in ConditionReads(code.OpAt(last).condition) ==> Imports(liveIn, flag)
  }

  /** The only candidate is the branch found. */
  lemma BranchIsFound(code: Code, exits: set<nat>, nodes: map<nat, Node>, liveIn: seq<Location>, last: nat)
    requires ExactClosure(code, Declared(exits), nodes) && BranchRegion(code, exits, liveIn, last)
    ensures OneBranch(nodes, nodes.Keys, Some(last))
    ensures nodes[last].successors == [code.At(last).target, code.NextIp(last)] && nodes[last].op == code.OpAt(last)
    ensures forall ip :: OneBranch(nodes, nodes.Keys, Some(ip)) ==> ip == last
  {
  }

  lemma FoundIsBranch(code: Code, exits: set<nat>, nodes: map<nat, Node>, liveIn: seq<Location>, last: nat)
    requires ExactClosure(code, Declared(exits), nodes) && OneBranch(nodes, nodes.Keys, Some(last))
    ensures code.Decodes(last) && nodes[last].op == code.OpAt(last) &&
            nodes[last].successors == [code.At(last).target, code.NextIp(last)]
    ensures
      var taken, other := code.At(last).target, code.NextIp(last);
      BranchRegion(code, exits, liveIn, last) <==>
        !code.Contains(taken) && !code.Contains(other) && taken != other && {taken, other} == exits &&
        forall flag :: flag in ConditionReads(code.OpAt(last).condition) ==> Imports(liveIn, flag)
  {
    assert nodes[last] == NodeAt(code, Declared(exits), last);
    forall ip | ip in nodes && ip != last
      ensures code.Decodes(ip) && code.OpAt(ip).Nop?
    {
      assert Some(ip) != Some(last);
    }
  }

  lemma OnlyBranch(code: Code, exits: set<nat>, nodes: map<nat, Node>, liveIn: seq<Location>, last: nat)
    requires ExactClosure(code, Declared(exits), nodes) && OneBranch(nodes, nodes.Keys, Some(last))
    ensures forall ip :: BranchRegion(code, exits, liveIn, ip) ==> ip == last
  {
    forall ip | BranchRegion(code, exits, liveIn, ip)
      ensures ip == last
    {
      BranchIsFound(code, exits, nodes, liveIn, ip);
    }
  }

  lemma NoBranchFound(code: Code, exits: set<nat>, nodes: map<nat, Node>, liveIn: seq<Location>)
    requires ExactClosure(code, Declared(exits), nodes) && !exists ip :: OneBranch(nodes, nodes.Keys, Some(ip))
    ensures !exists ip :: BranchRegion(code, exits, liveIn, ip)
  {
    forall ip | BranchRegion(code, exits, liveIn, ip)
      ensures false
    {
      BranchIsFound(code, exits, nodes, liveIn, ip);
    }
  }

  // ----- the checks -----

  /** All nodes are NOPs but one, a conditional branch. */
  ghost predicate OneBranch(nodes: map<nat, Node>, seen: set<nat>, decision: Option<nat>) {
    && (decision.Some? ==> decision.value in seen && decision.value in nodes && nodes[decision.value].op.Jcc?)
    && (forall ip :: ip in seen && Some(ip) != decision ==> ip in nodes && nodes[ip].op.Nop?)
  }

  method FindBranch(nodes: map<nat, Node>) returns (r: Result<nat, RegionError>)
    ensures r.Success? <==> exists ip :: OneBranch(nodes, nodes.Keys, Some(ip))
    ensures r.Success? ==> OneBranch(nodes, nodes.Keys, Some(r.value))
  {
    var decision: Option<nat> := None;
    var todo := nodes.Keys;
    while todo != {}
      invariant todo <= nodes.Keys && OneBranch(nodes, nodes.Keys - todo, decision)
      decreases todo
    {
      var ip :| ip in todo;
      todo := todo - {ip};
      match nodes[ip].op {
        case Nop =>
        case Jcc(_) =>
          if decision.Some? {
            return Failure(ChangesState(ip));
          }
          decision := Some(ip);
        case _ => return Failure(ChangesState(ip));
      }
    }
    if decision.None? {
      return Failure(NoBranch);
    }
    r := Success(decision.value);
  }

  method CheckFlags(condition: Condition, liveIn: seq<Location>) returns (r: Result<(), RegionError>)
    ensures r.Success? <==> forall flag :: flag in ConditionReads(condition) ==> Imports(liveIn, flag)
  {
    var todo := ConditionReads(condition);
    while todo != {}
      invariant todo <= ConditionReads(condition)
      invariant forall flag :: flag in ConditionReads(condition) - todo ==> Imports(liveIn, flag)
      decreases todo
    {
      var flag :| flag in todo;
      todo := todo - {flag};
      if !Imports(liveIn, flag) {
        return Failure(FlagNotImported(flag));
      }
    }
    r := Success(());
  }

  method BindOutputs(liveIn: seq<Location>, liveOut: seq<Location>) returns (r: Result<seq<nat>, RegionError>)
    ensures r.Success? <==> forall i :: 0 <= i < |liveOut| ==> liveOut[i] in liveIn
    ensures r.Success? ==> |r.value| == |liveOut| && forall i :: 0 <= i < |liveOut| ==>
              r.value[i] < |liveIn| && liveIn[r.value[i]] == liveOut[i] && liveOut[i] !in liveIn[..r.value[i]]
  {
    var bound: seq<nat> := [];
    for i := 0 to |liveOut|
      invariant |bound| == i
      invariant forall j :: 0 <= j < i ==>
                bound[j] < |liveIn| && liveIn[bound[j]] == liveOut[j] && liveOut[j] !in liveIn[..bound[j]]
    {
      var k := 0;
      while k < |liveIn| && liveIn[k] != liveOut[i]
        invariant k <= |liveIn| && liveOut[i] !in liveIn[..k]
      {
        assert liveIn[..k + 1] == liveIn[..k] + [liveIn[k]];
        k := k + 1;
      }
      if k == |liveIn| {
        assert liveIn[..k] == liveIn;
        return Failure(OutputNotAnInput(i));
      }
      bound := bound + [k];
    }
    r := Success(bound);
  }

  /** Duplicate names show as a smaller set of names. */
  method HasDistinctNames(locations: seq<Location>) returns (r: bool)
    ensures r <==> DistinctNames(locations)
  {
    var names: set<string> := {};
    NoNames();
    assert locations[..0] == [];
    for k := 0 to |locations|
      invariant NamesCounted(locations[..k], names)
    {
      assert locations[..k + 1] == locations[..k] + [locations[k]];
      OneMoreName(locations[..k], names, locations[k]);
      names := names + {Fold(locations[k].name)};
    }
    assert locations[..|locations|] == locations;
    NamesDecide(locations, names);
    r := |names| == |locations|;
  }

  ghost predicate NamesOf(locations: seq<Location>, names: set<string>) {
    && (forall i :: 0 <= i < |locations| ==> Fold(locations[i].name) in names)
    && (forall name :: name in names ==> exists i :: 0 <= i < |locations| && Fold(locations[i].name) == name)
  }

  ghost predicate NamesCounted(locations: seq<Location>, names: set<string>) {
    forall b: bool {:trigger Unfold(b)} :: Unfold(b) ==>
      NamesOf(locations, names) && |names| <= |locations| && (|names| == |locations| <==> DistinctNames(locations))
  }

  lemma NoNames()
    ensures NamesCounted([], {})
  {
  }

  lemma NamesDecide(locations: seq<Location>, names: set<string>)
    requires NamesCounted(locations, names)
    ensures |names| == |locations| <==> DistinctNames(locations)
  {
    assert Unfold(true);
  }

  lemma OneMoreName(locations: seq<Location>, names: set<string>, location: Location)
    requires NamesCounted(locations, names)
    ensures NamesCounted(locations + [location], names + {Fold(location.name)})
  {
    assert Unfold(true);
    NameJoins(locations, names, location);
    if Fold(location.name) in names {
      assert names + {Fold(location.name)} == names;
    }
  }

  lemma NameJoins(locations: seq<Location>, names: set<string>, location: Location)
    requires NamesOf(locations, names)
    ensures NamesOf(locations + [location], names + {Fold(location.name)})
    ensures DistinctNames(locations + [location]) <==> DistinctNames(locations) && Fold(location.name) !in names
  {
    var more, n := locations + [location], |locations|;
    assert more[n] == location && forall i :: 0 <= i < n ==> more[i] == locations[i];
    assert Fold(more[n].name) == Fold(location.name);
    if Fold(location.name) in names {
      var i :| 0 <= i < n && Fold(locations[i].name) == Fold(location.name);
      assert SameIgnoringCase(more[i].name, more[n].name);
    }
    if DistinctNames(more) {
      forall i, j | 0 <= i < j < n
        ensures !SameIgnoringCase(locations[i].name, locations[j].name)
      {
        assert !SameIgnoringCase(more[i].name, more[j].name);
      }
    }
  }

  method FlagInput(liveIn: seq<Location>, flag: Flag) returns (r: Option<nat>)
    ensures r.Some? <==> Imports(liveIn, flag)
    ensures r.Some? ==> r.value < |liveIn| && SameIgnoringCase(liveIn[r.value].name, FlagName(flag))
  {
    r := None;
    for k := 0 to |liveIn|
      invariant r.None? && forall i :: 0 <= i < k ==> !SameIgnoringCase(liveIn[i].name, FlagName(flag))
    {
      if SameIgnoringCase(liveIn[k].name, FlagName(flag)) {
        return Some(k);
      }
    }
  }

  /** The part of the closing validation that the lift has not settled itself. */
  method ValidateDecision(exits: seq<nat>, liveIn: seq<Location>, liveOut: seq<Location>, condition: Condition)
    returns (r: Result<(), RegionError>)
    requires forall flag :: flag in ConditionReads(condition) ==> Imports(liveIn, flag)
    ensures r.Success? <==> InventoryValid(exits, liveIn, liveOut, condition)
  {
    if |exits| != 2 {
      return Failure(RepeatedExit);
    }
    if |liveIn| > MAX_LOCATIONS || |liveOut| > MAX_LOCATIONS {
      return Failure(InventoryTooLarge);
    }
    var inputs := HasDistinctNames(liveIn);
    var outputs := HasDistinctNames(liveOut);
    if !inputs || !outputs {
      return Failure(DuplicateNames);
    }
    var todo := ConditionReads(condition);
    while todo != {}
      invariant todo <= ConditionReads(condition)
      invariant forall flag :: flag in ConditionReads(condition) - todo ==> FlagWidths(liveIn, flag)
      decreases todo
    {
      var flag :| flag in todo;
      todo := todo - {flag};
      var input := FlagInput(liveIn, flag);
      OneInput(liveIn, flag, input.value);
      if liveIn[input.value].width != 1 && liveIn[input.value].width != 8 {
        return Failure(FlagWidth(flag));
      }
    }
    r := Success(());
  }

  lemma OneInput(liveIn: seq<Location>, flag: Flag, k: nat)
    requires DistinctNames(liveIn) && k < |liveIn| && SameIgnoringCase(liveIn[k].name, FlagName(flag))
    ensures forall i :: 0 <= i < |liveIn| && SameIgnoringCase(liveIn[i].name, FlagName(flag)) ==> i == k
  {
  }

  method LiftDecision(code: Code, exits: seq<nat>, callsOrInterior: bool, liveIn: seq<Location>, liveOut: seq<Location>)
    returns (r: Result<Decision, RegionError>)
    requires code.Valid()
    ensures r.Success? <==> DecisionAccepted(code, exits, callsOrInterior, liveIn, liveOut)
    ensures r.Success? ==> DecisionExact(code, ExitSet(exits), liveIn, liveOut, r.value)
  {
    if callsOrInterior {
      return Failure(CallsOrInteriorEntries);
    }
    var declared := ExitSet(exits);
    var recovered := Recover(code, Declared(declared));
    if recovered.Failure? {
      return Failure(NotRecovered(recovered.error));
    }
    var nodes := recovered.value;
    var found := FindBranch(nodes);
    if found.Failure? {
      NoBranchFound(code, declared, nodes, liveIn);
      return Failure(found.error);
    }
    var ip := found.value;
    OnlyBranch(code, declared, nodes, liveIn, ip);
    FoundIsBranch(code, declared, nodes, liveIn, ip);
    var successors := nodes[ip].successors;
    if |successors| != 2 || code.Contains(successors[0]) || code.Contains(successors[1]) {
      return Failure(InternalContinuation);
    }
    if successors[0] == successors[1] || {successors[0], successors[1]} != declared {
      return Failure(ExitsDiffer);
    }
    var flags := CheckFlags(nodes[ip].op.condition, liveIn);
    if flags.Failure? {
      return Failure(flags.error);
    }
    var bound := BindOutputs(liveIn, liveOut);
    if bound.Failure? {
      return Failure(bound.error);
    }
    var valid := ValidateDecision(exits, liveIn, liveOut, nodes[ip].op.condition);
    if valid.Failure? {
      return Failure(valid.error);
    }
    var d := Decision(nodes.Keys, nodes[ip].op.condition, successors[0], successors[1], bound.value);
    RegionDecides(code, declared, nodes, ip, d);
    r := Success(d);
  }

  // ----- the chain -----

  /** What the checks establish about the recovered region. */
  ghost predicate Chain(code: Code, exits: set<nat>, nodes: map<nat, Node>, last: nat, d: Decision) {
    && Recoverable(code, Declared(exits)) && ExactClosure(code, Declared(exits), nodes)
    && OneBranch(nodes, nodes.Keys, Some(last)) && d.addresses == nodes.Keys
    && nodes[last].successors == [d.trueExit, d.falseExit] && nodes[last].op == Jcc(d.condition)
    && !code.Contains(d.trueExit) && !code.Contains(d.falseExit)
  }

  /** Along any path every node but the end is a NOP, and control runs along it changing nothing. */
  lemma {:induction false} ChainRuns(code: Code, exits: set<nat>, nodes: map<nat, Node>, last: nat, d: Decision,
                                     p: seq<nat>, m0: State)
    requires Chain(code, exits, nodes, last, d) && PathFrom(Edges(code, Declared(exits)), code.address, p) &&
             m0.rip == code.address
    ensures forall j: nat {:trigger MachineRun(code, m0, j)} :: j < |p| ==>
            MachineRun(code, m0, j) == Next(m0.(rip := p[j])) && p[j] in nodes
    decreases |p|
  {
    var edges := Edges(code, Declared(exits));
    assert Reached(code, Declared(exits), Last(p));
    if |p| == 1 {
      assert MachineRun(code, m0, 0) == Next(m0.(rip := p[0]));
    } else {
      PathFront(edges, code.address, p);
      ChainRuns(code, exits, nodes, last, d, Front(p), m0);
      var previous, k := Last(Front(p)), |p| - 2;
      assert MachineRun(code, m0, k) == Next(m0.(rip := previous));
      NopStep(code, exits, nodes, last, d, previous, Last(p), m0.(rip := previous));
      assert MachineRun(code, m0, k + 1) == MachineStep(code, m0.(rip := previous));
      forall j: nat | j < |p|
        ensures MachineRun(code, m0, j) == Next(m0.(rip := p[j])) && p[j] in nodes
      {
        assert j < |Front(p)| ==> Front(p)[j] == p[j];
      }
    }
  }

  lemma NopStep(code: Code, exits: set<nat>, nodes: map<nat, Node>, last: nat, d: Decision, ip: nat, next: nat,
                m: State)
    requires Chain(code, exits, nodes, last, d) && ip in nodes && next in Edges(code, Declared(exits))(ip) &&
             m.rip == ip
    ensures code.Decodes(ip) && code.OpAt(ip).Nop? && next == code.NextIp(ip)
    ensures MachineStep(code, m) == Next(m.(rip := next))
  {
    assert nodes[ip] == NodeAt(code, Declared(exits), ip);
    assert next in nodes[ip].successors && code.Contains(next);
  }

  /** The run along a path to the branch, then out. */
  lemma BranchLeaves(code: Code, exits: set<nat>, nodes: map<nat, Node>, last: nat, d: Decision, p: seq<nat>, m0: State)
    requires Chain(code, exits, nodes, last, d) && PathFrom(Edges(code, Declared(exits)), code.address, p) &&
             Last(p) == last
    requires m0.rip == code.address
    ensures Decides(code, d, m0, |p|)
  {
    ChainRuns(code, exits, nodes, last, d, p, m0);
    var m := m0.(rip := last);
    assert MachineRun(code, m0, |p| - 1) == Next(m);
    assert nodes[last] == NodeAt(code, Declared(exits), last);
    assert MachineRun(code, m0, |p|) == MachineStep(code, m);
    assert Effect(code.OpAt(last), m) == m;
  }

  /** The chain runs upwards, so the branch is its highest instruction. */
  lemma {:induction false} BranchIsHighest(code: Code, exits: set<nat>, nodes: map<nat, Node>, last: nat, d: Decision,
                                           p: seq<nat>, q: seq<nat>)
    requires Chain(code, exits, nodes, last, d)
    requires PathFrom(Edges(code, Declared(exits)), code.address, p) && Last(p) == last
    requires PathFrom(Edges(code, Declared(exits)), code.address, q)
    ensures |q| <= |p| && q == p[..|q|] && Last(q) <= last
    decreases |q|
  {
    var edges := Edges(code, Declared(exits));
    if |q| > 1 {
      PathFront(edges, code.address, q);
      BranchIsHighest(code, exits, nodes, last, d, p, Front(q));
      var n := |q| - 1;
      assert Reached(code, Declared(exits), Last(Front(q)));
      assert p[n - 1] == Last(Front(q));
      NopStep(code, exits, nodes, last, d, Last(Front(q)), Last(q),
        State(Last(Front(q)), map[], Flags(false, false, false, false), map[]));
      assert n < |p|;
      assert p[(n - 1) + 1] in edges(p[n - 1]);
      NopStep(code, exits, nodes, last, d, p[n - 1], p[n],
        State(p[n - 1], map[], Flags(false, false, false, false), map[]));
      assert q == Front(q) + [Last(q)] && p[..n + 1] == p[..n] + [p[n]];
    }
    PathRises(code, exits, nodes, last, d, p, |q| - 1);
  }

  lemma {:induction false} PathRises(code: Code, exits: set<nat>, nodes: map<nat, Node>, last: nat, d: Decision,
                                     p: seq<nat>, k: nat)
    requires Chain(code, exits, nodes, last, d) && PathFrom(Edges(code, Declared(exits)), code.address, p) && k < |p|
    ensures p[k] <= Last(p)
    decreases |p|
  {
    if k < |p| - 1 {
      PathFront(Edges(code, Declared(exits)), code.address, p);
      PathRises(code, exits, nodes, last, d, Front(p), k);
      assert Reached(code, Declared(exits), Last(Front(p)));
      NopStep(code, exits, nodes, last, d, Last(Front(p)), Last(p),
        State(Last(Front(p)), map[], Flags(false, false, false, false), map[]));
    }
  }

  lemma RegionDecides(code: Code, exits: set<nat>, nodes: map<nat, Node>, last: nat, d: Decision)
    requires Chain(code, exits, nodes, last, d)
    ensures exists steps :: AlwaysDecides(code, d, steps)
    ensures forall ip :: ip in d.addresses && ip != last ==> ip < last && code.Decodes(ip) && code.OpAt(ip).Nop?
    ensures code.Decodes(last) && code.OpAt(last) == Jcc(d.condition)
  {
    assert nodes[last] == NodeAt(code, Declared(exits), last);
    var p: seq<nat> :| PathFrom(Edges(code, Declared(exits)), code.address, p) && Last(p) == last;
    forall m0: State | m0.rip == code.address
      ensures Decides(code, d, m0, |p|)
    {
      BranchLeaves(code, exits, nodes, last, d, p, m0);
    }
    assert AlwaysDecides(code, d, |p|);
    forall ip | ip in d.addresses && ip != last
      ensures ip < last && code.Decodes(ip) && code.OpAt(ip).Nop?
    {
      assert nodes[ip] == NodeAt(code, Declared(exits), ip);
      var q: seq<nat> :| PathFrom(Edges(code, Declared(exits)), code.address, q) && Last(q) == ip;
      BranchIsHighest(code, exits, nodes, last, d, p, q);
    }
  }
}
