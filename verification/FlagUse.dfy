/**
 The check that erased stack adjustments cannot be noticed: no conditional branch may see flags
 left by an AdjustStack (`reject_stack_flag_uses`).
 */
module FlagUse {
  import opened Wrappers
  import opened Semantics
  import opened Fields
  import opened Paths

  datatype FlagError = LeavesGraph(ip: nat) | StackFlagsUsed(ip: nat)

  /** The branch at position j of p tests the flags that the stack adjustment at position i left. */
  ghost predicate BringsFlags(nodes: Nodes, p: seq<nat>, i: int, j: int) {
    && 0 <= i < j < |p|
    && p[i] in nodes && nodes[p[i]].op.AdjustStack?
    && p[j] in nodes && nodes[p[j]].op.Jcc?
    && forall k :: i < k < j ==> p[k] in nodes && EffectsOf(nodes[p[k]].op).writeFlags == {}
  }

  /** No path leaves the graph or brings stack-adjustment flags to a conditional branch. */
  ghost predicate FlagSafe(nodes: Nodes, entry: nat) {
    forall p: seq<nat> :: FlowPath(nodes, entry, p) ==> Last(p) in nodes && forall i, j :: !BringsFlags(nodes, p, i, j)
  }

  // ----- liveness, as the check tracks it -----

  /** Whether the machine flags come from a stack adjustment after this instruction. */
  function LiveAfter(op: Op, live: bool): bool {
    if op.AdjustStack? then true
    else if EffectsOf(op).writeFlags != {} then false
    else live
  }

  /** Whether a run along p arrives at its last node with flags set by a stack adjustment. */
  ghost function LiveAlong(nodes: Nodes, p: seq<nat>): bool
    requires |p| > 0
    decreases |p|
  {
    if |p| == 1 then false
    else
      var previous := Last(Front(p));
      var live := LiveAlong(nodes, Front(p));
      if previous in nodes then LiveAfter(nodes[previous].op, live) else live
  }

  ghost predicate LiveSafe(nodes: Nodes, entry: nat) {
    forall p: seq<nat> :: FlowPath(nodes, entry, p) ==>
      Last(p) in nodes && !(nodes[Last(p)].op.Jcc? && LiveAlong(nodes, p))
  }

  /** The adjustment at position i is the last flag write on p before its last node. */
  ghost predicate LeftAt(nodes: Nodes, p: seq<nat>, i: int) {
    && 0 <= i < |p| - 1
    && p[i] in nodes && nodes[p[i]].op.AdjustStack?
    && forall k :: i < k < |p| - 1 ==> p[k] in nodes && EffectsOf(nodes[p[k]].op).writeFlags == {}
  }

  ghost predicate LeftSome(nodes: Nodes, p: seq<nat>) {
    exists i :: LeftAt(nodes, p, i)
  }

  lemma LeftStep(nodes: Nodes, p: seq<nat>, i: int)
    requires |p| > 1 && Last(Front(p)) in nodes && !nodes[Last(Front(p))].op.AdjustStack?
    ensures LeftAt(nodes, p, i) <==>
            LeftAt(nodes, Front(p), i) && EffectsOf(nodes[Last(Front(p))].op).writeFlags == {}
  {
    var last := |p| - 2;
    assert forall k :: 0 <= k <= last ==> Front(p)[k] == p[k];
  }

  /** Flags are live at a path's end exactly when some adjustment on it is the last flag write before the end. */
  lemma {:induction false} LiveByPosition(nodes: Nodes, entry: nat, p: seq<nat>)
    requires FlowPath(nodes, entry, p)
    ensures LiveAlong(nodes, p) <==> LeftSome(nodes, p)
    decreases |p|
  {
    if |p| > 1 {
      PathFront(NodeEdges(nodes), entry, p);
      LiveByPosition(nodes, entry, Front(p));
      if nodes[Last(Front(p))].op.AdjustStack? {
        assert LeftAt(nodes, p, |p| - 2);
      } else {
        forall i
          ensures LeftAt(nodes, p, i) <==>
                  LeftAt(nodes, Front(p), i) && EffectsOf(nodes[Last(Front(p))].op).writeFlags == {}
        {
          LeftStep(nodes, p, i);
        }
      }
    }
  }

  lemma PrefixFlow(nodes: Nodes, entry: nat, p: seq<nat>, prefix: seq<nat>)
    requires FlowPath(nodes, entry, p) && 0 < |prefix| <= |p| && prefix == p[..|prefix|]
    ensures FlowPath(nodes, entry, prefix)
  {
    forall i | 0 <= i < |prefix| - 1
      ensures prefix[i + 1] in NodeEdges(nodes)(prefix[i])
    {
      assert p[i + 1] in NodeEdges(nodes)(p[i]);
    }
  }

  lemma BroughtIsLeft(nodes: Nodes, p: seq<nat>, prefix: seq<nat>, i: int, j: int)
    requires BringsFlags(nodes, p, i, j) && prefix == p[..j + 1]
    ensures LeftAt(nodes, prefix, i) && Last(prefix) in nodes && nodes[Last(prefix)].op.Jcc?
  {
  }

  lemma BroughtIsLive(nodes: Nodes, entry: nat, p: seq<nat>, i: int, j: int)
    requires FlowPath(nodes, entry, p) && BringsFlags(nodes, p, i, j)
    ensures !LiveSafe(nodes, entry)
  {
    var prefix := p[..j + 1];
    PrefixFlow(nodes, entry, p, prefix);
    LiveByPosition(nodes, entry, prefix);
    BroughtIsLeft(nodes, p, prefix, i, j);
  }

  /** The liveness the check tracks decides the question about path positions. */
  lemma SafeByLiveness(nodes: Nodes, entry: nat)
    ensures FlagSafe(nodes, entry) <==> LiveSafe(nodes, entry)
  {
    if LiveSafe(nodes, entry) {
      forall p: seq<nat>, i, j | FlowPath(nodes, entry, p) && BringsFlags(nodes, p, i, j)
        ensures false
      {
        BroughtIsLive(nodes, entry, p, i, j);
      }
    }
    if FlagSafe(nodes, entry) {
      forall p: seq<nat> | FlowPath(nodes, entry, p) && Last(p) in nodes && nodes[Last(p)].op.Jcc? &&
                           LiveAlong(nodes, p)
        ensures false
      {
        LiveByPosition(nodes, entry, p);
        var i :| LeftAt(nodes, p, i);
        assert BringsFlags(nodes, p, i, |p| - 1);
      }
    }
  }

  ghost function LiveEdges(nodes: Nodes): ((nat, bool)) -> set<(nat, bool)> {
    (w: (nat, bool)) =>
      if w.0 in nodes then set s | s in nodes[w.0].successors :: (s, LiveAfter(nodes[w.0].op, w.1)) else {}
  }

  ghost predicate Explored(nodes: Nodes, entry: nat, visited: set<(nat, bool)>, pending: seq<(nat, bool)>) {
    && (forall w :: w in visited || w in pending ==> Reachable(LiveEdges(nodes), (entry, false), w))
    && (forall w :: w in visited ==> w.0 in nodes && !(w.1 && nodes[w.0].op.Jcc?))
    && ((entry, false) in visited || (entry, false) in pending)
    && (forall w, n :: w in visited && n in LiveEdges(nodes)(w) ==> n in visited || n in pending)
  }

  /** Queues every successor with the liveness after the instruction. */
  method Follow(pending: seq<(nat, bool)>, successors: seq<nat>, live: bool) returns (r: seq<(nat, bool)>)
    ensures forall w :: w in r <==> w in pending || (w.0 in successors && w.1 == live)
  {
    r := pending;
    for i := 0 to |successors|
      invariant forall w :: w in r <==> w in pending || (w.0 in successors[..i] && w.1 == live)
    {
      assert successors[..i + 1] == successors[..i] + [successors[i]];
      r := r + [(successors[i], live)];
    }
    assert successors[..|successors|] == successors;
  }

  method RejectStackFlagUses(nodes: Nodes, entry: nat) returns (r: Result<(), FlagError>)
    ensures r.Success? <==> FlagSafe(nodes, entry)
    ensures r.Failure? ==>
              exists p: seq<nat> :: FlowPath(nodes, entry, p) && Last(p) == r.error.ip &&
                if r.error.LeavesGraph? then r.error.ip !in nodes
                else exists i, j :: j == |p| - 1 && BringsFlags(nodes, p, i, j)
  {
    var pending := [(entry, false)];
    var visited: set<(nat, bool)> := {};
    ghost var universe := set ip, b | ip in nodes && b in {false, true} :: (ip, b);
    ReachSelf(LiveEdges(nodes), (entry, false));
    while pending != []
      invariant Explored(nodes, entry, visited, pending) && visited <= universe
      decreases universe - visited, |pending|
    {
      var (ip, live) := pending[0];
      assert pending == [(ip, live)] + pending[1..];
      assert forall w :: w in pending <==> w == (ip, live) || w in pending[1..];
      pending := pending[1..];
      if (ip, live) in visited {
        continue;
      }
      if ip !in nodes {
        var _ := Unsafe(nodes, entry, ip, live);
        return Failure(LeavesGraph(ip));
      }
      var node := nodes[ip];
      if live && node.op.Jcc? {
        var _ := Unsafe(nodes, entry, ip, live);
        return Failure(StackFlagsUsed(ip));
      }
      visited := visited + {(ip, live)};
      assert (ip, live) in universe;
      var after := LiveAfter(node.op, live);
      ghost var rest := pending;
      pending := Follow(pending, node.successors, after);
      forall w | w in pending && w !in rest
        ensures Reachable(LiveEdges(nodes), (entry, false), w)
      {
        ReachStep(LiveEdges(nodes), (entry, false), (ip, live), w);
      }
    }
    AllSafe(nodes, entry, visited);
    r := Success(());
  }

  /** A reachable pair comes from a path with that liveness. */
  lemma {:induction false} PathOfPair(nodes: Nodes, entry: nat, q: seq<(nat, bool)>) returns (p: seq<nat>)
    requires PathFrom(LiveEdges(nodes), (entry, false), q)
    ensures FlowPath(nodes, entry, p) && Last(p) == Last(q).0 && LiveAlong(nodes, p) == Last(q).1
    decreases |q|
  {
    if |q| == 1 {
      p := [entry];
    } else {
      PathFront(LiveEdges(nodes), (entry, false), q);
      var shorter := PathOfPair(nodes, entry, Front(q));
      PathSnoc(NodeEdges(nodes), entry, shorter, Last(q).0);
      p := shorter + [Last(q).0];
    }
  }

  lemma {:induction false} PairOfPath(nodes: Nodes, entry: nat, p: seq<nat>)
    requires FlowPath(nodes, entry, p)
    ensures Reachable(LiveEdges(nodes), (entry, false), (Last(p), LiveAlong(nodes, p)))
    decreases |p|
  {
    if |p| == 1 {
      ReachSelf(LiveEdges(nodes), (entry, false));
    } else {
      PathFront(NodeEdges(nodes), entry, p);
      PairOfPath(nodes, entry, Front(p));
      var previous := Last(Front(p));
      ReachStep(LiveEdges(nodes), (entry, false), (previous, LiveAlong(nodes, Front(p))),
        (Last(p), LiveAlong(nodes, p)));
    }
  }

  /** A reachable pair that the check refuses, and the path that brings it there. */
  lemma Unsafe(nodes: Nodes, entry: nat, ip: nat, live: bool) returns (p: seq<nat>)
    requires Reachable(LiveEdges(nodes), (entry, false), (ip, live))
    requires ip !in nodes || (live && nodes[ip].op.Jcc?)
    ensures !FlagSafe(nodes, entry) && FlowPath(nodes, entry, p) && Last(p) == ip
    ensures ip in nodes ==> exists i, j :: j == |p| - 1 && BringsFlags(nodes, p, i, j)
  {
    var q :| PathFrom(LiveEdges(nodes), (entry, false), q) && Last(q) == (ip, live);
    p := PathOfPair(nodes, entry, q);
    if ip in nodes {
      LiveByPosition(nodes, entry, p);
      var i :| LeftAt(nodes, p, i);
      assert BringsFlags(nodes, p, i, |p| - 1);
    }
  }

  lemma AllSafe(nodes: Nodes, entry: nat, visited: set<(nat, bool)>)
    requires Explored(nodes, entry, visited, [])
    ensures FlagSafe(nodes, entry)
  {
    SafeByLiveness(nodes, entry);
    assert Closed(LiveEdges(nodes), visited);
    forall p: seq<nat> | FlowPath(nodes, entry, p)
      ensures Last(p) in nodes && !(nodes[Last(p)].op.Jcc? && LiveAlong(nodes, p))
    {
      PairOfPath(nodes, entry, p);
      ClosedHoldsReachable(LiveEdges(nodes), visited, (entry, false), (Last(p), LiveAlong(nodes, p)));
    }
  }
}
