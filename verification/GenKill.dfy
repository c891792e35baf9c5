/**
 Forward must analyses with gen/kill transfer: the greatest solution of the flow equations is the
 meet over all paths, and a descending iteration that only drops refuted facts ends there.
 */
module GenKill {
  import opened Paths
  import opened Wrappers

  /** `available` facts flow along `succ`; a node removes `kill` and adds `gen`. */
  datatype Problem<!F> = Problem(
    entry: nat, nodes: set<nat>, succ: nat -> set<nat>,
    gen: map<nat, set<F>>, kill: map<nat, set<F>>, universe: set<F>, initial: set<F>)

  type Facts<F> = map<nat, set<F>>

  function Sets<F(!new)>(m: map<nat, set<F>>, ip: nat): set<F> {
    if ip in m then m[ip] else {}
  }

  function Transfer<F(!new)>(q: Problem<F>, ip: nat, available: set<F>): (r: set<F>)
    ensures forall f :: f in r <==> f in Sets(q.gen, ip) || (f in available && f !in Sets(q.kill, ip))
  {
    (available - Sets(q.kill, ip)) + Sets(q.gen, ip)
  }

  /** Facts available on arrival at the end of one path. */
  ghost function AvailableAlong<F(!new)>(q: Problem<F>, p: seq<nat>): set<F>
    requires |p| > 0
    decreases |p|
  {
    if |p| == 1 then q.initial else Transfer(q, Last(Front(p)), AvailableAlong(q, Front(p)))
  }

  /** Some path arrives at ip without the fact. */
  ghost predicate MissingAt<F(!new)>(q: Problem<F>, ip: nat, f: F) {
    exists p: seq<nat> :: PathFrom(q.succ, q.entry, p) && Last(p) == ip && f !in AvailableAlong(q, p)
  }

  ghost predicate MissingAfter<F(!new)>(q: Problem<F>, ip: nat, f: F) {
    f !in Sets(q.gen, ip) && (f in Sets(q.kill, ip) || MissingAt(q, ip, f))
  }

  ghost predicate WellFormed<F(!new)>(q: Problem<F>) {
    && q.entry in q.nodes && Closed(q.succ, q.nodes)
    && (forall ip :: ip in q.nodes ==> Reachable(q.succ, q.entry, ip))
    && (forall ip :: ip in q.nodes ==> Sets(q.gen, ip) <= q.universe)
  }

  /** The meet over all paths. */
  ghost predicate MeetOverPaths<F(!new)>(q: Problem<F>, incoming: Facts<F>) {
    && incoming.Keys == q.nodes
    && (forall ip :: ip in q.nodes ==> incoming[ip] <= q.universe)
    && (forall ip, f :: ip in q.nodes && f in q.universe ==> (f in incoming[ip] <==> !MissingAt(q, ip, f)))
  }

  // ----- the equations -----

  type PredecessorLists = map<nat, seq<nat>>

  /** The fact survives the meet over the listed predecessors, with the initial facts at the entry. */
  ghost predicate InMeet<F(!new)>(q: Problem<F>, ip: nat, outgoing: Facts<F>, predecessors: seq<nat>, f: F)
    requires forall p :: p in predecessors ==> p in outgoing
  {
    f in q.universe && (ip == q.entry ==> f in q.initial) && forall p :: p in predecessors ==> f in outgoing[p]
  }

  ghost predicate IsMeet<F(!new)>(q: Problem<F>, ip: nat, outgoing: Facts<F>, predecessors: seq<nat>, bits: set<F>)
    requires forall p :: p in predecessors ==> p in outgoing
  {
    forall f :: f in bits <==> InMeet(q, ip, outgoing, predecessors, f)
  }

  ghost predicate EdgesSound<F(!new)>(q: Problem<F>, predecessors: PredecessorLists) {
    predecessors.Keys == q.nodes &&
    forall ip, p :: ip in q.nodes && p in predecessors[ip] ==> p in q.nodes && ip in q.succ(p)
  }

  ghost predicate EdgesComplete<F(!new)>(q: Problem<F>, predecessors: PredecessorLists) {
    predecessors.Keys == q.nodes &&
    forall ip, p :: p in q.nodes && ip in q.succ(p) ==> ip in q.nodes && p in predecessors[ip]
  }

  ghost predicate Keyed<F(!new)>(q: Problem<F>, incoming: Facts<F>, outgoing: Facts<F>) {
    incoming.Keys == q.nodes && outgoing.Keys == q.nodes
  }

  /** Every equation holds with at-most in place of equality. */
  ghost predicate Shrinking<F(!new)>(q: Problem<F>, predecessors: PredecessorLists, incoming: Facts<F>,
                              outgoing: Facts<F>)
    requires EdgesSound(q, predecessors) && Keyed(q, incoming, outgoing)
  {
    && (forall ip, f :: ip in q.nodes && InMeet(q, ip, outgoing, predecessors[ip], f) ==> f in incoming[ip])
    && (forall ip :: ip in q.nodes ==> Transfer(q, ip, incoming[ip]) <= outgoing[ip])
  }

  /** Every fact dropped so far is refuted by a path. */
  ghost predicate Justified<F(!new)>(q: Problem<F>, incoming: Facts<F>, outgoing: Facts<F>)
    requires Keyed(q, incoming, outgoing)
  {
    && (forall ip :: ip in q.nodes ==> incoming[ip] <= q.universe && outgoing[ip] <= q.universe)
    && (forall ip, f :: ip in q.nodes && f in q.universe && f !in incoming[ip] ==> MissingAt(q, ip, f))
    && (forall ip, f :: ip in q.nodes && f in q.universe && f !in outgoing[ip] ==> MissingAfter(q, ip, f))
  }

  ghost predicate Descending<F(!new)>(q: Problem<F>, predecessors: PredecessorLists, incoming: Facts<F>,
                               outgoing: Facts<F>) {
    && EdgesSound(q, predecessors) && Keyed(q, incoming, outgoing)
    && Shrinking(q, predecessors, incoming, outgoing)
    && Justified(q, incoming, outgoing)
  }

  lemma MissingFlows<F(!new)>(q: Problem<F>, p: nat, ip: nat, f: F)
    requires ip in q.succ(p) && Reachable(q.succ, q.entry, p) && MissingAfter(q, p, f)
    ensures MissingAt(q, ip, f)
  {
    var path: seq<nat>;
    if f in Sets(q.kill, p) {
      path :| PathFrom(q.succ, q.entry, path) && Last(path) == p;
    } else {
      path :| PathFrom(q.succ, q.entry, path) && Last(path) == p && f !in AvailableAlong(q, path);
    }
    PathSnoc(q.succ, q.entry, path, ip);
    assert AvailableAlong(q, path + [ip]) == Transfer(q, p, AvailableAlong(q, path));
  }

  /** A fact refused by the meet is refuted by a path. */
  lemma Refuted<F(!new)>(q: Problem<F>, predecessors: PredecessorLists, outgoing: Facts<F>, ip: nat, f: F)
    requires WellFormed(q) && EdgesSound(q, predecessors) && outgoing.Keys == q.nodes
    requires forall x, g :: x in q.nodes && g in q.universe && g !in outgoing[x] ==> MissingAfter(q, x, g)
    requires ip in q.nodes && f in q.universe && !InMeet(q, ip, outgoing, predecessors[ip], f)
    ensures MissingAt(q, ip, f)
  {
    if ip == q.entry && f !in q.initial {
      assert PathFrom(q.succ, q.entry, [ip]) && AvailableAlong(q, [ip]) == q.initial;
    } else {
      var p :| p in predecessors[ip] && f !in outgoing[p];
      MissingFlows(q, p, ip, f);
    }
  }

  /** Re-evaluating one equation only shrinks the facts. */
  lemma Shrink<F(!new)>(q: Problem<F>, predecessors: PredecessorLists, incoming: Facts<F>, outgoing: Facts<F>,
                  ip: nat, bits: set<F>, out: set<F>)
    requires EdgesSound(q, predecessors) && Keyed(q, incoming, outgoing) && ip in q.nodes
    requires Shrinking(q, predecessors, incoming, outgoing)
    requires IsMeet(q, ip, outgoing, predecessors[ip], bits) && out == Transfer(q, ip, bits)
    ensures bits <= incoming[ip] && out <= outgoing[ip]
    ensures Shrinking(q, predecessors, incoming[ip := bits], outgoing[ip := out])
  {
    var smaller, narrower := outgoing[ip := out], incoming[ip := bits];
    assert out <= Transfer(q, ip, incoming[ip]) && bits <= incoming[ip];
    forall x, f | x in q.nodes && InMeet(q, x, smaller, predecessors[x], f)
      ensures f in narrower[x]
    {
      forall p | p in predecessors[x]
        ensures f in outgoing[p]
      {
        assert f in smaller[p];
      }
      assert InMeet(q, x, outgoing, predecessors[x], f);
    }
  }

  /** Re-evaluating one equation drops only refuted facts. */
  lemma Justify<F(!new)>(q: Problem<F>, predecessors: PredecessorLists, incoming: Facts<F>, outgoing: Facts<F>,
                   ip: nat, bits: set<F>, out: set<F>)
    requires WellFormed(q) && EdgesSound(q, predecessors) && ip in q.nodes
    requires Keyed(q, incoming, outgoing) && Justified(q, incoming, outgoing)
    requires IsMeet(q, ip, outgoing, predecessors[ip], bits) && out == Transfer(q, ip, bits)
    ensures Justified(q, incoming[ip := bits], outgoing[ip := out])
  {
    forall f | f in q.universe && f !in bits
      ensures MissingAt(q, ip, f)
    {
      Refuted(q, predecessors, outgoing, ip, f);
    }
  }

  /** Everything still assumed available; it shrinks with every change. */
  ghost function Remaining<F(!new)>(q: Problem<F>, incoming: Facts<F>, outgoing: Facts<F>): set<(bool, nat, F)>
    requires Keyed(q, incoming, outgoing)
  {
    (set ip, f | ip in q.nodes && f in incoming[ip] :: (true, ip, f)) +
    (set ip, f | ip in q.nodes && f in outgoing[ip] :: (false, ip, f))
  }

  lemma RemainingShrinks<F(!new)>(q: Problem<F>, incoming: Facts<F>, outgoing: Facts<F>, ip: nat, bits: set<F>,
                           out: set<F>)
    requires Keyed(q, incoming, outgoing) && ip in q.nodes
    requires bits <= incoming[ip] && out <= outgoing[ip] && (bits != incoming[ip] || out != outgoing[ip])
    ensures Remaining(q, incoming[ip := bits], outgoing[ip := out]) < Remaining(q, incoming, outgoing)
  {
    var before, after := Remaining(q, incoming, outgoing), Remaining(q, incoming[ip := bits], outgoing[ip := out]);
    if bits != incoming[ip] {
      var f :| f in incoming[ip] && f !in bits;
      assert (true, ip, f) in before && (true, ip, f) !in after;
    } else {
      var f :| f in outgoing[ip] && f !in out;
      assert (false, ip, f) in before && (false, ip, f) !in after;
    }
  }

  /** One equation re-evaluated inside the descending iteration. */
  lemma Relax<F(!new)>(q: Problem<F>, predecessors: PredecessorLists, incoming: Facts<F>, outgoing: Facts<F>,
                 ip: nat, bits: set<F>, out: set<F>)
    requires WellFormed(q) && Descending(q, predecessors, incoming, outgoing) && ip in q.nodes
    requires IsMeet(q, ip, outgoing, predecessors[ip], bits) && out == Transfer(q, ip, bits)
    requires bits != incoming[ip] || out != outgoing[ip]
    ensures Descending(q, predecessors, incoming[ip := bits], outgoing[ip := out])
    ensures Remaining(q, incoming[ip := bits], outgoing[ip := out]) < Remaining(q, incoming, outgoing)
  {
    Shrink(q, predecessors, incoming, outgoing, ip, bits, out);
    Justify(q, predecessors, incoming, outgoing, ip, bits, out);
    RemainingShrinks(q, incoming, outgoing, ip, bits, out);
  }

  /** The iteration starts from everything available everywhere. */
  lemma TopDescends<F(!new)>(q: Problem<F>, predecessors: PredecessorLists, top: Facts<F>)
    requires WellFormed(q) && EdgesSound(q, predecessors)
    requires top.Keys == q.nodes && forall ip :: ip in top ==> top[ip] == q.universe
    ensures Descending(q, predecessors, top, top)
  {
  }

  // ----- the solution -----

  ghost predicate Stable<F(!new)>(q: Problem<F>, predecessors: PredecessorLists, incoming: Facts<F>, outgoing: Facts<F>)
    requires EdgesSound(q, predecessors) && Keyed(q, incoming, outgoing)
  {
    forall ip :: ip in q.nodes ==>
      IsMeet(q, ip, outgoing, predecessors[ip], incoming[ip]) && outgoing[ip] == Transfer(q, ip, incoming[ip])
  }

  /** A solution holds nothing that some path lacks. */
  lemma {:induction false} SolutionBelowPath<F(!new)>(q: Problem<F>, predecessors: PredecessorLists,
                                                      incoming: Facts<F>, outgoing: Facts<F>, p: seq<nat>)
    requires WellFormed(q) && EdgesSound(q, predecessors) && EdgesComplete(q, predecessors) &&
             Keyed(q, incoming, outgoing)
    requires Stable(q, predecessors, incoming, outgoing) && PathFrom(q.succ, q.entry, p)
    ensures Last(p) in q.nodes && incoming[Last(p)] <= AvailableAlong(q, p)
    decreases |p|
  {
    if |p| > 1 {
      PathFront(q.succ, q.entry, p);
      SolutionBelowPath(q, predecessors, incoming, outgoing, Front(p));
    }
  }

  /** A stable, justified solution is the meet over all paths. */
  lemma SolutionIsMeetOverPaths<F(!new)>(q: Problem<F>, predecessors: PredecessorLists, incoming: Facts<F>,
                                  outgoing: Facts<F>)
    requires WellFormed(q) && EdgesComplete(q, predecessors)
    requires Descending(q, predecessors, incoming, outgoing) && Stable(q, predecessors, incoming, outgoing)
    ensures MeetOverPaths(q, incoming)
  {
    forall ip, f | ip in q.nodes && f in q.universe && MissingAt(q, ip, f)
      ensures f !in incoming[ip]
    {
      var p: seq<nat> :| PathFrom(q.succ, q.entry, p) && Last(p) == ip && f !in AvailableAlong(q, p);
      SolutionBelowPath(q, predecessors, incoming, outgoing, p);
    }
  }

  // ----- the iteration -----

  method MeetPredecessors<F(==,!new)>(q: Problem<F>, ip: nat, outgoing: Facts<F>,
                            predecessors: seq<nat>) returns (bits: set<F>)
    requires forall p :: p in predecessors ==> p in outgoing
    ensures IsMeet(q, ip, outgoing, predecessors, bits)
  {
    bits := q.universe;
    if ip == q.entry {
      bits := bits * q.initial;
    }
    for i := 0 to |predecessors|
      invariant forall f :: f in bits <==>
                  f in q.universe && (ip == q.entry ==> f in q.initial) &&
                    forall p :: p in predecessors[..i] ==> f in outgoing[p]
    {
      assert predecessors[..i + 1] == predecessors[..i] + [predecessors[i]];
      bits := bits * outgoing[predecessors[i]];
    }
    assert predecessors[..|predecessors|] == predecessors;
  }

  /** The iteration's invariant, folded. */
  ghost predicate Iterating<F(!new)>(q: Problem<F>, predecessors: PredecessorLists, incoming: Facts<F>,
                              outgoing: Facts<F>) {
    && EdgesSound(q, predecessors) && Keyed(q, incoming, outgoing)
    && forall b: bool {:trigger Unfold(b)} :: Unfold(b) ==> Descending(q, predecessors, incoming, outgoing)
  }

  ghost predicate StableAt<F(!new)>(q: Problem<F>, predecessors: PredecessorLists, incoming: Facts<F>,
                             outgoing: Facts<F>, ip: nat) {
    && ip in incoming && ip in outgoing && ip in predecessors
    && (forall p :: p in predecessors[ip] ==> p in outgoing)
    && IsMeet(q, ip, outgoing, predecessors[ip], incoming[ip]) && outgoing[ip] == Transfer(q, ip, incoming[ip])
  }

  /** Re-evaluates the equations of one node. */
  method Revisit<F(==,!new)>(q: Problem<F>, predecessors: PredecessorLists, incoming0: Facts<F>, outgoing0: Facts<F>,
                   ip: nat)
    returns (incoming: Facts<F>, outgoing: Facts<F>, changed: bool)
    requires WellFormed(q) && Iterating(q, predecessors, incoming0, outgoing0) && ip in q.nodes
    ensures Iterating(q, predecessors, incoming, outgoing)
    ensures if changed then Remaining(q, incoming, outgoing) < Remaining(q, incoming0, outgoing0)
            else incoming == incoming0 && outgoing == outgoing0 && StableAt(q, predecessors, incoming, outgoing, ip)
  {
    incoming, outgoing, changed := incoming0, outgoing0, false;
    var bits := MeetPredecessors(q, ip, outgoing, predecessors[ip]);
    var out := Transfer(q, ip, bits);
    if incoming[ip] != bits || outgoing[ip] != out {
      assert Unfold(true);
      Relax(q, predecessors, incoming, outgoing, ip, bits, out);
      incoming, outgoing, changed := incoming[ip := bits], outgoing[ip := out], true;
    }
  }

  /** One pass over all nodes in any order, updating in place. */
  method Sweep<F(==,!new)>(q: Problem<F>, predecessors: PredecessorLists, incoming0: Facts<F>, outgoing0: Facts<F>)
    returns (incoming: Facts<F>, outgoing: Facts<F>, changed: bool)
    requires WellFormed(q) && Iterating(q, predecessors, incoming0, outgoing0)
    ensures Iterating(q, predecessors, incoming, outgoing)
    ensures if changed then Remaining(q, incoming, outgoing) < Remaining(q, incoming0, outgoing0)
            else forall ip :: ip in q.nodes ==> StableAt(q, predecessors, incoming, outgoing, ip)
  {
    incoming, outgoing, changed := incoming0, outgoing0, false;
    var todo := q.nodes;
    while todo != {}
      invariant todo <= q.nodes
      invariant Iterating(q, predecessors, incoming, outgoing)
      invariant if changed then Remaining(q, incoming, outgoing) < Remaining(q, incoming0, outgoing0)
                else incoming == incoming0 && outgoing == outgoing0
      invariant !changed ==> forall ip :: ip in q.nodes - todo ==> StableAt(q, predecessors, incoming, outgoing, ip)
      decreases todo
    {
      var ip :| ip in todo;
      todo := todo - {ip};
      var moved;
      incoming, outgoing, moved := Revisit(q, predecessors, incoming, outgoing, ip);
      changed := changed || moved;
    }
  }

  lemma StableEverywhere<F(!new)>(q: Problem<F>, predecessors: PredecessorLists, incoming: Facts<F>, outgoing: Facts<F>)
    requires Iterating(q, predecessors, incoming, outgoing)
    requires forall ip :: ip in q.nodes ==> StableAt(q, predecessors, incoming, outgoing, ip)
    ensures Stable(q, predecessors, incoming, outgoing)
  {
  }

  /** Sweeps until nothing changes. */
  method Solve<F(==,!new)>(q: Problem<F>, predecessors: PredecessorLists) returns (incoming: Facts<F>)
    requires WellFormed(q) && EdgesSound(q, predecessors) && EdgesComplete(q, predecessors)
    ensures MeetOverPaths(q, incoming)
  {
    incoming := map ip | ip in q.nodes :: q.universe;
    var outgoing := incoming;
    TopDescends(q, predecessors, incoming);
    var changed := true;
    while changed
      invariant Iterating(q, predecessors, incoming, outgoing)
      invariant !changed ==> forall ip :: ip in q.nodes ==> StableAt(q, predecessors, incoming, outgoing, ip)
      decreases changed, Remaining(q, incoming, outgoing)
    {
      incoming, outgoing, changed := Sweep(q, predecessors, incoming, outgoing);
    }
    StableEverywhere(q, predecessors, incoming, outgoing);
    assert Unfold(true);
    SolutionIsMeetOverPaths(q, predecessors, incoming, outgoing);
  }
}
