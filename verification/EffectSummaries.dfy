/**
 Interprocedural effects (crates/hydir-analysis, `analyze_inputs`): summaries propagated over the call
 graph until nothing changes.
 */
module EffectSummaries {
  import opened Paths
  import opened Discovery
  import opened Components

  datatype Summary = Summary(read: set<Reference>, written: set<Reference>, unknown: bool)

  /** One thing a summary may list. */
  datatype Effect = MayReadAt(reference: Reference) | MayWriteAt(reference: Reference) | Unbounded

  predicate Has(s: Summary, e: Effect) {
    match e
    case MayReadAt(r) => r in s.read
    case MayWriteAt(r) => r in s.written
    case Unbounded => s.unknown
  }

  function Direct(facts: DirectFacts): Summary {
    Summary(facts.read, facts.written, facts.unknown)
  }

  function CallGraph(direct: seq<DirectFacts>): (g: Calls)
    ensures |g| == |direct| && forall i :: 0 <= i < |g| ==> g[i] == direct[i].callees
  {
    seq(|direct|, i requires 0 <= i < |direct| => direct[i].callees)
  }

  // ----- propagation -----

  /** Some function reachable from i has the effect itself. */
  ghost predicate Causes(direct: seq<DirectFacts>, i: nat, e: Effect) {
    exists j: nat :: j < |direct| && Reaches(CallGraph(direct), i, j) && Has(Direct(direct[j]), e)
  }

  /** Summaries list exactly the direct effects of all reachable functions. */
  ghost predicate SummariesExact(direct: seq<DirectFacts>, table: seq<Summary>) {
    && |table| == |direct|
    && forall i: nat, e :: i < |table| ==> (Has(table[i], e) <==> Causes(direct, i, e))
  }

  ghost predicate Growing(direct: seq<DirectFacts>, table: seq<Summary>) {
    && |table| == |direct|
    && (forall i: nat, e :: i < |table| && Has(table[i], e) ==> Causes(direct, i, e))
    && (forall i: nat, e :: i < |table| && Has(Direct(direct[i]), e) ==> Has(table[i], e))
  }

  ghost predicate StableAt(g: Calls, table: seq<Summary>, i: nat)
    requires |table| == |g| && ValidCalls(g) && i < |g|
  {
    forall c, e :: c in g[i] && Has(table[c], e) ==> Has(table[i], e)
  }

  function AllEffects(direct: seq<DirectFacts>): (s: set<Effect>)
    ensures forall j, e :: 0 <= j < |direct| && Has(Direct(direct[j]), e) ==> e in s
  {
    if direct == [] then {}
    else
      (set r | r in direct[0].read :: MayReadAt(r)) + (set r | r in direct[0].written :: MayWriteAt(r)) + {Unbounded} +
      AllEffects(direct[1..])
  }

  /** What could still be added: shrinks with every change. */
  ghost function Missing(effects: set<Effect>, table: seq<Summary>): set<(nat, Effect)> {
    set i, e | i in Below(|table|) && e in effects && !Has(table[i], e) :: (i, e)
  }

  method JoinCallees(g: Calls, table: seq<Summary>, i: nat) returns (next: Summary)
    requires ValidCalls(g) && |table| == |g| && i < |g|
    ensures forall e :: Has(next, e) <==> Has(table[i], e) || exists c :: c in g[i] && Has(table[c], e)
  {
    next := table[i];
    var todo := g[i];
    while todo != {}
      invariant todo <= g[i]
      invariant forall e :: Has(next, e) <==> Has(table[i], e) || exists c :: c in g[i] - todo && Has(table[c], e)
      decreases todo
    {
      var callee :| callee in todo;
      ghost var before, done := next, g[i] - todo;
      todo := todo - {callee};
      next := Summary(next.read + table[callee].read, next.written + table[callee].written, next.unknown ||
        table[callee].unknown);
      assert forall e :: Has(next, e) <==> Has(before, e) || Has(table[callee], e);
      assert g[i] - todo == done + {callee};
    }
    assert g[i] - todo == g[i];
  }

  lemma JoinCauses(direct: seq<DirectFacts>, table: seq<Summary>, i: nat, next: Summary)
    requires ValidCalls(CallGraph(direct)) && Growing(direct, table) && i < |table|
    requires forall e :: Has(next, e) <==> Has(table[i], e) || exists c :: c in CallGraph(direct)[i] && Has(table[c], e)
    ensures Growing(direct, table[i := next])
  {
    var g := CallGraph(direct);
    forall e | Has(next, e)
      ensures Causes(direct, i, e)
    {
      if !Has(table[i], e) {
        var c :| c in g[i] && Has(table[c], e);
        assert Causes(direct, c, e);
        var j: nat :| j < |direct| && Reaches(g, c, j) && Has(Direct(direct[j]), e);
        ReachSelf(Callees(g), i);
        ReachStep(Callees(g), i, i, c);
        ReachTrans(Callees(g), i, c, j);
      }
    }
  }

  lemma ChangeShows(table: Summary, next: Summary)
    requires forall e :: Has(table, e) ==> Has(next, e)
    requires next != table
    ensures exists e :: Has(next, e) && !Has(table, e)
  {
    assert forall r :: r in table.read ==> Has(table, MayReadAt(r)) && Has(next, MayReadAt(r));
    assert forall r :: r in table.written ==> Has(table, MayWriteAt(r)) && Has(next, MayWriteAt(r));
    assert table.unknown ==> Has(table, Unbounded) && Has(next, Unbounded);
    if next.read != table.read {
      var r :| r in next.read && r !in table.read;
      assert Has(next, MayReadAt(r)) && !Has(table, MayReadAt(r));
    } else if next.written != table.written {
      var r :| r in next.written && r !in table.written;
      assert Has(next, MayWriteAt(r)) && !Has(table, MayWriteAt(r));
    } else {
      assert Has(next, Unbounded) && !Has(table, Unbounded);
    }
  }

  lemma CausesKnown(direct: seq<DirectFacts>, i: nat, e: Effect)
    requires Causes(direct, i, e)
    ensures e in AllEffects(direct)
  {
  }

  lemma MissingShrinks(effects: set<Effect>, table: seq<Summary>, i: nat, next: Summary, e: Effect)
    requires i < |table| && e in effects && Has(next, e) && !Has(table[i], e)
    requires forall x :: Has(table[i], x) ==> Has(next, x)
    ensures Missing(effects, table[i := next]) < Missing(effects, table)
  {
    var grown := table[i := next];
    assert grown[i] == next;
    assert (i, e) in Missing(effects, table) && (i, e) !in Missing(effects, grown);
    forall k: nat, x | k < |table| && !Has(grown[k], x)
      ensures !Has(table[k], x)
    {
    }
  }

  lemma ChangeShrinks(direct: seq<DirectFacts>, table: seq<Summary>, i: nat, next: Summary)
    requires i < |table| && Growing(direct, table[i := next]) && next != table[i]
    requires forall e :: Has(table[i], e) ==> Has(next, e)
    ensures Missing(AllEffects(direct), table[i := next]) < Missing(AllEffects(direct), table)
  {
    ChangeShows(table[i], next);
    var e :| Has(next, e) && !Has(table[i], e);
    assert table[i := next][i] == next;
    CausesKnown(direct, i, e);
    MissingShrinks(AllEffects(direct), table, i, next, e);
  }

  /** One sweep in place; reports whether anything changed. */
  method Sweep(direct: seq<DirectFacts>, start: seq<Summary>) returns (table: seq<Summary>, changed: bool)
    requires ValidCalls(CallGraph(direct)) && Growing(direct, start)
    ensures Growing(direct, table)
    ensures changed ==> Missing(AllEffects(direct), table) < Missing(AllEffects(direct), start)
    ensures !changed ==> forall i: nat :: i < |table| ==> StableAt(CallGraph(direct), table, i)
  {
    var g := CallGraph(direct);
    table, changed := start, false;
    for i := 0 to |direct|
      invariant Growing(direct, table)
      invariant if changed then Missing(AllEffects(direct), table) < Missing(AllEffects(direct), start)
                else table == start
      invariant !changed ==> forall k: nat :: k < i ==> StableAt(g, table, k)
    {
      var next := JoinCallees(g, table, i);
      JoinCauses(direct, table, i, next);
      if next != table[i] {
        ChangeShrinks(direct, table, i, next);
        table, changed := table[i := next], true;
      }
    }
  }

  lemma {:induction false} StableCarries(direct: seq<DirectFacts>, table: seq<Summary>, p: seq<nat>, i: nat, e: Effect)
    requires ValidCalls(CallGraph(direct)) && Growing(direct, table)
    requires forall k: nat :: k < |table| ==> StableAt(CallGraph(direct), table, k)
    requires PathFrom(Callees(CallGraph(direct)), i, p) && Last(p) < |table| && Has(table[Last(p)], e)
    ensures i < |table| && Has(table[i], e)
    decreases |p|
  {
    if |p| > 1 {
      PathFront(Callees(CallGraph(direct)), i, p);
      var previous := Last(Front(p));
      assert StableAt(CallGraph(direct), table, previous);
      StableCarries(direct, table, Front(p), i, e);
    }
  }

  lemma StableIsExact(direct: seq<DirectFacts>, table: seq<Summary>)
    requires ValidCalls(CallGraph(direct)) && Growing(direct, table)
    requires forall i: nat :: i < |table| ==> StableAt(CallGraph(direct), table, i)
    ensures SummariesExact(direct, table)
  {
    forall i: nat, e | i < |table| && Causes(direct, i, e)
      ensures Has(table[i], e)
    {
      var j: nat :| j < |direct| && Reaches(CallGraph(direct), i, j) && Has(Direct(direct[j]), e);
      var p: seq<nat> :| PathFrom(Callees(CallGraph(direct)), i, p) && Last(p) == j;
      StableCarries(direct, table, p, i, e);
    }
  }

  lemma DirectGrowing(direct: seq<DirectFacts>, table: seq<Summary>)
    requires |table| == |direct| && forall i :: 0 <= i < |table| ==> table[i] == Direct(direct[i])
    ensures Growing(direct, table)
  {
    forall i: nat, e | i < |table| && Has(table[i], e)
      ensures Causes(direct, i, e)
    {
      ReachSelf(Callees(CallGraph(direct)), i);
    }
  }

  method Propagate(direct: seq<DirectFacts>) returns (table: seq<Summary>)
    requires ValidCalls(CallGraph(direct))
    ensures SummariesExact(direct, table)
  {
    table := seq(|direct|, i requires 0 <= i < |direct| => Direct(direct[i]));
    DirectGrowing(direct, table);
    var changed := true;
    while changed
      invariant Growing(direct, table)
      invariant !changed ==> forall i: nat :: i < |table| ==> StableAt(CallGraph(direct), table, i)
      decreases changed, Missing(AllEffects(direct), table)
    {
      table, changed := Sweep(direct, table);
    }
    StableIsExact(direct, table);
  }

  /** Mutually recursive functions have the same summary. */
  lemma ComponentsShareSummaries(direct: seq<DirectFacts>, table: seq<Summary>, i: nat, j: nat)
    requires SummariesExact(direct, table) && i < |table| && j < |table| && Mutual(CallGraph(direct), i, j)
    ensures table[i] == table[j]
  {
    SummaryFlows(direct, table, i, j);
    SummaryFlows(direct, table, j, i);
    assert forall r :: r in table[i].read <==> Has(table[i], MayReadAt(r));
    assert forall r :: r in table[j].read <==> Has(table[j], MayReadAt(r));
    assert forall r :: r in table[i].written <==> Has(table[i], MayWriteAt(r));
    assert forall r :: r in table[j].written <==> Has(table[j], MayWriteAt(r));
    assert table[i].unknown <==> Has(table[i], Unbounded);
    assert table[j].unknown <==> Has(table[j], Unbounded);
  }

  /** A caller's summary holds its callees', at any depth. */
  lemma SummaryFlows(direct: seq<DirectFacts>, table: seq<Summary>, i: nat, j: nat)
    requires SummariesExact(direct, table) && i < |table| && j < |table| && Reaches(CallGraph(direct), i, j)
    ensures forall e :: Has(table[j], e) ==> Has(table[i], e)
  {
    forall e | Has(table[j], e)
      ensures Has(table[i], e)
    {
      var k: nat :| k < |direct| && Reaches(CallGraph(direct), j, k) && Has(Direct(direct[k]), e);
      ReachTrans(Callees(CallGraph(direct)), i, j, k);
    }
  }

  // ----- the report -----

  /** Entry addresses name functions that start there. */
  ghost predicate EntriesSound(inputs: seq<FunctionInput>, entries: Entries) {
    forall a :: a in entries ==> entries[a] < |inputs| && inputs[entries[a]].entry == a
  }

  ghost predicate DirectExact(inputs: seq<FunctionInput>, regions: seq<Region>, entries: Entries,
                              direct: seq<DirectFacts>) {
    |direct| == |inputs| && forall i :: 0 <= i < |inputs| ==> FactsExact(inputs[i], regions, entries, direct[i])
  }

  ghost predicate AllEntriesListed(inputs: seq<FunctionInput>, entries: Entries) {
    EntriesSound(inputs, entries) && forall i :: 0 <= i < |inputs| ==> inputs[i].entry in entries
  }

  method EntryIndex(inputs: seq<FunctionInput>) returns (entries: Entries)
    ensures AllEntriesListed(inputs, entries)
  {
    entries := map[];
    for i := 0 to |inputs|
      invariant EntriesSound(inputs, entries)
      invariant forall k :: 0 <= k < i ==> inputs[k].entry in entries
    {
      entries := entries[inputs[i].entry := i];
    }
  }

  lemma CalleesValid(inputs: seq<FunctionInput>, regions: seq<Region>, entries: Entries, direct: seq<DirectFacts>)
    requires EntriesSound(inputs, entries) && DirectExact(inputs, regions, entries, direct)
    ensures ValidCalls(CallGraph(direct))
  {
    forall i, c | 0 <= i < |direct| && c in direct[i].callees
      ensures c < |direct|
    {
      assert FactsSound(inputs[i], regions, entries, direct[i]);
    }
  }

  method AnalyzeInputs(inputs: seq<FunctionInput>, regions: seq<Region>)
    returns (entries: Entries, direct: seq<DirectFacts>, table: seq<Summary>, ids: Ids)
    ensures AllEntriesListed(inputs, entries) && DirectExact(inputs, regions, entries, direct)
    ensures SummariesExact(direct, table) && ComponentsExact(CallGraph(direct), ids)
  {
    entries := EntryIndex(inputs);
    direct := [];
    for i := 0 to |inputs|
      invariant |direct| == i && forall k :: 0 <= k < i ==> FactsExact(inputs[k], regions, entries, direct[k])
    {
      var facts := AnalyzeFunction(inputs[i], regions, entries);
      direct := direct + [facts];
    }
    CalleesValid(inputs, regions, entries, direct);
    ids := ComponentIds(CallGraph(direct));
    table := Propagate(direct);
  }
}
