/**
 When the path exploration succeeds, said of the tree of branches alone: no counters, no order of visits.
 The tree must be clean, and its recorded paths, or all its ends, must keep to the limit.
 */
module PathTree {
  import opened Wrappers
  import opened PathMerge

  /** The path ends at a fresh address of the symbol within the limit, and returns decidedly or goes on. */
  predicate Sound<S>(engine: Engine<S>, solver: Solver, item: Item) {
    && item.offset < |engine.code| && item.offset !in item.visited && |item.trace| < MAX_PATH_INSTRUCTIONS
    && if engine.code[item.offset].Return? then !Feasible(solver, item.conditions).GaveUp? else CanAdvance(engine, item)
  }

  /** Every path that starts with this one is sound. */
  ghost predicate CleanTree<S(!new)>(engine: Engine<S>, solver: Solver, item: Item)
    decreases Room(|item.trace|)
  {
    && Sound(engine, solver, item)
    && (engine.code[item.offset].Return? ||
        var children := Continuations(engine, item);
        forall k :: 0 <= k < |children| ==> CleanTree(engine, solver, children[k]))
  }

  ghost predicate CleanTrees<S(!new)>(engine: Engine<S>, solver: Solver, items: seq<Item>) {
    forall k :: 0 <= k < |items| ==> CleanTree(engine, solver, items[k])
  }

  /** The ends of the tree: returns, feasible or not. */
  ghost function Ends<S(!new)>(engine: Engine<S>, solver: Solver, item: Item): nat
    decreases Room(|item.trace|), 0, 0
  {
    if !Sound(engine, solver, item) || engine.code[item.offset].Return? then 1
    else EndsOf(engine, solver, Continuations(engine, item), |item.trace| + 1)
  }

  ghost function EndsOf<S(!new)>(engine: Engine<S>, solver: Solver, items: seq<Item>, depth: nat): nat
    requires forall k :: 0 <= k < |items| ==> |items[k].trace| >= depth
    decreases Room(depth), 1, |items|
  {
    if items == [] then 0
    else
      EndsOf(engine, solver, items[..|items| - 1], depth) + Ends(engine, solver, items[|items| - 1])
  }

  /** The feasible returns of the tree: the paths that are recorded. */
  ghost function Kept<S(!new)>(engine: Engine<S>, solver: Solver, item: Item): nat
    decreases Room(|item.trace|), 0, 0
  {
    if !Sound(engine, solver, item) then 0
    else if engine.code[item.offset].Return? then |AtReturn(engine, solver, item)|
    else KeptOf(engine, solver, Continuations(engine, item), |item.trace| + 1)
  }

  ghost function KeptOf<S(!new)>(engine: Engine<S>, solver: Solver, items: seq<Item>, depth: nat): nat
    requires forall k :: 0 <= k < |items| ==> |items[k].trace| >= depth
    decreases Room(depth), 1, |items|
  {
    if items == [] then 0
    else
      KeptOf(engine, solver, items[..|items| - 1], depth) + Kept(engine, solver, items[|items| - 1])
  }

  lemma SomeContinuation<S>(engine: Engine<S>, item: Item)
    requires CanAdvance(engine, item)
    ensures Continuations(engine, item) != []
  {
  }

  /** Every tree has an end, and no more recorded paths than ends. */
  lemma {:induction false} EndsBound<S(!new)>(engine: Engine<S>, solver: Solver, item: Item)
    ensures Ends(engine, solver, item) >= 1 && Kept(engine, solver, item) <= Ends(engine, solver, item)
    decreases Room(|item.trace|), 0, 0
  {
    if Sound(engine, solver, item) && !engine.code[item.offset].Return? {
      SomeContinuation(engine, item);
      EndsOfBound(engine, solver, Continuations(engine, item), |item.trace| + 1);
    }
  }

  lemma {:induction false} EndsOfBound<S(!new)>(engine: Engine<S>, solver: Solver, items: seq<Item>, depth: nat)
    requires forall k :: 0 <= k < |items| ==> |items[k].trace| >= depth
    ensures EndsOf(engine, solver, items, depth) >= |items|
    ensures KeptOf(engine, solver, items, depth) <= EndsOf(engine, solver, items, depth)
    decreases Room(depth), 1, |items|
  {
    if items != [] {
      EndsOfBound(engine, solver, items[..|items| - 1], depth);
      EndsBound(engine, solver, items[|items| - 1]);
    }
  }

  // ----- success means a clean tree -----

  /** What several waiting paths yield, said of the last one and the rest. */
  lemma LastFirst<S(!new)>(engine: Engine<S>, solver: Solver, rest: seq<Item>, item: Item, waiting: nat, found: nat,
                           whole: Option<seq<Path>>) returns (lower: Option<seq<Path>>)
    requires Yields(engine, solver, rest + [item], waiting, found, whole)
    ensures var first := Subtree(engine, solver, item, waiting + |rest|, found);
            if first.None? then whole.None?
            else Yields(engine, solver, rest, waiting, found + |first.value|, lower) &&
                 whole == Joined(first.value, lower)
  {
    var first := Subtree(engine, solver, item, waiting + |rest|, found);
    lower := if first.None? then None else Yield(engine, solver, rest, waiting, found + |first.value|);
    TopFirst(engine, solver, rest, item, waiting, found, lower);
    SameYield(engine, solver, rest + [item], waiting, found, whole,
      if first.None? then None else Joined(first.value, lower));
  }

  lemma ChildrenYield<S(!new)>(engine: Engine<S>, solver: Solver, item: Item, waiting: nat, found: nat)
    requires !Stuck(engine, solver, item, waiting, found) && !engine.code[item.offset].Return?
    ensures Yields(engine, solver, Continuations(engine, item), waiting, found,
                   Subtree(engine, solver, item, waiting, found))
  {
    DepthIrrelevant(engine, solver, Continuations(engine, item), |item.trace| + 1, waiting, found);
  }

  /** A path's outcome is as its tree says. */
  ghost predicate AsTree<S(!new)>(engine: Engine<S>, solver: Solver, item: Item, found: nat, paths: seq<Path>) {
    && CleanTree(engine, solver, item) && |paths| == Kept(engine, solver, item)
    && (paths != [] ==> found + |paths| <= MAX_PATHS)
  }

  lemma {:induction false} SuccessIsClean<S(!new)>(engine: Engine<S>, solver: Solver, item: Item, waiting: nat,
                                                   found: nat)
    requires Subtree(engine, solver, item, waiting, found).Some?
    ensures AsTree(engine, solver, item, found, Subtree(engine, solver, item, waiting, found).value)
    decreases Room(|item.trace|), 0, 0
  {
    assert !Stuck(engine, solver, item, waiting, found);
    if !engine.code[item.offset].Return? {
      var children, paths := Continuations(engine, item), Subtree(engine, solver, item, waiting, found).value;
      ChildrenYield(engine, solver, item, waiting, found);
      ForestIsClean(engine, solver, children, |item.trace| + 1, waiting, found, paths);
    }
  }

  lemma {:induction false} ForestIsClean<S(!new)>(engine: Engine<S>, solver: Solver, items: seq<Item>, depth: nat,
                                                  waiting: nat, found: nat, paths: seq<Path>)
    requires forall k :: 0 <= k < |items| ==> |items[k].trace| >= depth
    requires Yields(engine, solver, items, waiting, found, Some(paths))
    ensures CleanTrees(engine, solver, items) && |paths| == KeptOf(engine, solver, items, depth)
    ensures paths != [] ==> found + |paths| <= MAX_PATHS
    decreases Room(depth), 1, |items|
  {
    if items == [] {
      NothingYields(engine, solver, waiting, found);
      SameYield(engine, solver, items, waiting, found, Some(paths), Some([]));
    } else {
      var rest, item := items[..|items| - 1], items[|items| - 1];
      assert items == rest + [item];
      var lower := LastFirst(engine, solver, rest, item, waiting, found, Some(paths));
      var first := Subtree(engine, solver, item, waiting + |rest|, found).value;
      SuccessIsClean(engine, solver, item, waiting + |rest|, found);
      ForestIsClean(engine, solver, rest, depth, waiting, found + |first|, lower.value);
    }
  }

  // ----- a clean tree within the limit means success -----

  lemma {:induction false} CleanSucceeds<S(!new)>(engine: Engine<S>, solver: Solver, item: Item, waiting: nat,
                                                  found: nat)
    requires CleanTree(engine, solver, item) && waiting + Ends(engine, solver, item) + found <= MAX_PATHS
    ensures Subtree(engine, solver, item, waiting, found).Some?
    decreases Room(|item.trace|), 0, 0
  {
    EndsBound(engine, solver, item);
    if !engine.code[item.offset].Return? {
      var children := Continuations(engine, item);
      EndsOfBound(engine, solver, children, |item.trace| + 1);
      ChildrenYield(engine, solver, item, waiting, found);
      ForestSucceeds(engine, solver, children, |item.trace| + 1, waiting, found,
        Subtree(engine, solver, item, waiting, found));
    }
  }

  lemma {:induction false} ForestSucceeds<S(!new)>(engine: Engine<S>, solver: Solver, items: seq<Item>, depth: nat,
                                                   waiting: nat, found: nat, whole: Option<seq<Path>>)
    requires forall k :: 0 <= k < |items| ==> |items[k].trace| >= depth
    requires CleanTrees(engine, solver, items) && Yields(engine, solver, items, waiting, found, whole)
    requires waiting + EndsOf(engine, solver, items, depth) + found <= MAX_PATHS
    ensures whole.Some?
    decreases Room(depth), 1, |items|
  {
    if items == [] {
      NothingYields(engine, solver, waiting, found);
      SameYield(engine, solver, items, waiting, found, whole, Some([]));
    } else {
      var rest, item := items[..|items| - 1], items[|items| - 1];
      assert items == rest + [item];
      EndsOfBound(engine, solver, rest, depth);
      EndsBound(engine, solver, item);
      var lower := LastFirst(engine, solver, rest, item, waiting, found, whole);
      CleanSucceeds(engine, solver, item, waiting + |rest|, found);
      SuccessIsClean(engine, solver, item, waiting + |rest|, found);
      var first := Subtree(engine, solver, item, waiting + |rest|, found).value;
      ForestSucceeds(engine, solver, rest, depth, waiting, found + |first|, lower);
    }
  }

  /** The exploration finds paths. */
  ghost predicate Succeeds<S(!new)>(engine: Engine<S>, solver: Solver) {
    AllPaths(engine, solver).Some? && AllPaths(engine, solver).value != []
  }

  /**
   Success needs a clean tree with some feasible return and at most MAX_PATHS of them, and a clean tree with
   some feasible return and at most MAX_PATHS ends is enough; these agree when every return is feasible.
   */
  lemma ExplorationSucceeds<S(!new)>(engine: Engine<S>, solver: Solver)
    ensures Succeeds(engine, solver) ==>
              CleanTree(engine, solver, START) && 0 < Kept(engine, solver, START) <= MAX_PATHS
    ensures CleanTree(engine, solver, START) && Ends(engine, solver, START) <= MAX_PATHS ==>
              (Succeeds(engine, solver) <==> Kept(engine, solver, START) > 0)
    ensures Kept(engine, solver, START) == Ends(engine, solver, START) ==>
              (Succeeds(engine, solver) <==>
               CleanTree(engine, solver, START) && Ends(engine, solver, START) <= MAX_PATHS)
  {
    EndsBound(engine, solver, START);
    if AllPaths(engine, solver).Some? {
      SuccessIsClean(engine, solver, START, 0, 0);
    }
    if CleanTree(engine, solver, START) && Ends(engine, solver, START) <= MAX_PATHS {
      CleanSucceeds(engine, solver, START, 0, 0);
      SuccessIsClean(engine, solver, START, 0, 0);
    }
  }
}
