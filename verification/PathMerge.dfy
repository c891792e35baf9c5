/**
 Path exploration and merge of the Triton bridge (scripts/triton_bridge.py): every branch path of a
 symbol is replayed from the start, unsatisfiable ones are dropped, and the rest become one nested
 if-then-else. Symbolic values are functions of the two inputs; the solver is an oracle.
 */
module PathMerge {
  import opened Wrappers
  import opened Words

  const MAX_PATHS: nat := 64
  const MAX_PATH_INSTRUCTIONS: nat := 1024

  datatype Input = Input(arg0: Word, arg1: Word)

  /** One outcome of a conditional: the states that take it, and where it leads. */
  datatype Branch<!S> = Branch(holds: S -> bool, target: int)

  datatype Instruction<!S> =
    | Undecodable
    | Return
    | CallInstruction
    | Straight(size: nat)
    | Jump(destination: Option<int>)
    | Branches(branches: seq<Branch<S>>)

  /** The engine and the symbol's code, by offset. */
  datatype Engine<!S> = Engine(start: Input -> S, step: (nat, S) -> S, rax: S -> Word, code: seq<Instruction<S>>)

  /** Every state takes exactly one outcome of each conditional. */
  ghost predicate BranchesExact<S(!new)>(engine: Engine<S>) {
    forall o: nat, s: S :: o < |engine.code| && engine.code[o].Branches? && engine.code[o].branches != [] ==>
      Takers(engine.code[o].branches, s) == 1
  }

  function Takers<S>(branches: seq<Branch<S>>, s: S): nat {
    if branches == [] then 0
    else Takers(branches[..|branches| - 1], s) + if branches[|branches| - 1].holds(s) then 1 else 0
  }

  // ----- concrete runs -----

  /** The state after replaying a trace of offsets. */
  function StateAlong<S>(engine: Engine<S>, trace: seq<nat>, i: Input): S {
    if trace == [] then engine.start(i)
    else engine.step(trace[|trace| - 1], StateAlong(engine, trace[..|trace| - 1], i))
  }

  /** Control can go from one offset to the next in state s. */
  predicate Moves<S>(engine: Engine<S>, offset: nat, s: S, next: nat) {
    offset < |engine.code| &&
    match engine.code[offset]
    case Straight(size) => next == offset + size
    case Jump(Some(target)) => next == target
    case Branches(branches) => exists k | 0 <= k < |branches| :: branches[k].holds(s) && branches[k].target == next
    case _ => false
  }

  /** The run of input i goes through the trace and arrives at offset. */
  ghost predicate RunsAlong<S(!new)>(engine: Engine<S>, i: Input, trace: seq<nat>, offset: nat) {
    if trace == [] then offset == 0
    else
      var last, front := trace[|trace| - 1], trace[..|trace| - 1];
      RunsAlong(engine, i, front, last) && Moves(engine, last, StateAlong(engine, front, i), offset)
  }

  /** The run of input i returns through this trace. */
  ghost predicate ReturnsAlong<S(!new)>(engine: Engine<S>, i: Input, trace: seq<nat>) {
    trace != [] && trace[|trace| - 1] < |engine.code| && engine.code[trace[|trace| - 1]].Return? &&
    RunsAlong(engine, i, trace[..|trace| - 1], trace[|trace| - 1])
  }

  /** The function value of input i. */
  ghost predicate Returns<S(!new)>(engine: Engine<S>, i: Input, v: Word) {
    exists trace :: ReturnsAlong(engine, i, trace) && v == engine.rax(StateAlong(engine, trace, i))
  }

  // ----- paths -----

  type Condition = Input -> bool

  predicate All(conditions: seq<Condition>, i: Input) {
    forall k | 0 <= k < |conditions| :: conditions[k](i)
  }

  datatype Item = Item(trace: seq<nat>, offset: nat, conditions: seq<Condition>, visited: set<nat>)

  datatype Path = Path(conditions: seq<Condition>, rax: Input -> Word, example: Input)

  datatype PathError =
    | TooManyPaths | Loop(offset: nat) | TooLong | NotDecoded(offset: nat) | Call(offset: nat) | FallsOff(offset: nat)
    | Unresolved(offset: nat) | LeavesSymbol(target: int) | SolverGaveUp | NoReturn

  datatype Verdict = Sat(model: Input) | Unsat | GaveUp

  type Solver = seq<Condition> -> Verdict

  /** The solver's definite answers are right. */
  ghost predicate SolverRight(solver: Solver) {
    forall conditions ::
      && (solver(conditions).Unsat? ==> forall i :: !All(conditions, i))
      && (solver(conditions).Sat? ==> All(conditions, solver(conditions).model))
  }

  /** How many of the waiting paths input i satisfies. */
  function Waiting(items: seq<Item>, i: Input): nat {
    if items == [] then 0
    else Waiting(items[..|items| - 1], i) + if All(items[|items| - 1].conditions, i) then 1 else 0
  }

  function Recorded(paths: seq<Path>, i: Input): nat {
    if paths == [] then 0
    else Recorded(paths[..|paths| - 1], i) + if All(paths[|paths| - 1].conditions, i) then 1 else 0
  }

  /** Inputs satisfying a waiting path run along its trace. */
  ghost predicate ItemSound<S(!new)>(engine: Engine<S>, item: Item) {
    forall i :: All(item.conditions, i) ==> RunsAlong(engine, i, item.trace, item.offset)
  }

  /** Inputs satisfying a recorded path return its value. */
  ghost predicate PathSound<S(!new)>(engine: Engine<S>, path: Path) {
    All(path.conditions, path.example) && forall i :: All(path.conditions, i) ==> Returns(engine, i, path.rax(i))
  }

  lemma WaitingSplit(items: seq<Item>, more: seq<Item>, i: Input)
    ensures Waiting(items + more, i) == Waiting(items, i) + Waiting(more, i)
  {
    if more == [] {
      assert items + more == items;
    } else {
      var all := items + more;
      assert all[..|all| - 1] == items + more[..|more| - 1];
      WaitingSplit(items, more[..|more| - 1], i);
    }
  }

  /** The branches of one conditional become that many waiting paths. */
  ghost predicate BranchItems<S(!new)>(engine: Engine<S>, item: Item, branches: seq<Branch<S>>, children: seq<Item>) {
    |children| == |branches| && forall k :: 0 <= k < |branches| ==> BranchItem(engine, item, branches[k], children[k])
  }

  ghost predicate BranchItem<S(!new)>(engine: Engine<S>, item: Item, branch: Branch<S>, child: Item) {
    && branch.target == child.offset
    && child.trace == item.trace + [item.offset] && child.visited == item.visited + {item.offset}
    && forall i :: All(child.conditions, i) <==>
      All(item.conditions, i) && branch.holds(StateAlong(engine, item.trace, i))
  }

  lemma {:induction false} BranchesCount<S(!new)>(engine: Engine<S>, item: Item, branches: seq<Branch<S>>,
                                           children: seq<Item>, i: Input)
    requires BranchItems(engine, item, branches, children)
    ensures Waiting(children, i) == if All(item.conditions, i) then Takers(branches, StateAlong(engine, item.trace, i))
            else 0
    decreases |branches|
  {
    if branches != [] {
      var last := |branches| - 1;
      BranchesCount(engine, item, branches[..last], children[..last], i);
      assert BranchItem(engine, item, branches[last], children[last]);
    }
  }

  function BranchCondition<S>(engine: Engine<S>, trace: seq<nat>, branch: Branch<S>): Condition {
    i => branch.holds(StateAlong(engine, trace, i))
  }

  /** The path goes on at next, under one more condition or none. */
  function Onward(item: Item, next: nat, conditions: seq<Condition>): Item {
    Item(item.trace + [item.offset], next, item.conditions + conditions, item.visited + {item.offset})
  }

  /** The target lies in the symbol and was not visited on this path. */
  predicate Open<S>(engine: Engine<S>, item: Item, target: int) {
    0 <= target < |engine.code| && target !in item.visited + {item.offset}
  }

  predicate AllOpen<S>(engine: Engine<S>, item: Item, branches: seq<Branch<S>>) {
    forall k | 0 <= k < |branches| :: Open(engine, item, branches[k].target)
  }

  function Child<S>(engine: Engine<S>, item: Item, branch: Branch<S>): Item
    requires branch.target >= 0
  {
    Onward(item, branch.target, [BranchCondition(engine, item.trace, branch)])
  }

  lemma ChildOfBranch<S(!new)>(engine: Engine<S>, item: Item, branch: Branch<S>)
    requires branch.target >= 0
    ensures BranchItem(engine, item, branch, Child(engine, item, branch))
  {
    var child, condition := Child(engine, item, branch), BranchCondition(engine, item.trace, branch);
    forall i
      ensures All(child.conditions, i) <==> All(item.conditions, i) && branch.holds(StateAlong(engine, item.trace, i))
    {
      assert child.conditions[|item.conditions|] == condition;
      assert forall j :: 0 <= j < |item.conditions| ==> child.conditions[j] == item.conditions[j];
    }
  }

  method AddBranches<S(!new)>(engine: Engine<S>, item: Item,
                       branches: seq<Branch<S>>) returns (r: Result<seq<Item>, PathError>)
    ensures r.Success? <==> AllOpen(engine, item, branches)
    ensures r.Success? ==> BranchItems(engine, item, branches, r.value) &&
                           forall k :: 0 <= k < |branches| ==> r.value[k] == Child(engine, item, branches[k])
    ensures r.Failure? ==>
              && (r.error.LeavesSymbol? || (r.error.Loop? && r.error.offset in item.visited + {item.offset}))
              && var target := if r.error.LeavesSymbol? then r.error.target else r.error.offset;
                 && (exists k :: 0 <= k < |branches| && branches[k].target == target)
                 && (r.error.LeavesSymbol? <==> !(0 <= target < |engine.code|))
  {
    var children := [];
    for k := 0 to |branches|
      invariant AllOpen(engine, item, branches[..k]) && BranchItems(engine, item, branches[..k], children)
      invariant forall j :: 0 <= j < k ==> children[j] == Child(engine, item, branches[j])
    {
      var branch := branches[k];
      if branch.target < 0 || branch.target >= |engine.code| {
        return Failure(LeavesSymbol(branch.target));
      }
      if branch.target in item.visited + {item.offset} {
        return Failure(Loop(branch.target));
      }
      ChildOfBranch(engine, item, branch);
      children := children + [Child(engine, item, branch)];
    }
    assert branches[..|branches|] == branches;
    r := Success(children);
  }

  /** The paths one instruction leads to, when it does not return. */
  ghost predicate Extends<S(!new)>(engine: Engine<S>, item: Item, children: seq<Item>) {
    && (forall i :: Waiting(children, i) == if All(item.conditions, i) then 1 else 0)
    && (forall k :: 0 <= k < |children| ==> ItemSound(engine, children[k]) && |children[k].trace| == |item.trace| + 1)
    && |children| <= Fanout(engine.code)
  }

  function Fanout<S>(code: seq<Instruction<S>>): nat {
    if code == [] then 1
    else
      var rest, here := Fanout(code[1..]), if code[0].Branches? then |code[0].branches| else 1;
      if here > rest then here else rest
  }

  lemma {:induction false} FanoutBounds<S>(code: seq<Instruction<S>>, o: nat)
    requires o < |code|
    ensures Fanout(code) >= 1 && (code[o].Branches? ==> |code[o].branches| <= Fanout(code))
  {
    if o > 0 {
      FanoutBounds(code[1..], o - 1);
    } else if |code| > 1 {
      FanoutBounds(code[1..], 0);
    }
  }

  lemma OneChild<S(!new)>(engine: Engine<S>, item: Item, next: nat)
    requires ItemSound(engine, item) && item.offset < |engine.code|
    requires forall s: S :: Moves(engine, item.offset, s, next)
    ensures Extends(engine, item, [Onward(item, next, [])])
  {
    var child := Onward(item, next, []);
    assert item.conditions + [] == item.conditions;
    assert child.trace[..|child.trace| - 1] == item.trace;
    forall i
      ensures Waiting([child], i) == if All(item.conditions, i) then 1 else 0
    {
      assert [child][..0] == [];
    }
    FanoutBounds(engine.code, item.offset);
  }

  lemma ManyChildren<S(!new)>(engine: Engine<S>, item: Item, children: seq<Item>)
    requires BranchesExact(engine) && ItemSound(engine, item) && item.offset < |engine.code| &&
             engine.code[item.offset].Branches?
    requires engine.code[item.offset].branches != [] &&
             BranchItems(engine, item, engine.code[item.offset].branches, children)
    ensures Extends(engine, item, children)
  {
    var branches := engine.code[item.offset].branches;
    forall i
      ensures Waiting(children, i) == if All(item.conditions, i) then 1 else 0
    {
      BranchesCount(engine, item, branches, children, i);
    }
    forall k | 0 <= k < |children|
      ensures ItemSound(engine, children[k])
    {
      assert BranchItem(engine, item, branches[k], children[k]);
      assert children[k].trace[..|children[k].trace| - 1] == item.trace;
    }
    FanoutBounds(engine.code, item.offset);
  }

  /** The path can go on from its instruction. */
  predicate CanAdvance<S>(engine: Engine<S>, item: Item) {
    item.offset < |engine.code| &&
    match engine.code[item.offset]
    case Straight(size) => item.offset + size < |engine.code|
    case Jump(Some(target)) => Open(engine, item, target)
    case Branches(branches) => branches != [] && AllOpen(engine, item, branches)
    case _ => false
  }

  /** The instruction at an offset can lead to this place, whatever the state. */
  predicate Leads<S>(engine: Engine<S>, offset: nat, next: int)
    requires offset < |engine.code|
  {
    match engine.code[offset]
    case Straight(size) => next == offset + size
    case Jump(destination) => destination == Some(next)
    case Branches(branches) => exists k | 0 <= k < |branches| :: branches[k].target == next
    case Return => false
    case CallInstruction => false
    case Undecodable => false
  }

  /**
   A path goes on exactly when its instruction leads somewhere and every place it leads to is in the symbol
   and, unless control just falls through, new to the path.
   */
  lemma CanAdvanceExactly<S(!new)>(engine: Engine<S>, item: Item)
    requires item.offset < |engine.code|
    ensures CanAdvance(engine, item) <==>
            && (exists next :: Leads(engine, item.offset, next))
            && forall next :: Leads(engine, item.offset, next) ==>
                 && 0 <= next < |engine.code|
                 && (engine.code[item.offset].Straight? || (next !in item.visited && next != item.offset))
  {
    match engine.code[item.offset]
    case Straight(size) => assert Leads(engine, item.offset, item.offset + size);
    case Jump(Some(target)) => assert Leads(engine, item.offset, target);
    case Jump(None) =>
    case Branches(branches) =>
      if branches != [] {
        assert Leads(engine, item.offset, branches[0].target);
      }
      forall k | 0 <= k < |branches|
        ensures Leads(engine, item.offset, branches[k].target)
      {
      }
    case Return =>
    case CallInstruction =>
    case Undecodable =>
  }

  /** Where it goes on. */
  function Continuations<S>(engine: Engine<S>, item: Item): (r: seq<Item>)
    requires CanAdvance(engine, item)
    ensures forall k :: 0 <= k < |r| ==> |r[k].trace| == |item.trace| + 1
  {
    match engine.code[item.offset]
    case Straight(size) => [Onward(item, item.offset + size, [])]
    case Jump(Some(target)) => [Onward(item, target, [])]
    case Branches(branches) => seq(|branches|, k requires 0 <= k < |branches| => Child(engine, item, branches[k]))
  }

  /** The error names why the path cannot go on. */
  ghost predicate Refuses<S>(engine: Engine<S>, item: Item, error: PathError)
    requires item.offset < |engine.code|
  {
    var here := engine.code[item.offset];
    match error
    case FallsOff(o) => o == item.offset && here.Straight? && item.offset + here.size >= |engine.code|
    case Unresolved(o) => o == item.offset && (here == Jump(None) || (here.Branches? && here.branches == []))
    case LeavesSymbol(target) => Leads(engine, item.offset, target) && !(0 <= target < |engine.code|)
    case Loop(target) => Leads(engine, item.offset, target) && (target in item.visited || target == item.offset)
    case Call(o) => o == item.offset && here.CallInstruction?
    case NotDecoded(o) => o == item.offset && (here.Undecodable? || here.Return?)
    case _ => false
  }

  /** Processes one instruction that does not return. */
  method Advance<S(!new)>(engine: Engine<S>, item: Item) returns (r: Result<seq<Item>, PathError>)
    requires BranchesExact(engine) && ItemSound(engine, item) && item.offset < |engine.code|
    ensures r.Success? <==> CanAdvance(engine, item)
    ensures r.Success? ==> r.value == Continuations(engine, item) && Extends(engine, item, r.value)
    ensures r.Failure? ==> Refuses(engine, item, r.error)
  {
    var visited := item.visited + {item.offset};
    match engine.code[item.offset] {
      case Straight(size) =>
        var next := item.offset + size;
        if next >= |engine.code| {
          return Failure(FallsOff(item.offset));
        }
        OneChild(engine, item, next);
        r := Success([Onward(item, next, [])]);
      case Jump(destination) =>
        if destination.None? {
          return Failure(Unresolved(item.offset));
        }
        var next := destination.value;
        if next < 0 || next >= |engine.code| {
          return Failure(LeavesSymbol(next));
        }
        if next in visited {
          return Failure(Loop(next));
        }
        OneChild(engine, item, next);
        r := Success([Onward(item, next, [])]);
      case Branches(branches) =>
        if branches == [] {
          return Failure(Unresolved(item.offset));
        }
        r := AddBranches(engine, item, branches);
        if r.Success? {
          ManyChildren(engine, item, r.value);
        }
      case CallInstruction => r := Failure(Call(item.offset));
      case _ => r := Failure(NotDecoded(item.offset));
    }
  }

  // ----- the exploration as a recursion over the tree of paths -----

  function RaxAlong<S>(engine: Engine<S>, trace: seq<nat>): Input -> Word {
    i => engine.rax(StateAlong(engine, trace, i))
  }

  function Feasible(solver: Solver, conditions: seq<Condition>): Verdict {
    if conditions == [] then Sat(Input(0, 0)) else solver(conditions)
  }

  /**
   The exploration fails at this path: a limit, a revisit, an instruction that cannot go on, or no answer
   from the solver. `waiting` paths wait beside it and `found` have been recorded.
   */
  predicate Stuck<S>(engine: Engine<S>, solver: Solver, item: Item, waiting: nat, found: nat) {
    || found >= MAX_PATHS || item.offset in item.visited || |item.trace| >= MAX_PATH_INSTRUCTIONS
    || item.offset >= |engine.code|
    || (if engine.code[item.offset].Return? then Feasible(solver, item.conditions).GaveUp?
        else !CanAdvance(engine, item) ||
             (engine.code[item.offset].Branches? && waiting + |Continuations(engine, item)| + found > MAX_PATHS))
  }

  /** What a path that returns records. */
  function AtReturn<S>(engine: Engine<S>, solver: Solver, item: Item): seq<Path> {
    match Feasible(solver, item.conditions)
    case Sat(model) => [Path(item.conditions, RaxAlong(engine, item.trace + [item.offset]), model)]
    case _ => []
  }

  /** The paths recorded below one waiting path, in order; None if the exploration fails. The last branch goes first. */
  ghost function Subtree<S(!new)>(engine: Engine<S>, solver: Solver, item: Item, waiting: nat, found: nat)
    : Option<seq<Path>>
    decreases Room(|item.trace|), 0, 0
  {
    if Stuck(engine, solver, item, waiting, found) then None
    else if engine.code[item.offset].Return? then Some(AtReturn(engine, solver, item))
    else Forest(engine, solver, Continuations(engine, item), |item.trace| + 1, waiting, found)
  }

  /** The same for several waiting paths. */
  ghost function Forest<S(!new)>(engine: Engine<S>, solver: Solver, items: seq<Item>, depth: nat, waiting: nat,
                                 found: nat): Option<seq<Path>>
    requires forall k :: 0 <= k < |items| ==> |items[k].trace| >= depth
    decreases Room(depth), 1, |items|
  {
    if items == [] then Some([])
    else
      var rest, item := items[..|items| - 1], items[|items| - 1];
      var first := Subtree(engine, solver, item, waiting + |rest|, found);
      if first.None? then None
      else Joined(first.value, Forest(engine, solver, rest, depth, waiting, found + |first.value|))
  }

  /** All paths of the symbol, if its exploration succeeds. */
  ghost function AllPaths<S(!new)>(engine: Engine<S>, solver: Solver): Option<seq<Path>> {
    Subtree(engine, solver, START, 0, 0)
  }

  const START: Item := Item([], 0, [], {})

  function Room(depth: nat): nat {
    if depth <= MAX_PATH_INSTRUCTIONS then MAX_PATH_INSTRUCTIONS - depth else 0
  }

  function Joined(paths: seq<Path>, more: Option<seq<Path>>): Option<seq<Path>> {
    if more.None? then None else Some(paths + more.value)
  }

  lemma JoinedTwice(a: seq<Path>, b: seq<Path>, more: Option<seq<Path>>)
    ensures Joined(a, Joined(b, more)) == Joined(a + b, more)
  {
    if more.Some? {
      assert a + (b + more.value) == (a + b) + more.value;
    }
  }

  lemma JoinedEmpty(more: Option<seq<Path>>)
    ensures Joined([], more) == more
  {
    if more.Some? {
      assert [] + more.value == more.value;
    }
  }

  lemma JoinedSome(paths: seq<Path>)
    ensures Joined(paths, Some([])) == Some(paths)
  {
    assert paths + [] == paths;
  }

  /** The bound on the depth only serves termination. */
  lemma {:induction false} DepthIrrelevant<S(!new)>(engine: Engine<S>, solver: Solver, items: seq<Item>, d: nat,
                                                    waiting: nat, found: nat)
    requires forall k :: 0 <= k < |items| ==> |items[k].trace| >= d
    ensures Forest(engine, solver, items, d, waiting, found) == Forest(engine, solver, items, 0, waiting, found)
    decreases |items|
  {
    if items != [] {
      var rest, item := items[..|items| - 1], items[|items| - 1];
      var first := Subtree(engine, solver, item, waiting + |rest|, found);
      if first.Some? {
        DepthIrrelevant(engine, solver, rest, d, waiting, found + |first.value|);
      }
    }
  }

  /** Waiting paths beside `waiting` others yield these, after `found` others. Folded. */
  ghost predicate Yields<S(!new)>(engine: Engine<S>, solver: Solver, items: seq<Item>, waiting: nat, found: nat,
                                  r: Option<seq<Path>>)
  {
    forall b: bool {:trigger Unfold(b)} :: Unfold(b) ==> r == Forest(engine, solver, items, 0, waiting, found)
  }

  lemma SameYield<S(!new)>(engine: Engine<S>, solver: Solver, items: seq<Item>, waiting: nat, found: nat,
                           r: Option<seq<Path>>, q: Option<seq<Path>>)
    requires Yields(engine, solver, items, waiting, found, r) && Yields(engine, solver, items, waiting, found, q)
    ensures r == q
  {
    assert Unfold(true);
  }

  lemma NothingYields<S(!new)>(engine: Engine<S>, solver: Solver, waiting: nat, found: nat)
    ensures Yields(engine, solver, [], waiting, found, Some([]))
  {
  }

  /** The item on top is explored first, with the rest waiting; the rest follows, after what it recorded. */
  lemma TopFirst<S(!new)>(engine: Engine<S>, solver: Solver, rest: seq<Item>, item: Item, waiting: nat, found: nat,
                          under: Option<seq<Path>>)
    requires var top := Subtree(engine, solver, item, waiting + |rest|, found);
             top.Some? ==> Yields(engine, solver, rest, waiting, found + |top.value|, under)
    ensures var top := Subtree(engine, solver, item, waiting + |rest|, found);
            Yields(engine, solver, rest + [item], waiting, found, if top.None? then None else Joined(top.value, under))
  {
    assert Unfold(true);
    assert (rest + [item])[..|rest|] == rest;
  }

  ghost function Yield<S(!new)>(engine: Engine<S>, solver: Solver, items: seq<Item>, waiting: nat, found: nat)
    : (r: Option<seq<Path>>)
    ensures Yields(engine, solver, items, waiting, found, r)
  {
    Forest(engine, solver, items, 0, waiting, found)
  }

  /** What waits on top is explored first, with the rest waiting. */
  lemma {:induction false} ForestSplits<S(!new)>(engine: Engine<S>, solver: Solver, rest: seq<Item>, more: seq<Item>,
                                                 found: nat, upper: Option<seq<Path>>, lower: Option<seq<Path>>)
    requires Yields(engine, solver, more, |rest|, found, upper)
    requires upper.Some? ==> Yields(engine, solver, rest, 0, found + |upper.value|, lower)
    ensures Yields(engine, solver, rest + more, 0, found, if upper.None? then None else Joined(upper.value, lower))
    decreases |more|, 0
  {
    if more == [] {
      assert rest + more == rest;
      NothingYields(engine, solver, |rest|, found);
      SameYield(engine, solver, [], |rest|, found, upper, Some([]));
      JoinedEmpty(lower);
    } else {
      var front, item := more[..|more| - 1], more[|more| - 1];
      assert rest + more == (rest + front) + [item] && more == front + [item];
      SplitStep(engine, solver, rest, front, item, found, upper, lower);
    }
  }

  lemma {:induction false} SplitStep<S(!new)>(engine: Engine<S>, solver: Solver, rest: seq<Item>, front: seq<Item>,
                                              item: Item, found: nat, upper: Option<seq<Path>>,
                                              lower: Option<seq<Path>>)
    requires Yields(engine, solver, front + [item], |rest|, found, upper)
    requires upper.Some? ==> Yields(engine, solver, rest, 0, found + |upper.value|, lower)
    ensures Yields(engine, solver, (rest + front) + [item], 0, found,
                   if upper.None? then None else Joined(upper.value, lower))
    decreases |front|, 1
  {
    var top := Subtree(engine, solver, item, |rest| + |front|, found);
    assert |rest + front| == |rest| + |front|;
    if top.None? {
      TopFirst(engine, solver, front, item, |rest|, found, None);
      SameYield(engine, solver, front + [item], |rest|, found, upper, None);
      TopFirst(engine, solver, rest + front, item, 0, found, None);
    } else {
      var under := Yield(engine, solver, front, |rest|, found + |top.value|);
      TopFirst(engine, solver, front, item, |rest|, found, under);
      SameYield(engine, solver, front + [item], |rest|, found, upper, Joined(top.value, under));
      ForestSplits(engine, solver, rest, front, found + |top.value|, under, lower);
      TopFirst(engine, solver, rest + front, item, 0, found, if under.None? then None else Joined(under.value, lower));
      if under.Some? {
        JoinedTwice(top.value, under.value, lower);
      }
    }
  }

  lemma StartYields<S(!new)>(engine: Engine<S>, solver: Solver)
    ensures Yields(engine, solver, [START], 0, 0, AllPaths(engine, solver))
  {
    var all := AllPaths(engine, solver);
    if all.Some? {
      NothingYields(engine, solver, 0, |all.value|);
      JoinedSome(all.value);
    }
    TopFirst(engine, solver, [], START, 0, 0, Some([]));
    assert [] + [START] == [START];
  }

  /** A path that fails, fails the exploration. */
  lemma FailsAlong<S(!new)>(engine: Engine<S>, solver: Solver, rest: seq<Item>, item: Item, found: nat,
                            r: Option<seq<Path>>)
    requires Yields(engine, solver, rest + [item], 0, found, r) && Stuck(engine, solver, item, |rest|, found)
    ensures r.None?
  {
    TopFirst(engine, solver, rest, item, 0, found, None);
    SameYield(engine, solver, rest + [item], 0, found, r, None);
  }

  /** A path that returns adds what it records. */
  lemma ReturnsAlongside<S(!new)>(engine: Engine<S>, solver: Solver, rest: seq<Item>, item: Item, found: nat,
                                  r: Option<seq<Path>>)
    returns (under: Option<seq<Path>>)
    requires Yields(engine, solver, rest + [item], 0, found, r) && !Stuck(engine, solver, item, |rest|, found)
    requires engine.code[item.offset].Return?
    ensures Yields(engine, solver, rest, 0, found + |AtReturn(engine, solver, item)|, under)
    ensures r == Joined(AtReturn(engine, solver, item), under)
  {
    under := Yield(engine, solver, rest, 0, found + |AtReturn(engine, solver, item)|);
    TopFirst(engine, solver, rest, item, 0, found, under);
    SameYield(engine, solver, rest + [item], 0, found, r, Joined(AtReturn(engine, solver, item), under));
  }

  /** A path that goes on is replaced by its continuations. */
  lemma AdvancesAlong<S(!new)>(engine: Engine<S>, solver: Solver, rest: seq<Item>, item: Item, found: nat,
                               r: Option<seq<Path>>)
    requires Yields(engine, solver, rest + [item], 0, found, r) && !Stuck(engine, solver, item, |rest|, found)
    requires !engine.code[item.offset].Return?
    ensures Yields(engine, solver, rest + Continuations(engine, item), 0, found, r)
  {
    var children, top := Continuations(engine, item), Subtree(engine, solver, item, |rest|, found);
    assert Yields(engine, solver, children, |rest|, found, top) by {
      DepthIrrelevant(engine, solver, children, |item.trace| + 1, |rest|, found);
    }
    var under := if top.None? then None else Yield(engine, solver, rest, 0, found + |top.value|);
    TopFirst(engine, solver, rest, item, 0, found, under);
    SameYield(engine, solver, rest + [item], 0, found, r, if top.None? then None else Joined(top.value, under));
    ForestSplits(engine, solver, rest, children, found, top, under);
  }

  // ----- termination -----

  function Power(b: nat, e: nat): (r: nat)
    ensures b > 0 ==> r > 0
  {
    if e == 0 then 1 else b * Power(b, e - 1)
  }

  /** Room left for the subtrees of all waiting paths; `b` exceeds every fan-out. */
  ghost function Weight(items: seq<Item>, b: nat): nat {
    if items == [] then 0
    else
      var depth := |items[|items| - 1].trace|;
      Weight(items[..|items| - 1], b) + (if depth <= MAX_PATH_INSTRUCTIONS then Power(b, MAX_PATH_INSTRUCTIONS - depth)
        else 0)
  }

  lemma {:induction false} WeightSplit(items: seq<Item>, more: seq<Item>, b: nat)
    ensures Weight(items + more, b) == Weight(items, b) + Weight(more, b)
  {
    if more == [] {
      assert items + more == items;
    } else {
      var all := items + more;
      assert all[..|all| - 1] == items + more[..|more| - 1];
      WeightSplit(items, more[..|more| - 1], b);
    }
  }

  lemma {:induction false} LevelWeight(children: seq<Item>, depth: nat, b: nat)
    requires depth <= MAX_PATH_INSTRUCTIONS && forall k :: 0 <= k < |children| ==> |children[k].trace| == depth
    ensures Weight(children, b) == |children| * Power(b, MAX_PATH_INSTRUCTIONS - depth)
  {
    if children != [] {
      LevelWeight(children[..|children| - 1], depth, b);
    }
  }

  lemma WeightDrops(rest: seq<Item>, item: Item, children: seq<Item>, b: nat)
    requires |item.trace| < MAX_PATH_INSTRUCTIONS && |children| < b
    requires forall k :: 0 <= k < |children| ==> |children[k].trace| == |item.trace| + 1
    ensures Weight(rest + children, b) < Weight(rest + [item], b)
  {
    WeightSplit(rest, children, b);
    WeightSplit(rest, [item], b);
    LevelWeight(children, |item.trace| + 1, b);
    LevelWeight([item], |item.trace|, b);
    PowerStep(b, MAX_PATH_INSTRUCTIONS - |item.trace|, |children|);
  }

  lemma PowerStep(b: nat, e: nat, n: nat)
    requires e > 0 && n < b
    ensures n * Power(b, e - 1) < 1 * Power(b, e)
  {
    Larger(n, b, Power(b, e - 1));
  }

  lemma Larger(n: nat, b: nat, p: nat)
    requires n < b && p > 0
    ensures n * p < b * p
  {
  }

  // ----- exploration -----

  /** Waiting paths run as they claim, recorded ones return as they claim, and each input is in exactly one. */
  ghost predicate Exploring<S(!new)>(engine: Engine<S>, solver: Solver, items: seq<Item>, paths: seq<Path>) {
    forall b: bool {:trigger Unfold(b)} :: Unfold(b) ==> Accounted(engine, solver, items, paths)
  }

  ghost predicate Accounted<S(!new)>(engine: Engine<S>, solver: Solver, items: seq<Item>, paths: seq<Path>) {
    && (forall k :: 0 <= k < |items| ==> ItemSound(engine, items[k]) && |items[k].trace| <= MAX_PATH_INSTRUCTIONS)
    && (SolverRight(solver) ==>
          (forall k :: 0 <= k < |paths| ==> PathSound(engine, paths[k])) &&
          (forall i :: Waiting(items, i) + Recorded(paths, i) == 1))
  }

  lemma PopSplits(items: seq<Item>, rest: seq<Item>, item: Item)
    requires items == rest + [item]
    ensures forall i :: Waiting(items, i) == Waiting(rest, i) + if All(item.conditions, i) then 1 else 0
  {
    forall i
      ensures Waiting(items, i) == Waiting(rest, i) + if All(item.conditions, i) then 1 else 0
    {
      assert items[..|items| - 1] == rest;
    }
  }

  lemma StartExploring<S(!new)>(engine: Engine<S>, solver: Solver)
    ensures Exploring(engine, solver, [START], [])
  {
    assert [START][..0] == [];
    assert forall i :: Waiting([START], i) == 1;
    assert ItemSound(engine, START);
    assert Accounted(engine, solver, [START], []);
  }

  lemma TopSound<S(!new)>(engine: Engine<S>, solver: Solver, rest: seq<Item>, item: Item, paths: seq<Path>)
    requires Exploring(engine, solver, rest + [item], paths)
    ensures ItemSound(engine, item)
  {
    assert Unfold(true);
    assert (rest + [item])[|rest|] == item;
  }

  lemma ExtendStep<S(!new)>(engine: Engine<S>, solver: Solver, rest: seq<Item>, item: Item, children: seq<Item>,
                     paths: seq<Path>)
    requires Exploring(engine, solver, rest + [item], paths) && Extends(engine, item, children) &&
             |item.trace| < MAX_PATH_INSTRUCTIONS
    ensures Exploring(engine, solver, rest + children, paths)
  {
    assert Unfold(true);
    var items, after := rest + [item], rest + children;
    PopSplits(items, rest, item);
    forall k | 0 <= k < |after|
      ensures ItemSound(engine, after[k]) && |after[k].trace| <= MAX_PATH_INSTRUCTIONS
    {
      if k < |rest| {
        assert after[k] == items[k];
      } else {
        assert after[k] == children[k - |rest|];
      }
    }
    forall i
      ensures Waiting(after, i) == Waiting(items, i)
    {
      WaitingSplit(rest, children, i);
    }
  }

  lemma DropStep<S(!new)>(engine: Engine<S>, solver: Solver, rest: seq<Item>, item: Item, paths: seq<Path>)
    requires Exploring(engine, solver, rest + [item], paths)
    requires SolverRight(solver) ==> forall i :: !All(item.conditions, i)
    ensures Exploring(engine, solver, rest, paths)
  {
    assert Unfold(true);
    var items := rest + [item];
    PopSplits(items, rest, item);
    assert forall k :: 0 <= k < |rest| ==> rest[k] == items[k];
  }

  lemma RecordStep<S(!new)>(engine: Engine<S>, solver: Solver, rest: seq<Item>, item: Item, paths: seq<Path>,
                     path: Path)
    requires Exploring(engine, solver, rest + [item], paths)
    requires item.offset < |engine.code| && engine.code[item.offset].Return? && path.conditions == item.conditions
    requires forall i :: path.rax(i) == engine.rax(StateAlong(engine, item.trace + [item.offset], i))
    requires SolverRight(solver) ==> All(path.conditions, path.example)
    ensures Exploring(engine, solver, rest, paths + [path])
  {
    assert Unfold(true);
    var items, after, trace := rest + [item], paths + [path], item.trace + [item.offset];
    PopSplits(items, rest, item);
    assert items[|rest|] == item && forall k :: 0 <= k < |rest| ==> rest[k] == items[k];
    forall i | All(path.conditions, i)
      ensures Returns(engine, i, path.rax(i))
    {
      assert trace[..|trace| - 1] == item.trace;
      assert ReturnsAlong(engine, i, trace);
    }
    forall i
      ensures Recorded(after, i) == Recorded(paths, i) + if All(path.conditions, i) then 1 else 0
    {
      assert after[..|after| - 1] == paths;
    }
    assert SolverRight(solver) ==> PathSound(engine, path);
  }

  method Explore<S(!new)>(engine: Engine<S>, solver: Solver) returns (r: Result<seq<Path>, PathError>)
    requires BranchesExact(engine)
    ensures r.Success? <==> AllPaths(engine, solver).Some? && AllPaths(engine, solver).value != []
    ensures r.Success? ==> AllPaths(engine, solver) == Some(r.value)
    ensures r.Success? ==> 0 < |r.value| <= MAX_PATHS && Exploring(engine, solver, [], r.value)
  {
    var items, paths: seq<Path> := [START], [];
    ghost var b := Fanout(engine.code) + 1;
    ghost var all := AllPaths(engine, solver);
    ghost var left := all;
    StartExploring(engine, solver);
    StartYields(engine, solver);
    JoinedEmpty(left);
    while items != []
      invariant Exploring(engine, solver, items, paths) && |paths| <= MAX_PATHS
      invariant Yields(engine, solver, items, 0, |paths|, left) && all == Joined(paths, left)
      decreases Weight(items, b)
    {
      var item, rest := items[|items| - 1], items[..|items| - 1];
      assert items == rest + [item];
      if Stuck(engine, solver, item, |rest|, |paths|) {
        FailsAlong(engine, solver, rest, item, |paths|, left);
      }
      items := rest;
      if |paths| >= MAX_PATHS {
        return Failure(TooManyPaths);
      }
      if item.offset in item.visited {
        return Failure(Loop(item.offset));
      }
      if |item.trace| >= MAX_PATH_INSTRUCTIONS {
        return Failure(TooLong);
      }
      WeightDrops(rest, item, [], b);
      assert rest + [] == rest;
      if item.offset >= |engine.code| {
        return Failure(NotDecoded(item.offset));
      }
      if engine.code[item.offset].Return? {
        var verdict := Feasible(solver, item.conditions);
        if verdict.GaveUp? {
          return Failure(SolverGaveUp);
        }
        left := ReturnsAlongside(engine, solver, rest, item, |paths|, left);
        JoinedTwice(paths, AtReturn(engine, solver, item), left);
        if verdict.Unsat? {
          DropStep(engine, solver, rest, item, paths);
          assert paths + [] == paths;
          continue;
        }
        var path := Path(item.conditions, RaxAlong(engine, item.trace + [item.offset]), verdict.model);
        RecordStep(engine, solver, rest, item, paths, path);
        paths := paths + [path];
        continue;
      }
      TopSound(engine, solver, rest, item, paths);
      var next := Advance(engine, item);
      if next.Failure? {
        return Failure(next.error);
      }
      items := rest + next.value;
      if engine.code[item.offset].Branches? && |items| + |paths| > MAX_PATHS {
        return Failure(TooManyPaths);
      }
      ExtendStep(engine, solver, rest, item, next.value, paths);
      WeightDrops(rest, item, next.value, b);
      AdvancesAlong(engine, solver, rest, item, |paths|, left);
    }
    NothingYields(engine, solver, 0, |paths|);
    SameYield(engine, solver, [], 0, |paths|, left, Some([]));
    JoinedSome(paths);
    if paths == [] {
      return Failure(NoReturn);
    }
    r := Success(paths);
  }

  // ----- the merged value -----

  /** Nested if-then-else over path conditions. */
  datatype Merged = Leaf(rax: Input -> Word) | Ite(conditions: seq<Condition>, rax: Input -> Word, otherwise: Merged)

  function Eval(m: Merged, i: Input): Word {
    match m
    case Leaf(rax) => rax(i)
    case Ite(conditions, rax, otherwise) => if All(conditions, i) then rax(i) else Eval(otherwise, i)
  }

  /** The first satisfied path from k on, the last path if none before it is. */
  function Chosen(paths: seq<Path>, k: nat, i: Input): (c: nat)
    requires k < |paths|
    ensures k <= c < |paths|
    decreases |paths| - k
  {
    if k == |paths| - 1 || All(paths[k].conditions, i) then k else Chosen(paths, k + 1, i)
  }

  method MergePaths(paths: seq<Path>) returns (merged: Merged)
    requires paths != []
    ensures forall i :: Eval(merged, i) == paths[Chosen(paths, 0, i)].rax(i)
  {
    merged := Leaf(paths[|paths| - 1].rax);
    var k := |paths| - 1;
    while k > 0
      invariant 0 <= k < |paths| && forall i :: Eval(merged, i) == paths[Chosen(paths, k, i)].rax(i)
    {
      k := k - 1;
      merged := Ite(paths[k].conditions, paths[k].rax, merged);
    }
  }

  lemma {:induction false} RecordedFinds(paths: seq<Path>, i: Input)
    ensures Recorded(paths, i) > 0 <==> exists k :: 0 <= k < |paths| && All(paths[k].conditions, i)
    ensures Recorded(paths, i) == 1 ==>
              forall j, k ::
                0 <= j < |paths| && 0 <= k < |paths| ==>
                  All(paths[j].conditions, i) && All(paths[k].conditions, i) ==> j == k
  {
    if paths != [] {
      var last := |paths| - 1;
      RecordedFinds(paths[..last], i);
      assert forall k :: 0 <= k < last ==> paths[..last][k] == paths[k];
      if exists k :: 0 <= k < |paths| && All(paths[k].conditions, i) {
        var k :| 0 <= k < |paths| && All(paths[k].conditions, i);
        assert k < last ==> All(paths[..last][k].conditions, i);
      }
    }
  }

  /** If exactly one path is satisfied, it is the one chosen, even as the unconditional default. */
  lemma {:induction false} ChosenIsSatisfied(paths: seq<Path>, k: nat, i: Input)
    requires k < |paths| && exists j :: k <= j < |paths| && All(paths[j].conditions, i)
    ensures All(paths[Chosen(paths, k, i)].conditions, i)
    decreases |paths| - k
  {
    var j :| k <= j < |paths| && All(paths[j].conditions, i);
    if k != |paths| - 1 && !All(paths[k].conditions, i) {
      ChosenIsSatisfied(paths, k + 1, i);
    }
  }

  lemma {:induction false} TakersUnique<S>(branches: seq<Branch<S>>, s: S, j: nat, k: nat)
    requires j < |branches| && k < |branches| && branches[j].holds(s) && branches[k].holds(s) &&
             Takers(branches, s) == 1
    ensures j == k
  {
    var last := |branches| - 1;
    if j < last && k < last {
      SomeTaker(branches[..last], s, j);
      TakersUnique(branches[..last], s, j, k);
    } else if j < last {
      SomeTaker(branches[..last], s, j);
    } else if k < last {
      SomeTaker(branches[..last], s, k);
    }
  }

  lemma {:induction false} SomeTaker<S>(branches: seq<Branch<S>>, s: S, k: nat)
    requires k < |branches| && branches[k].holds(s)
    ensures Takers(branches, s) > 0
  {
    var last := |branches| - 1;
    if k < last {
      SomeTaker(branches[..last], s, k);
    }
  }

  lemma MovesOnce<S(!new)>(engine: Engine<S>, offset: nat, s: S, next: nat, other: nat)
    requires BranchesExact(engine) && Moves(engine, offset, s, next) && Moves(engine, offset, s, other)
    ensures next == other
  {
    if engine.code[offset].Branches? {
      var branches := engine.code[offset].branches;
      var j :| 0 <= j < |branches| && branches[j].holds(s) && branches[j].target == next;
      var k :| 0 <= k < |branches| && branches[k].holds(s) && branches[k].target == other;
      TakersUnique(branches, s, j, k);
    }
  }

  /** A run has one continuation at each length. */
  lemma {:induction false} SameRun<S(!new)>(engine: Engine<S>, i: Input, trace: seq<nat>, offset: nat, other: seq<nat>,
                                     end: nat)
    requires BranchesExact(engine) && RunsAlong(engine, i, trace, offset) && RunsAlong(engine, i, other, end) &&
             |trace| <= |other|
    ensures trace == other[..|trace|] && offset == (other + [end])[|trace|]
    decreases |other|
  {
    if other == [] {
      assert trace == [];
    } else if |trace| < |other| {
      var front := other[..|other| - 1];
      SameRun(engine, i, trace, offset, front, other[|other| - 1]);
      assert front + [other[|other| - 1]] == other;
    } else {
      var n := |trace| - 1;
      SameRun(engine, i, trace[..n], trace[n], other[..n], other[n]);
      assert other[..n][..n] == other[..n];
      assert trace[n] == other[n] && trace[..n] == other[..n];
      assert trace == trace[..n] + [trace[n]] && other == other[..n] + [other[n]];
      MovesOnce(engine, trace[n], StateAlong(engine, trace[..n], i), offset, end);
    }
  }

  /** A return has no continuation, so an input returns at most one value. */
  lemma ReturnsOnce<S(!new)>(engine: Engine<S>, i: Input, v: Word, w: Word)
    requires BranchesExact(engine) && Returns(engine, i, v) && Returns(engine, i, w)
    ensures v == w
  {
    var t :| ReturnsAlong(engine, i, t) && v == engine.rax(StateAlong(engine, t, i));
    var u :| ReturnsAlong(engine, i, u) && w == engine.rax(StateAlong(engine, u, i));
    if |t| <= |u| {
      ReturnEndsRun(engine, i, t, u);
    } else {
      ReturnEndsRun(engine, i, u, t);
    }
  }

  lemma ReturnEndsRun<S(!new)>(engine: Engine<S>, i: Input, t: seq<nat>, u: seq<nat>)
    requires BranchesExact(engine) && ReturnsAlong(engine, i, t) && ReturnsAlong(engine, i, u) && |t| <= |u|
    ensures t == u
  {
    var n, m := |t| - 1, |u| - 1;
    SameRun(engine, i, t[..n], t[n], u[..m], u[m]);
    assert u == u[..m] + [u[m]] && t == t[..n] + [t[n]];
    assert t[n] == u[n] && t[..n] == u[..n];
    if n < m {
      NoMoveFromReturn(engine, i, u[..m], u[m], n);
    }
  }

  lemma {:induction false} NoMoveFromReturn<S(!new)>(engine: Engine<S>, i: Input, trace: seq<nat>, offset: nat, k: nat)
    requires RunsAlong(engine, i, trace, offset) && k < |trace| && trace[k] < |engine.code|
    ensures !engine.code[trace[k]].Return?
    decreases |trace|
  {
    if k < |trace| - 1 {
      NoMoveFromReturn(engine, i, trace[..|trace| - 1], trace[|trace| - 1], k);
    }
  }

  /** What a successful exploration says of every input. */
  ghost predicate MergeExact<S(!new)>(engine: Engine<S>, paths: seq<Path>, merged: Merged) {
    && (forall i :: Returns(engine, i, Eval(merged, i)))
    && (forall i :: Recorded(paths, i) == 1)
    && (forall k, i :: 0 <= k < |paths| && All(paths[k].conditions, i) ==> Eval(merged, i) == paths[k].rax(i))
    && (forall k :: 0 <= k < |paths| ==> All(paths[k].conditions, paths[k].example))
  }

  lemma MergeIsExact<S(!new)>(engine: Engine<S>, solver: Solver, paths: seq<Path>, merged: Merged)
    requires Exploring(engine, solver, [], paths) && SolverRight(solver) && paths != []
    requires forall i :: Eval(merged, i) == paths[Chosen(paths, 0, i)].rax(i)
    ensures MergeExact(engine, paths, merged)
  {
    assert Unfold(true);
    forall i
      ensures Returns(engine, i, Eval(merged, i)) && Recorded(paths, i) == 1
      ensures forall k :: 0 <= k < |paths| && All(paths[k].conditions, i) ==> Eval(merged, i) == paths[k].rax(i)
    {
      assert Waiting([], i) + Recorded(paths, i) == 1;
      RecordedFinds(paths, i);
      ChosenIsSatisfied(paths, 0, i);
      assert PathSound(engine, paths[Chosen(paths, 0, i)]);
    }
    forall k | 0 <= k < |paths|
      ensures All(paths[k].conditions, paths[k].example)
    {
      assert PathSound(engine, paths[k]);
    }
  }

  /** Explores and merges; every input returns, in exactly one recorded path, what the merged value says. */
  method MergeSymbol<S(!new)>(engine: Engine<S>, solver: Solver) returns (r: Result<(seq<Path>, Merged), PathError>)
    requires BranchesExact(engine)
    ensures r.Success? <==> AllPaths(engine, solver).Some? && AllPaths(engine, solver).value != []
    ensures r.Success? ==> AllPaths(engine, solver) == Some(r.value.0)
    ensures r.Success? && SolverRight(solver) ==> MergeExact(engine, r.value.0, r.value.1)
  {
    var explored := Explore(engine, solver);
    if explored.Failure? {
      return Failure(explored.error);
    }
    var merged := MergePaths(explored.value);
    if SolverRight(solver) {
      MergeIsExact(engine, solver, explored.value, merged);
    }
    r := Success((explored.value, merged));
  }
}
