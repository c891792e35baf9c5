/**
 Numbering of the strongly connected components of the call graph (`component_ids`): a depth-first
 finishing order, then components collected over reversed calls in the reverse of that order.
 Callees are iterated in an arbitrary order.
 */
module Components {
  import opened Wrappers
  import opened Paths

  /** Callees of each function, by index. */
  type Calls = seq<set<nat>>

  predicate ValidCalls(g: Calls) {
    forall i, c | 0 <= i < |g| && c in g[i] :: c < |g|
  }

  function Callees(g: Calls): nat -> set<nat> {
    (i: nat) => if i < |g| then g[i] else {}
  }

  ghost predicate Reaches(g: Calls, a: nat, b: nat) { Reachable(Callees(g), a, b) }

  ghost predicate Mutual(g: Calls, a: nat, b: nat) { Reaches(g, a, b) && Reaches(g, b, a) }

  // ----- the finishing order -----

  predicate Distinct(order: seq<nat>) {
    forall i, j | 0 <= i < j < |order| :: order[i] != order[j]
  }

  /** From every function, its component holds something finished no earlier than v. */
  ghost predicate Dominates(g: Calls, order: seq<nat>, b: nat, v: nat) {
    exists i, j :: 0 <= i <= j < |order| && order[i] == v && Mutual(g, b, order[j])
  }

  /** `seen` has been entered, `order` has been left; what lies between is on the recursion stack. */
  ghost predicate Searched(g: Calls, seen: set<nat>, order: seq<nat>) {
    && Distinct(order)
    && (forall v :: v in order ==> v in seen && v < |g|)
    && (forall b, v :: b in order && v in Callees(g)(b) ==> v in seen)
    && (forall b, v {:trigger Dominates(g, order, b, v)} :: b in order && Reaches(g, b, v) ==>
          ReachesStack(g, seen, order, b) || Dominates(g, order, b, v))
  }

  ghost predicate ReachesStack(g: Calls, seen: set<nat>, order: seq<nat>, b: nat) {
    exists s :: s in seen && s !in order && Reaches(g, b, s)
  }

  /** A path out of the finished functions passes through the stack. */
  lemma {:induction false} StaysFinished(g: Calls, seen: set<nat>, order: seq<nat>, b: nat, p: seq<nat>)
    requires forall x, v :: x in order && v in Callees(g)(x) ==> v in seen
    requires b in order && PathFrom(Callees(g), b, p)
    ensures ReachesStack(g, seen, order, b) || Last(p) in order
    decreases |p|
  {
    if |p| > 1 {
      PathFront(Callees(g), b, p);
      StaysFinished(g, seen, order, b, Front(p));
      assert Reaches(g, b, Last(p));
    }
  }

  lemma FinishedOrStack(g: Calls, seen: set<nat>, order: seq<nat>, b: nat, v: nat)
    requires forall x, c :: x in order && c in Callees(g)(x) ==> c in seen
    requires b in order && Reaches(g, b, v)
    ensures ReachesStack(g, seen, order, b) || v in order
  {
    var p: seq<nat> :| PathFrom(Callees(g), b, p) && Last(p) == v;
    StaysFinished(g, seen, order, b, p);
  }

  lemma EnterKeepsSearched(g: Calls, seen: set<nat>, order: seq<nat>, x: nat)
    requires Searched(g, seen, order) && x !in seen
    ensures Searched(g, seen + {x}, order)
  {
    forall b | b in order && ReachesStack(g, seen, order, b)
      ensures ReachesStack(g, seen + {x}, order, b)
    {
      var s :| s in seen && s !in order && Reaches(g, b, s);
      assert s in seen + {x};
    }
  }

  /** Leaving x: everything that could only reach the stack at x is now dominated by x. */
  lemma LeaveKeepsSearched(g: Calls, entered: set<nat>, left: seq<nat>, seen: set<nat>, order: seq<nat>, x: nat)
    requires Searched(g, entered, left) && x !in entered && x < |g|
    requires Searched(g, seen, order) && x in seen && x !in order && Callees(g)(x) <= seen
    requires left <= order && (forall v :: v in order && v !in left ==> Reaches(g, x, v))
    requires forall s :: s in seen && s !in order <==> s == x || (s in entered && s !in left)
    ensures Searched(g, seen, order + [x])
  {
    var after := order + [x];
    forall b, v | b in after && Reaches(g, b, v)
      ensures ReachesStack(g, seen, after, b) || Dominates(g, after, b, v)
    {
      LeaveDominates(g, entered, left, seen, order, x, b, v);
    }
  }

  lemma LeaveDominates(g: Calls, entered: set<nat>, left: seq<nat>, seen: set<nat>, order: seq<nat>, x: nat, b: nat,
                       v: nat)
    requires Searched(g, entered, left) && x !in entered && x < |g|
    requires Searched(g, seen, order) && x in seen && x !in order && Callees(g)(x) <= seen
    requires left <= order && (forall v :: v in order && v !in left ==> Reaches(g, x, v))
    requires forall s :: s in seen && s !in order <==> s == x || (s in entered && s !in left)
    requires b in order + [x] && Reaches(g, b, v)
    ensures ReachesStack(g, seen, order + [x], b) || Dominates(g, order + [x], b, v)
  {
    var after := order + [x];
    if b in order && Dominates(g, order, b, v) {
      var i, j :| 0 <= i <= j < |order| && order[i] == v && Mutual(g, b, order[j]);
      assert after[i] == v && after[j] == order[j];
    } else if !ReachesStack(g, seen, after, b) {
      FinishedOrStack(g, seen, after, b, v);
      assert Mutual(g, b, x) by {
        ReachSelf(Callees(g), x);
        if b != x {
          ReachesOnlyTop(g, entered, left, seen, order, x, b);
        }
      }
      var i :| 0 <= i < |after| && after[i] == v;
      assert after[|order|] == x;
    }
  }

  lemma ReachesOnlyTop(g: Calls, entered: set<nat>, left: seq<nat>, seen: set<nat>, order: seq<nat>, x: nat, b: nat)
    requires Searched(g, entered, left) && x !in entered
    requires ReachesStack(g, seen, order, b) && !ReachesStack(g, seen, order + [x], b) && b in order
    requires forall v :: v in order && v !in left ==> Reaches(g, x, v)
    requires forall s :: s in seen && s !in order <==> s == x || (s in entered && s !in left)
    ensures Mutual(g, b, x)
  {
    var s :| s in seen && s !in order && Reaches(g, b, s);
    assert s == x;
    if b in left {
      FinishedOrStack(g, entered, left, b, x);
      SameStack(g, entered, left, seen, order, x, b);
    }
  }

  lemma SameStack(g: Calls, entered: set<nat>, left: seq<nat>, seen: set<nat>, order: seq<nat>, x: nat, b: nat)
    requires x !in entered && forall s :: s in seen && s !in order <==> s == x || (s in entered && s !in left)
    ensures ReachesStack(g, entered, left, b) ==> ReachesStack(g, seen, order + [x], b)
  {
    forall t | t in entered && t !in left && Reaches(g, b, t)
      ensures t in seen && t !in order + [x]
    {
    }
  }

  function Marked(seen: seq<bool>): set<nat> {
    set i | 0 <= i < |seen| && seen[i]
  }

  /** What one depth-first visit of x guarantees. */
  ghost predicate Visited(g: Calls, before: set<nat>, order: seq<nat>, after: set<nat>, finished: seq<nat>) {
    && Searched(g, after, finished)
    && before <= after && order <= finished
    && (forall s :: s in after && s !in finished <==> s in before && s !in order)
  }

  ghost predicate NewReached(g: Calls, x: nat, order: seq<nat>, finished: seq<nat>) {
    forall v :: v in finished && v !in order ==> Reaches(g, x, v)
  }

  method Visit(index: nat, g: Calls, seen: array<bool>, order: seq<nat>) returns (finished: seq<nat>)
    requires ValidCalls(g) && seen.Length == |g| && index < |g| && Searched(g, Marked(seen[..]), order)
    modifies seen
    ensures Visited(g, old(Marked(seen[..])), order, Marked(seen[..]), finished)
    ensures index in Marked(seen[..]) && NewReached(g, index, order, finished)
    decreases |g| - |Marked(seen[..])|
  {
    finished := order;
    if seen[index] {
      return;
    }
    ghost var entered := Marked(seen[..]);
    seen[index] := true;
    assert Marked(seen[..]) == entered + {index};
    EnterKeepsSearched(g, entered, order, index);
    ReachSelf(Callees(g), index);
    MarkedBound(seen[..]);
    var todo := g[index];
    while todo != {}
      invariant todo <= g[index] && g[index] - todo <= Marked(seen[..])
      invariant Visited(g, entered + {index}, order, Marked(seen[..]), finished)
      invariant NewReached(g, index, order, finished)
      decreases todo
    {
      var callee :| callee in todo;
      todo := todo - {callee};
      ghost var before, sofar := Marked(seen[..]), finished;
      MarkedGrows(entered, entered + {index}, before, seen[..]);
      finished := Visit(callee, g, seen, finished);
      VisitedTwice(g, entered + {index}, order, before, sofar, Marked(seen[..]), finished);
      ReachedThrough(g, index, callee, order, sofar, finished);
    }
    LeaveKeepsSearched(g, entered, order, Marked(seen[..]), finished, index);
    finished := finished + [index];
  }

  function Below(n: nat): (s: set<nat>)
    ensures |s| == n && forall i: nat :: i in s <==> i < n
  {
    if n == 0 then {} else Below(n - 1) + {n - 1}
  }

  lemma MarkedBound(seen: seq<bool>)
    ensures |Marked(seen)| <= |seen|
  {
    Subset(Marked(seen), Below(|seen|));
  }

  lemma {:induction false} Subset(a: set<nat>, b: set<nat>)
    requires a <= b
    ensures |a| <= |b|
  {
    if a != {} {
      var x :| x in a;
      Subset(a - {x}, b - {x});
    }
  }

  lemma MarkedGrows(entered: set<nat>, grown: set<nat>, now: set<nat>, seen: seq<bool>)
    requires entered < grown <= now && now == Marked(seen)
    ensures |entered| < |now| <= |seen|
  {
    var x :| x in grown && x !in entered;
    Subset(entered + {x}, now);
    MarkedBound(seen);
  }

  lemma VisitedTwice(g: Calls, s0: set<nat>, o0: seq<nat>, s1: set<nat>, o1: seq<nat>, s2: set<nat>, o2: seq<nat>)
    requires Visited(g, s0, o0, s1, o1) && Visited(g, s1, o1, s2, o2)
    ensures Visited(g, s0, o0, s2, o2)
  {
  }

  lemma ReachedThrough(g: Calls, index: nat, callee: nat, order: seq<nat>, sofar: seq<nat>, finished: seq<nat>)
    requires callee in Callees(g)(index) && NewReached(g, index, order, sofar) && NewReached(g, callee, sofar, finished)
    ensures NewReached(g, index, order, finished)
  {
    ReachSelf(Callees(g), index);
    ReachStep(Callees(g), index, index, callee);
    forall v | v in finished && v !in order
      ensures Reaches(g, index, v)
    {
      if v !in sofar {
        ReachTrans(Callees(g), index, callee, v);
      }
    }
  }

  // ----- collecting components -----

  /** Callers of each function. */
  ghost predicate Reversed(g: Calls, reverse: seq<seq<nat>>) {
    |reverse| == |g| && forall c: nat, i: nat :: c < |g| ==> (i in reverse[c] <==> c in Callees(g)(i))
  }

  method AddCaller(g: Calls, index: nat, reverse: seq<seq<nat>>) returns (added: seq<seq<nat>>)
    requires ValidCalls(g) && index < |g| && |reverse| == |g|
    ensures |added| == |g|
    ensures forall c: nat, i: nat :: c < |g| ==> (i in added[c] <==> i in reverse[c] || (i == index && c in g[index]))
  {
    added := reverse;
    var todo := g[index];
    while todo != {}
      invariant todo <= g[index] && |added| == |g|
      invariant forall c: nat, i: nat :: c < |g| ==>
                (i in added[c] <==> i in reverse[c] || (i == index && c in g[index] - todo))
      decreases todo
    {
      var callee :| callee in todo;
      todo := todo - {callee};
      added := added[callee := added[callee] + [index]];
    }
  }

  method Reverse(g: Calls) returns (reverse: seq<seq<nat>>)
    requires ValidCalls(g)
    ensures Reversed(g, reverse)
  {
    reverse := seq(|g|, _ => []);
    for index := 0 to |g|
      invariant |reverse| == |g|
      invariant forall c: nat, i: nat :: c < |g| ==> (i in reverse[c] <==> i < index && c in Callees(g)(i))
    {
      reverse := AddCaller(g, index, reverse);
    }
  }

  type Ids = seq<Option<nat>>

  function Numbered(ids: Ids): set<nat> {
    set i | 0 <= i < |ids| && ids[i].Some?
  }

  /** Collecting callers of x under number id: old numbers stay, new ones are id and reach x. */
  ghost predicate Collected(g: Calls, before: Ids, after: Ids, x: nat, id: nat) {
    && |after| == |before|
    && (forall i: nat :: i < |before| && before[i].Some? ==> after[i] == before[i])
    && (forall i: nat :: i < |before| && before[i].None? && after[i].Some? ==> after[i].value == id && Reaches(g, i, x))
  }

  /** Callers of everything newly numbered are numbered, those of `open` aside. */
  ghost predicate CallersNumbered(g: Calls, before: Ids, after: Ids, open: set<nat>) {
    forall i: nat, caller: nat ::
      i in Numbered(after) && i !in Numbered(before) && i !in open && caller < |g| && i in Callees(g)(caller)
      ==> caller in Numbered(after)
  }

  method Assign(index: nat, g: Calls, reverse: seq<seq<nat>>, ids: array<Option<nat>>, id: nat)
    requires ValidCalls(g) && Reversed(g, reverse) && ids.Length == |g| && index < |g|
    modifies ids
    ensures Collected(g, old(ids[..]), ids[..], index, id) && index in Numbered(ids[..])
    ensures CallersNumbered(g, old(ids[..]), ids[..], {})
    decreases |g| - |Numbered(ids[..])|
  {
    if ids[index].Some? {
      return;
    }
    ghost var start := ids[..];
    ids[index] := Some(id);
    ReachSelf(Callees(g), index);
    var callers := reverse[index];
    NumberedBound(ids[..]);
    for k := 0 to |callers|
      invariant Collected(g, start, ids[..], index, id) && index in Numbered(ids[..])
      invariant forall caller :: caller in callers[..k] ==> caller in Numbered(ids[..])
      invariant CallersNumbered(g, start, ids[..], {index})
    {
      ghost var before := ids[..];
      var caller := callers[k];
      assert caller in callers && index in Callees(g)(caller);
      assert callers[..k + 1] == callers[..k] + [caller];
      NumberedGrows(start, before, index);
      Assign(caller, g, reverse, ids, id);
      CollectedThrough(g, start, before, ids[..], index, caller, id);
    }
    assert callers[..|callers|] == callers;
  }

  lemma NumberedBound(ids: Ids)
    ensures |Numbered(ids)| <= |ids|
  {
    Subset(Numbered(ids), Below(|ids|));
  }

  lemma NumberedGrows(start: Ids, now: Ids, index: nat)
    requires |now| == |start| && (forall i :: 0 <= i < |start| && start[i].Some? ==> now[i] == start[i])
    requires index in Numbered(now) && index !in Numbered(start)
    ensures |Numbered(start)| < |Numbered(now)| <= |now|
  {
    Subset(Numbered(start) + {index}, Numbered(now));
    NumberedBound(now);
  }

  lemma CollectedThrough(g: Calls, start: Ids, before: Ids, after: Ids, index: nat, caller: nat, id: nat)
    requires Collected(g, start, before, index, id) && Collected(g, before, after, caller, id) &&
             index in Callees(g)(caller)
    requires CallersNumbered(g, start, before, {index}) && CallersNumbered(g, before, after, {})
    ensures Collected(g, start, after, index, id) && CallersNumbered(g, start, after, {index})
  {
    forall i: nat | i < |start| && start[i].None? && after[i].Some?
      ensures after[i].value == id && Reaches(g, i, index)
    {
      if before[i].None? {
        ReachStep(Callees(g), i, caller, index);
      }
    }
    assert forall i :: i in Numbered(before) ==> i in Numbered(after);
  }

  /** What component numbering promises about the functions numbered so far. */
  ghost predicate Numbering(g: Calls, ids: Ids, next: nat) {
    && |ids| == |g|
    && (forall i :: i in Numbered(ids) ==> ids[i].value < next)
    && (forall i: nat, j: nat :: i in Numbered(ids) && j in Numbered(ids) ==> (ids[i] == ids[j] <==> Mutual(g, i, j)))
    && (forall i: nat, j: nat :: i in Numbered(ids) && j < |g| && j in Callees(g)(i) && j in Numbered(ids) ==>
      ids[i].value <= ids[j].value)
    && CallerClosed(g, Numbered(ids))
    && (forall n: nat :: n < next ==> Used(ids, n))
  }

  ghost predicate Used(ids: Ids, n: nat) {
    exists i :: 0 <= i < |ids| && ids[i] == Some(n)
  }

  ghost predicate CallerClosed(g: Calls, numbered: set<nat>) {
    forall i: nat, caller: nat :: i in numbered && caller < |g| && i in Callees(g)(caller) ==> caller in numbered
  }

  /** Every function is in the order, which dominates all reachability. */
  ghost predicate Finished(g: Calls, order: seq<nat>) {
    && Distinct(order) && (forall v: nat :: v in order <==> v < |g|)
    && (forall b: nat, v: nat {:trigger Dominates(g, order, b, v)} :: b < |g| && Reaches(g, b, v) ==>
      Dominates(g, order, b, v))
  }

  lemma {:induction false} CallersReach(g: Calls, numbered: set<nat>, a: nat, p: seq<nat>)
    requires CallerClosed(g, numbered) && PathFrom(Callees(g), a, p) && Last(p) in numbered
    ensures a in numbered
    decreases |p|
  {
    if |p| > 1 {
      PathFront(Callees(g), a, p);
      assert Last(Front(p)) < |g|;
      CallersReach(g, numbered, a, Front(p));
    }
  }

  lemma CallerReaches(g: Calls, numbered: set<nat>, a: nat, b: nat)
    requires CallerClosed(g, numbered) && Reaches(g, a, b) && b in numbered
    ensures a in numbered
  {
    var p: seq<nat> :| PathFrom(Callees(g), a, p) && Last(p) == b;
    CallersReach(g, numbered, a, p);
  }

  /** When r is the last unnumbered function of the order, whatever unnumbered reaches r is in its component. */
  lemma OnlyComponent(g: Calls, order: seq<nat>, numbered: set<nat>, k: nat, y: nat)
    requires Finished(g, order) && k < |order| && CallerClosed(g, numbered)
    requires forall j :: k < j < |order| ==> order[j] in numbered
    requires y < |g| && y !in numbered && Reaches(g, y, order[k])
    ensures Mutual(g, y, order[k])
  {
    assert Dominates(g, order, y, order[k]);
    var i, j :| 0 <= i <= j < |order| && order[i] == order[k] && Mutual(g, y, order[j]);
    if j > k {
      CallerReaches(g, numbered, y, order[j]);
    }
    assert i == k;
  }

  lemma NewIsComponent(g: Calls, order: seq<nat>, before: Ids, after: Ids, k: nat, next: nat, i: nat)
    requires Finished(g, order) && k < |order| && CallerClosed(g, Numbered(before))
    requires forall j :: k < j < |order| ==> order[j] in Numbered(before)
    requires Collected(g, before, after, order[k], next) && |before| == |g|
    requires i in Numbered(after) && i !in Numbered(before)
    ensures after[i] == Some(next) && Mutual(g, i, order[k])
  {
    OnlyComponent(g, order, Numbered(before), k, i);
  }

  lemma MutualTrans(g: Calls, a: nat, b: nat, c: nat)
    requires Mutual(g, a, b) && Mutual(g, c, b)
    ensures Mutual(g, a, c)
  {
    ReachTrans(Callees(g), a, b, c);
    ReachTrans(Callees(g), c, b, a);
  }

  /** Collecting the callers of the next unnumbered function numbers exactly its component. */
  lemma NumberComponent(g: Calls, order: seq<nat>, before: Ids, after: Ids, k: nat, next: nat)
    requires Finished(g, order) && k < |order| && Numbering(g, before, next)
    requires forall j :: k < j < |order| ==> order[j] in Numbered(before)
    requires order[k] in Numbered(after) && order[k] !in Numbered(before)
    requires Collected(g, before, after, order[k], next) && CallersNumbered(g, before, after, {})
    ensures Numbering(g, after, next + 1)
  {
    var r := order[k];
    forall i: nat | i in Numbered(after)
      ensures if i in Numbered(before) then after[i] == before[i] else after[i] == Some(next) && Mutual(g, i, r)
    {
      if i !in Numbered(before) {
        NewIsComponent(g, order, before, after, k, next, i);
      }
    }
    forall i: nat, j: nat | i in Numbered(after) && j in Numbered(after)
      ensures after[i] == after[j] <==> Mutual(g, i, j)
    {
      OneComponent(g, before, after, r, next, i, j);
    }
    forall n: nat | n < next + 1
      ensures Used(after, n)
    {
      if n < next {
        assert Used(before, n);
        var i :| 0 <= i < |before| && before[i] == Some(n);
        assert after[i] == Some(n);
      } else {
        assert after[r] == Some(n);
      }
    }
  }

  lemma OneComponent(g: Calls, before: Ids, after: Ids, r: nat, next: nat, i: nat, j: nat)
    requires Numbering(g, before, next) && |after| == |before| && i in Numbered(after) && j in Numbered(after)
    requires forall x: nat :: x in Numbered(after) ==>
               if x in Numbered(before) then after[x] == before[x] else after[x] == Some(next) && Mutual(g, x, r)
    ensures after[i] == after[j] <==> Mutual(g, i, j)
  {
    if i !in Numbered(before) && j !in Numbered(before) {
      MutualTrans(g, i, r, j);
    } else if Mutual(g, i, j) {
      if i in Numbered(before) {
        CallerReaches(g, Numbered(before), j, i);
      } else {
        CallerReaches(g, Numbered(before), i, j);
      }
    }
  }

  method FinishingOrder(g: Calls) returns (order: seq<nat>)
    requires ValidCalls(g)
    ensures Finished(g, order)
  {
    order := [];
    var seen := new bool[|g|](_ => false);
    for index := 0 to |g|
      invariant Searched(g, Marked(seen[..]), order)
      invariant forall v :: v in Marked(seen[..]) <==> v in order
      invariant forall v: nat :: v < index ==> v in Marked(seen[..])
    {
      ghost var entered, left := Marked(seen[..]), order;
      order := Visit(index, g, seen, order);
      EmptyStack(entered, left, Marked(seen[..]), order);
    }
    forall b: nat, v: nat | b < |g| && Reaches(g, b, v)
      ensures Dominates(g, order, b, v)
    {
      assert b in Marked(seen[..]);
    }
  }

  lemma EmptyStack(entered: set<nat>, left: seq<nat>, seen: set<nat>, order: seq<nat>)
    requires forall v :: v in entered <==> v in left
    requires forall v :: v in order ==> v in seen
    requires forall s :: s in seen && s !in order <==> s in entered && s !in left
    ensures forall v :: v in seen <==> v in order
  {
  }

  /** Two functions share a number exactly when each reaches the other; calls never go to a smaller number. */
  ghost predicate ComponentsExact(g: Calls, ids: Ids) {
    && |ids| == |g| && (forall i: nat :: i < |g| ==> ids[i].Some?)
    && (forall i: nat, j: nat :: i < |g| && j < |g| ==> (ids[i] == ids[j] <==> Mutual(g, i, j)))
    && (forall i: nat, j: nat :: i < |g| && j < |g| && j in Callees(g)(i) && !Mutual(g, i, j) ==>
      ids[i].value < ids[j].value)
    && (forall i: nat, n: nat :: i < |g| && n < ids[i].value ==> Used(ids, n))
  }

  method ComponentIds(g: Calls) returns (r: Ids)
    requires ValidCalls(g)
    ensures ComponentsExact(g, r)
  {
    var order := FinishingOrder(g);
    var reverse := Reverse(g);
    var ids := new Option<nat>[|g|](_ => None);
    var next := 0;
    var k := |order|;
    while k > 0
      invariant 0 <= k <= |order| && Numbering(g, ids[..], next)
      invariant forall j :: k <= j < |order| ==> order[j] in Numbered(ids[..])
    {
      k := k - 1;
      var index := order[k];
      assert index in order;
      if ids[index].None? {
        ghost var before := ids[..];
        Assign(index, g, reverse, ids, next);
        NumberComponent(g, order, before, ids[..], k, next);
        next := next + 1;
      }
    }
    r := ids[..];
    AllNumbered(g, order, r, next);
  }

  lemma AllNumbered(g: Calls, order: seq<nat>, ids: Ids, next: nat)
    requires Finished(g, order) && Numbering(g, ids, next) && forall j :: 0 <= j < |order| ==> order[j] in Numbered(ids)
    ensures ComponentsExact(g, ids)
  {
    forall v: nat | v < |g|
      ensures v in Numbered(ids)
    {
      assert v in order;
    }
  }
}
