/**
 Pointer tables (crates/hydir-analysis, `recover_pointer_table_targets`): the targets of the longest
 prefix of consecutive slots that all point to executable code of one function.
 */
module PointerTable {
  import opened Wrappers
  import opened Words

  const MAX_INDIRECT_TABLE_TARGETS: nat := 256

  /** A location is a value in an address space. */
  datatype Location = Location(space: nat, value: nat)

  /** Reading eight bytes at a location, and whether a location is executable: facts of the loaded program. */
  datatype Image = Image(read: Location -> Option<nat>, executable: Location -> bool)

  /** The function scope: where it starts and how many bytes it has. */
  datatype Scope = Scope(start: Location, size: nat)

  /** Slot k of the table holds the address of executable code inside the scope. */
  predicate Points(image: Image, table: Location, scope: Scope, k: nat) {
    table.value + 8 * k < TWO64 &&
    var slot := Location(table.space, table.value + 8 * k);
    image.read(slot).Some? && var target := image.read(slot).value;
    scope.start.value <= target < scope.start.value + scope.size &&
      image.executable(Location(scope.start.space, target))
  }

  /** Slot k holds the address of byte `offset` of the scope, the first byte included and the one past the last not. */
  predicate SlotHolds(image: Image, table: Location, scope: Scope, k: nat, offset: nat) {
    && table.value + 8 * k < TWO64 && offset < scope.size
    && image.read(Location(table.space, table.value + 8 * k)) == Some(scope.start.value + offset)
    && image.executable(Location(scope.start.space, scope.start.value + offset))
  }

  lemma PointsExactly(image: Image, table: Location, scope: Scope, k: nat)
    ensures Points(image, table, scope, k) <==> exists offset: nat :: SlotHolds(image, table, scope, k, offset)
    ensures forall offset: nat :: SlotHolds(image, table, scope, k, offset) ==>
              TargetAt(image, table, scope, k) == Location(scope.start.space, scope.start.value + offset)
  {
    if Points(image, table, scope, k) {
      var target := image.read(Location(table.space, table.value + 8 * k)).value;
      assert SlotHolds(image, table, scope, k, target - scope.start.value);
    }
  }

  function TargetAt(image: Image, table: Location, scope: Scope, k: nat): Location
    requires Points(image, table, scope, k)
  {
    Location(scope.start.space, image.read(Location(table.space, table.value + 8 * k)).value)
  }

  /** The targets of the first n slots in order of first appearance. */
  ghost predicate Lists(image: Image, table: Location, scope: Scope, n: nat, targets: seq<Location>) {
    && (forall k :: 0 <= k < n ==> Points(image, table, scope, k) && TargetAt(image, table, scope, k) in targets)
    && (forall i, j :: 0 <= i < j < |targets| ==> targets[i] != targets[j])
    && (forall i :: 0 <= i < |targets| ==> FirstSlot(image, table, scope, n, targets[..i], targets[i]))
  }

  /** Some slot below n holds this target, and every earlier slot holds one listed before it. */
  ghost predicate FirstSlot(image: Image, table: Location, scope: Scope, n: nat, before: seq<Location>,
                            target: Location) {
    exists k: nat :: k < n && Points(image, table, scope, k) && TargetAt(image, table, scope, k) == target &&
      forall j: nat :: j < k ==> Points(image, table, scope, j) && TargetAt(image, table, scope, j) in before
  }

  ghost predicate LongestPrefix(image: Image, table: Location, scope: Scope, most: nat, n: nat, targets: seq<Location>)
  {
    n <= most && Lists(image, table, scope, n, targets) && (n == most || !Points(image, table, scope, n))
  }

  predicate Readable(table: Location, scope: Scope, most: nat) {
    0 < most <= MAX_INDIRECT_TABLE_TARGETS && table.space == scope.start.space && scope.start.value + scope.size < TWO64
  }

  /** Recovery stops at the first slot that does not point into the scope and takes nothing after it. */
  method RecoverTargets(image: Image, table: Location, scope: Scope, most: nat) returns (targets: seq<Location>)
    ensures !Readable(table, scope, most) ==> targets == []
    ensures Readable(table, scope, most) ==> exists n :: LongestPrefix(image, table, scope, most, n, targets)
  {
    targets := [];
    if most == 0 || most > MAX_INDIRECT_TABLE_TARGETS || table.space != scope.start.space ||
      scope.start.value + scope.size >= TWO64 {
      return;
    }
    var k: nat := 0;
    while k < most && Points(image, table, scope, k)
      invariant k <= most && Lists(image, table, scope, k, targets)
    {
      targets := AddTarget(image, table, scope, k, targets);
      k := k + 1;
    }
    assert LongestPrefix(image, table, scope, most, k, targets);
  }

  method AddTarget(image: Image, table: Location, scope: Scope, k: nat, targets: seq<Location>)
    returns (after: seq<Location>)
    requires Lists(image, table, scope, k, targets) && Points(image, table, scope, k)
    ensures Lists(image, table, scope, k + 1, after)
  {
    var target := TargetAt(image, table, scope, k);
    after := targets;
    if target !in targets {
      after := targets + [target];
    }
    Extend(image, table, scope, k, targets, after);
  }

  lemma Extend(image: Image, table: Location, scope: Scope, k: nat, before: seq<Location>, after: seq<Location>)
    requires Lists(image, table, scope, k, before) && Points(image, table, scope, k)
    requires var target := TargetAt(image, table, scope, k); after == if target in before then before
             else before + [target]
    ensures Lists(image, table, scope, k + 1, after)
  {
    forall i | 0 <= i < |after|
      ensures FirstSlot(image, table, scope, k + 1, after[..i], after[i])
    {
      if i < |before| {
        assert after[..i] == before[..i];
        assert FirstSlot(image, table, scope, k, before[..i], before[i]);
      } else {
        assert after[..i] == before;
      }
    }
  }
}
