/** The byte-ownership array shared by recovery and the stack proof. */
module Ownership {
  import opened Wrappers
  import opened Decode

  /** Each byte is owned by the node covering it, and by nothing else. */
  ghost predicate OwnersExact(code: Code, keys: set<nat>, owners: seq<Option<nat>>) {
    && |owners| == |code.table|
    && (forall k :: 0 <= k < |owners| && owners[k].Some?
          ==> owners[k].value in keys && code.Covers(owners[k].value, code.address + k))
    && (forall ip, k :: ip in keys && 0 <= k < |owners| && code.Covers(ip, code.address + k)
          ==> owners[k] == Some(ip))
  }

  /** The bytes of ip are inside the code and free. */
  ghost predicate BytesFree(code: Code, owners: seq<Option<nat>>, ip: nat) {
    forall k :: 0 <= k < |owners| && code.Covers(ip, code.address + k) ==> owners[k] == None
  }

  ghost predicate Claimed(code: Code, before: seq<Option<nat>>, after: seq<Option<nat>>, ip: nat) {
    |after| == |before| && forall k :: 0 <= k < |before| ==>
      after[k] == if code.Covers(ip, code.address + k) then Some(ip) else before[k]
  }

  /** Claims the bytes of one instruction, or names the owner of the first byte already taken. */
  method Claim(code: Code, ip: nat, owners: array<Option<nat>>) returns (conflict: Option<nat>)
    requires code.Valid() && code.Contains(ip) && !code.At(ip).Invalid? && owners.Length == |code.table|
    modifies owners
    ensures conflict.None? <==> BytesFree(code, old(owners[..]), ip)
    ensures conflict.None? ==> Claimed(code, old(owners[..]), owners[..], ip)
    ensures conflict.Some? ==>
            exists k :: 0 <= k < owners.Length && code.Covers(ip, code.address + k) && old(owners[k]) == conflict
  {
    var k, end := ip - code.address, ip - code.address + code.At(ip).length;
    ghost var start := k;
    while k < end
      invariant start <= k <= end <= owners.Length
      invariant forall j :: 0 <= j < owners.Length ==>
                  owners[j] == if start <= j < k then Some(ip) else old(owners[j])
      invariant forall j :: start <= j < k ==> old(owners[j]) == None
    {
      if owners[k].Some? {
        assert code.Covers(ip, code.address + k);
        return owners[k];
      }
      owners[k] := Some(ip);
      k := k + 1;
    }
    return None;
  }

  lemma OwnerOf(code: Code, keys: set<nat>, owners: seq<Option<nat>>, ip: nat, x: nat)
    requires code.Valid() && OwnersExact(code, keys, owners)
    requires ip in keys && code.Covers(ip, x)
    ensures 0 <= x - code.address < |owners| && owners[x - code.address] == Some(ip)
  {
    assert code.Covers(ip, code.address + (x - code.address));
  }

  lemma NewOwners(code: Code, keys: set<nat>, before: seq<Option<nat>>, after: seq<Option<nat>>, ip: nat)
    requires code.Valid() && code.Decodes(ip) && ip !in keys
    requires OwnersExact(code, keys, before)
    requires BytesFree(code, before, ip) && Claimed(code, before, after, ip)
    ensures OwnersExact(code, keys + {ip}, after)
  {
  }

  /** One more instruction with free bytes keeps ownership exact and uses up bytes. */
  lemma NewBytes(code: Code, keys: set<nat>, before: seq<Option<nat>>, after: seq<Option<nat>>, ip: nat)
    requires code.Valid() && ip !in keys && code.Decodes(ip)
    requires (forall x :: x in keys ==> code.Contains(x)) && OwnersExact(code, keys, before)
    requires BytesFree(code, before, ip) && Claimed(code, before, after, ip)
    ensures OwnersExact(code, keys + {ip}, after)
    ensures |keys| < |keys + {ip}| <= |code.table|
  {
    NewOwners(code, keys, before, after, ip);
    AddressesBounded(code, keys + {ip});
  }

  /** Instructions whose bytes have exact owners do not overlap. */
  lemma OwnersDisjoint(code: Code, keys: set<nat>, owners: seq<Option<nat>>, ip: nat, other: nat)
    requires code.Valid() && OwnersExact(code, keys, owners)
    requires ip in keys && other in keys && code.Overlap(ip, other)
    ensures ip == other
  {
    var x: nat :| code.Covers(ip, x) && code.Covers(other, x);
    OwnerOf(code, keys, owners, ip, x);
    OwnerOf(code, keys, owners, other, x);
  }

  lemma AddressesBounded(code: Code, keys: set<nat>)
    requires forall ip :: ip in keys ==> code.Contains(ip)
    ensures |keys| <= |code.table|
  {
    RangeSize(code.address, code.End(), keys);
  }

  lemma {:induction false} RangeSize(lo: nat, hi: nat, keys: set<nat>)
    requires lo <= hi && forall x :: x in keys ==> lo <= x < hi
    ensures |keys| <= hi - lo
    decreases hi - lo
  {
    if lo < hi {
      var smaller := keys - {hi - 1};
      RangeSize(lo, hi - 1, smaller);
      assert keys <= smaller + {hi - 1};
    }
  }
}
