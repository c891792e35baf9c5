/**
 The decoder seen by recovery: one entry per byte offset of the selected code, saying what decoding
 there yields. Byte-level decoding and classification are abstracted into this table.
 */
module Decode {
  import opened Words
  import opened Semantics

  /** `target` is the near branch target of a direct branch. */
  datatype Decoded =
    | Invalid
    | Unclassified(length: nat)
    | Instruction(op: Op, length: nat, target: nat)

  datatype Code = Code(address: nat, table: seq<Decoded>) {
    function End(): nat { address + |table| }

    predicate Contains(ip: nat) { address <= ip < End() }

    function At(ip: nat): Decoded
      requires Contains(ip)
    {
      table[ip - address]
    }

    /** A decoded instruction takes at least one byte and none beyond the bytes it is given. */
    predicate Valid() {
      && address < TWO64
      && forall i :: 0 <= i < |table| && !table[i].Invalid? ==> 1 <= table[i].length <= |table| - i
    }

    predicate Decodes(ip: nat) { Contains(ip) && At(ip).Instruction? }

    function OpAt(ip: nat): Op
      requires Decodes(ip)
    {
      At(ip).op
    }

    function NextIp(ip: nat): nat
      requires Decodes(ip)
    {
      ip + At(ip).length
    }

    /** The instruction bytes at ip include the address x. */
    predicate Covers(ip: nat, x: nat) {
      Contains(ip) && !At(ip).Invalid? && ip <= x < ip + At(ip).length
    }

    ghost predicate Overlap(ip: nat, other: nat) {
      exists x: nat :: Covers(ip, x) && Covers(other, x)
    }
  }
}
