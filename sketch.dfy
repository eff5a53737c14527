/** The HyperLogLog sketch object of HLL.py: precision p, remaining hash bits
    q = 64 - p, register count m = 2^p, and the register list that the
    estimators read through getRegisters() (which HLL.py itself never defines). */
module Sketch {
  import opened Arith

  class HLL {
    var p: nat
    var q: nat
    var m: nat
    var registers: seq<nat>

    /** The shape fixed at construction, and every register is a rank in [0, q+1]. */
    ghost predicate Valid()
      reads this
    {
      && q == 64 - p
      && m == Pow2(p)
      && |registers| == m
      && forall i :: 0 <= i < |registers| ==> registers[i] <= q + 1
    }

    /** HLL(p): an empty sketch, every register at rank 0. */
    constructor (p: nat)
      requires p <= 64
      ensures Valid()
      ensures this.p == p && q + p == 64 && m == Pow2(p) && m >= 1
      ensures registers == seq(Pow2(p), _ => 0)
    {
      this.p := p;
      this.q := 64 - p;
      this.m := Pow2(p);
      this.registers := seq(Pow2(p), _ => 0);
    }

    /** HLL(p, registers), the form union() builds its result with. */
    constructor WithRegisters(p: nat, registers: seq<nat>)
      requires p <= 64 && |registers| == Pow2(p)
      requires forall i :: 0 <= i < |registers| ==> registers[i] <= 65 - p
      ensures Valid()
      ensures this.p == p && q + p == 64 && m == Pow2(p)
      ensures this.registers == registers
    {
      this.p := p;
      this.q := 64 - p;
      this.m := Pow2(p);
      this.registers := registers;
    }

    /** insert(read) returns at once: the sketch is left exactly as it was. */
    method Insert(read: string)
      requires Valid()
      ensures Valid()
      ensures p == old(p) && q == old(q) && m == old(m) && registers == old(registers)
    {
    }
  }
}
