/** 32-bit integers in two's complement. */
module MachineIntegers {
  import opened NumberTheory

  predicate IsInt32(v: int) {
    -0x8000_0000 <= v < 0x8000_0000
  }

  /** What is left of v in 32 bits: the one 32-bit integer that differs from v by a multiple of 2^32. */
  function Wrap32(v: int): (r: int)
    ensures IsInt32(r) && (v - r) % 0x1_0000_0000 == 0
  {
    var m := v % 0x1_0000_0000;
    if m >= 0x8000_0000 then m - 0x1_0000_0000 else m
  }

  lemma WrapInRange(v: int)
    requires IsInt32(v)
    ensures Wrap32(v) == v
  {
    if v >= 0 {
      DivModUnique(v, 0x1_0000_0000, 0, v);
    } else {
      DivModUnique(v, 0x1_0000_0000, -1, v + 0x1_0000_0000);
    }
  }
}
