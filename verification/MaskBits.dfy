/** The word of plane bits that the masked tests hand on. */
module MaskBits {

  function PlaneBit(i: nat): bv32
    requires i < 6
  {
    1 << i
  }

  function And(a: bv32, b: bv32): bv32 {
    a & b
  }

  function Or(a: bv32, b: bv32): bv32 {
    a | b
  }

  /** Plane i has its bit set. */
  predicate Bit(mask: bv32, i: nat)
    requires i < 6
  {
    And(mask, PlaneBit(i)) != 0
  }

  function Listed(i: nat): bv32
    requires i < 6
  {
    if i == 0 then 1 else if i == 1 then 2 else if i == 2 then 4 else if i == 3 then 8 else if i == 4 then 16 else 32
  }

  lemma PlaneBits(i: nat)
    requires i < 6
    ensures PlaneBit(i) == Listed(i)
  {
    if i == 0 {
      assert PlaneBit(0) == 1;
    } else if i == 1 {
      assert PlaneBit(1) == 2;
    } else if i == 2 {
      assert PlaneBit(2) == 4;
    } else if i == 3 {
      assert PlaneBit(3) == 8;
    } else if i == 4 {
      assert PlaneBit(4) == 16;
    } else {
      assert PlaneBit(5) == 32;
    }
  }

  lemma BitsDiffer(i: nat, j: nat)
    requires i < 6 && j < 6
    ensures And(PlaneBit(i), PlaneBit(j)) == 0 <==> i != j
  {
    PlaneBits(i);
    PlaneBits(j);
    hide PlaneBit;
  }

  lemma OrHasBit(mask: bv32, a: bv32, i: nat)
    requires i < 6
    ensures And(Or(mask, a), Listed(i)) == 0 <==> And(mask, Listed(i)) == 0 && And(a, Listed(i)) == 0
  {
  }

  lemma SetBit(mask: bv32, i: nat, j: nat)
    requires i < 6 && j < 6
    ensures Bit(Or(mask, PlaneBit(i)), j) <==> Bit(mask, j) || i == j
  {
    BitsDiffer(i, j);
    PlaneBits(j);
    OrHasBit(mask, PlaneBit(i), j);
    hide PlaneBit, Listed, And, Or;
  }

  lemma NoBits(i: nat)
    requires i < 6
    ensures !Bit(0, i)
  {
    hide PlaneBit;
  }
}
