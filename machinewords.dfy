/** The words of `BitWords` against the machine's own 32-bit unsigned
    integers: the mask `1u << y` and the operators `&`, `|` and `~` act on
    the bits of a word as `Mask`, `WordAnd`, `WordOr` and `WordNot` do. */
module MachineWords {
  import opened BitWords

  /** Bit `z` of a machine word, counting from the least significant. */
  predicate Bit(x: bv32, z: bv5) {
    (x >> z) & 1 == 1
  }

  /** The 32 bits of a machine word, least significant first. */
  function ToWord(x: bv32): (w: Word)
    ensures forall z :: 0 <= z < 32 ==> (w[z] <==> Bit(x, z as bv5))
  {
    seq(32, z requires 0 <= z < 32 => Bit(x, z as bv5))
  }

  lemma BitOfShift(y: bv5, z: bv5)
    ensures Bit(1 << y, z) == (z == y)
  {
  }

  lemma BitOfAnd(a: bv32, b: bv32, z: bv5)
    ensures Bit(a & b, z) == (Bit(a, z) && Bit(b, z))
  {
  }

  lemma BitOfOr(a: bv32, b: bv32, z: bv5)
    ensures Bit(a | b, z) == (Bit(a, z) || Bit(b, z))
  {
  }

  lemma BitOfNot(a: bv32, z: bv5)
    ensures Bit(!a, z) == !Bit(a, z)
  {
  }

  /** `Mask(y)` is the machine word `1u << y`. */
  lemma MaskIsShift(y: nat)
    requires y < 32
    ensures ToWord(1 << (y as bv5)) == Mask(y)
  {
    forall z | 0 <= z < 32
      ensures ToWord(1 << (y as bv5))[z] == Mask(y)[z]
    {
      BitOfShift(y as bv5, z as bv5);
      BitIndex(y, z);
    }
  }

  /** Bit positions below 32 are told apart by their 5-bit encodings. */
  lemma BitIndex(y: nat, z: nat)
    requires y < 32 && z < 32
    ensures (z as bv5 == y as bv5) == (z == y)
  {
    assert (z as bv5) as int == z && (y as bv5) as int == y;
  }

  /** `WordAnd` is the machine `&`. */
  lemma AndIsBitwise(a: bv32, b: bv32)
    ensures ToWord(a & b) == WordAnd(ToWord(a), ToWord(b))
  {
    forall z | 0 <= z < 32
      ensures ToWord(a & b)[z] == WordAnd(ToWord(a), ToWord(b))[z]
    {
      BitOfAnd(a, b, z as bv5);
    }
  }

  /** `WordOr` is the machine `|`. */
  lemma OrIsBitwise(a: bv32, b: bv32)
    ensures ToWord(a | b) == WordOr(ToWord(a), ToWord(b))
  {
    forall z | 0 <= z < 32
      ensures ToWord(a | b)[z] == WordOr(ToWord(a), ToWord(b))[z]
    {
      BitOfOr(a, b, z as bv5);
    }
  }

  /** `WordNot` is the machine `~`. */
  lemma NotIsBitwise(a: bv32)
    ensures ToWord(!a) == WordNot(ToWord(a))
  {
    forall z | 0 <= z < 32
      ensures ToWord(!a)[z] == WordNot(ToWord(a))[z]
    {
      BitOfNot(a, z as bv5);
    }
  }
}
