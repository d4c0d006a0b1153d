/** The 256-bit set of common/Bitmask.hpp. */
module Bitmask {

  function MaskOf(bit: bv8): bv64 {
    (1 as bv64) << (bit & 63)
  }

  function WithBit(word: bv64, bit: bv8, value: bool): bv64 {
    (word & !MaskOf(bit)) | (if value then MaskOf(bit) else 0)
  }

  predicate HasBit(words: seq<bv64>, bit: bv8)
    requires |words| == 4
  {
    words[Bucket(bit)] & MaskOf(bit) != 0
  }

  function Updated(words: seq<bv64>, bit: bv8, value: bool): seq<bv64>
    requires |words| == 4
  {
    words[Bucket(bit) := WithBit(words[Bucket(bit)], bit, value)]
  }

  lemma OneBitChanges(words: seq<bv64>, bit: bv8, value: bool, other: bv8)
    requires |words| == 4
    ensures HasBit(Updated(words, bit, value), other) == if other == bit then value else HasBit(words, other)
  {
  }

  function Bucket(bit: bv8): (bucket: nat)
    ensures bucket < 4
  {
    (bit >> 6) as int
  }

  ghost const ALL: set<bv8> := set i: nat | i < 256 :: i as bv8

  lemma InAll(bit: bv8)
    ensures bit in ALL
  {
    assert (bit as int) as bv8 == bit;
  }

  ghost function BitsOf(words: seq<bv64>): set<bv8>
    requires |words| == 4
  {
    set b | b in ALL && HasBit(words, b)
  }

  lemma BitsAfter(words: seq<bv64>, after: seq<bv64>, bit: bv8, value: bool)
    requires |words| == 4 && |after| == 4
    requires forall b :: HasBit(after, b) == if b == bit then value else HasBit(words, b)
    ensures BitsOf(after) == if value then BitsOf(words) + {bit} else BitsOf(words) - {bit}
  {
    InAll(bit);
  }

  lemma UpdatedBits(words: seq<bv64>, bit: bv8, value: bool)
    requires |words| == 4
    ensures BitsOf(Updated(words, bit, value)) == if value then BitsOf(words) + {bit} else BitsOf(words) - {bit}
  {
    forall b ensures HasBit(Updated(words, bit, value), b) == if b == bit then value else HasBit(words, b) {
      OneBitChanges(words, bit, value, b);
    }
    BitsAfter(words, Updated(words, bit, value), bit, value);
  }

  class Bitmask256 {
    const mask: array<bv64>

    ghost predicate Valid() {
      mask.Length == 4
    }

    constructor ()
      ensures Valid() && fresh(mask) && Bits() == {}
    {
      mask := new bv64[4](_ => 0);
    }

    ghost function Bits(): (bits: set<bv8>)
      requires Valid()
      reads mask
    {
      BitsOf(mask[..])
    }

    method Get(bit: bv8) returns (value: bool)
      requires Valid()
      ensures value <==> bit in Bits()
    {
      InAll(bit);
      value := mask[Bucket(bit)] & MaskOf(bit) != 0;
    }

    method Set(bit: bv8, value: bool)
      requires Valid()
      modifies mask
      ensures Bits() == if value then old(Bits()) + {bit} else old(Bits()) - {bit}
    {
      ghost var words := mask[..];
      UpdatedBits(words, bit, value);
      mask[Bucket(bit)] := WithBit(mask[Bucket(bit)], bit, value);
      assert mask[..] == Updated(words, bit, value);
    }

    method Clear()
      requires Valid()
      modifies mask
      ensures Bits() == {}
    {
      mask[0], mask[1], mask[2], mask[3] := 0, 0, 0, 0;
    }
  }
}
