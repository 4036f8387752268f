/** The bit vector of uthash's Bloom filter. */
module Bloom {
  import opened Bits

  function Mask(i: nat): bv8
    requires i < 8
  {
    (1 as bv8) << i
  }

  predicate Bit(b: bv8, i: nat)
    requires i < 8
  {
    b & Mask(i) != 0
  }

  /** The least number of bytes for 2^nbits bits. */
  function ByteLength(nbits: nat): nat {
    Pow2(nbits) / 8 + (if Pow2(nbits) % 8 != 0 then 1 else 0)
  }

  /** Exactly the bits of s are set. */
  ghost predicate Holds(bv: seq<bv8>, s: set<nat>, nbits: nat) {
    |bv| == ByteLength(nbits) &&
    forall i: nat :: i < Pow2(nbits) ==> (Bit(bv[i / 8], i % 8) <==> i in s)
  }

  lemma BitsAreApart(b: bv8, i: nat, j: nat)
    requires i < 8 && j < 8
    ensures Bit(b | Mask(i), j) <==> i == j || Bit(b, j)
  {
    assert Mask(0) == 1 && Mask(1) == 2 && Mask(2) == 4 && Mask(3) == 8;
    assert Mask(4) == 16 && Mask(5) == 32 && Mask(6) == 64 && Mask(7) == 128;
  }

  lemma InVector(i: nat, nbits: nat)
    requires i < Pow2(nbits)
    ensures i / 8 < ByteLength(nbits)
  {
  }

  lemma HoldsOneMore(v: seq<bv8>, i: nat, s: set<nat>, nbits: nat)
    requires Holds(v, s, nbits) && i < Pow2(nbits)
    ensures i / 8 < |v| && Holds(v[i / 8 := v[i / 8] | Mask(i % 8)], s + {i}, nbits)
  {
    InVector(i, nbits);
    hide Bit, Mask;
    forall j: nat | j < Pow2(nbits)
      ensures Bit(v[i / 8 := v[i / 8] | Mask(i % 8)][j / 8], j % 8) <==> j in s + {i}
    {
      InVector(j, nbits);
      BitsAreApart(v[i / 8], i % 8, j % 8);
    }
  }

  /** HASH_BLOOM_BITSET. */
  method SetBit(bv: array<bv8>, i: nat, ghost s: set<nat>, ghost nbits: nat)
    requires Holds(bv[..], s, nbits) && i < Pow2(nbits)
    modifies bv
    ensures Holds(bv[..], s + {i}, nbits)
  {
    InVector(i, nbits);
    HoldsOneMore(bv[..], i, s, nbits);
    bv[i / 8] := bv[i / 8] | Mask(i % 8);
  }

  /** HASH_BLOOM_BITTEST. */
  method TestBit(bv: array<bv8>, i: nat, ghost s: set<nat>, ghost nbits: nat) returns (set_: bool)
    requires Holds(bv[..], s, nbits) && i < Pow2(nbits)
    ensures set_ <==> i in s
  {
    InVector(i, nbits);
    assert bv[..][i / 8] == bv[i / 8];
    set_ := Bit(bv[i / 8], i % 8);
  }

  /** HASH_BLOOM_MAKE. */
  method MakeVector(nbits: nat) returns (bv: array<bv8>)
    ensures fresh(bv) && Holds(bv[..], {}, nbits)
  {
    bv := new bv8[ByteLength(nbits)](_ => 0);
    forall i: nat | i < Pow2(nbits) ensures !Bit(bv[..][i / 8], i % 8) {
      InVector(i, nbits);
    }
  }
}
