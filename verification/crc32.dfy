/**
 The reflected CRC-32 of IEEE 802.3 (clause 3.2.9): generator polynomial
 0x04C11DB7, processed least-significant bit first, so the register shifts
 right and is reduced by the bit-reversed constant 0xEDB88320.

 `Update` is the incremental entry point the program calls for every chunk:
 it takes the previous CRC, inverts it to recover the register, folds the
 bytes in, and inverts again.  A CRC seeded with 0 is therefore the CRC of
 the bytes alone.
 */
module Crc32 {

  type Byte = bv8

  /** The bit-reversed generator polynomial. */
  const ReflectedPoly: bv32 := 0xEDB8_8320

  /** One shift of the register, reducing by the polynomial when a 1 falls out. */
  function BitStep(c: bv32): bv32 {
    if c & 1 == 1 then (c >> 1) ^ ReflectedPoly else c >> 1
  }

  /** Folds one byte into the register: xor it into the low end, then shift eight times. */
  function ByteStep(c: bv32, b: Byte): bv32 {
    var x := c ^ (b as bv32);
    BitStep(BitStep(BitStep(BitStep(BitStep(BitStep(BitStep(BitStep(x))))))))
  }

  /** Left fold of a step function over a sequence: `step` is applied to each element in order. */
  function Fold<S, T>(c: S, data: seq<T>, step: (S, T) -> S): S
    decreases |data|
  {
    if |data| == 0 then c else Fold(step(c, data[0]), data[1..], step)
  }

  /** The raw register after folding `data` in order, starting from register value `c`. */
  function Register(c: bv32, data: seq<Byte>): bv32 {
    Fold(c, data, ByteStep)
  }

  /** Bitwise complement: the inversion applied on entry to and exit from the register. */
  function Invert(c: bv32): bv32 {
    !c
  }

  /**
   One byte seen from outside the register: a CRC value goes in, the CRC of
   everything so far followed by `b` comes out.
   */
  function CrcStep(crc: bv32, b: Byte): bv32 {
    Invert(ByteStep(Invert(crc), b))
  }

  /** The incremental CRC: continue from the CRC `prev` of what came before. */
  function Update(prev: bv32, data: seq<Byte>): (r: bv32)
    ensures |data| == 0 ==> r == prev
  {
    Fold(prev, data, CrcStep)
  }

  /** CRC-32 of a whole byte sequence: the incremental CRC seeded with 0. */
  function Checksum(data: seq<Byte>): (r: bv32)
    ensures |data| == 0 ==> r == 0
  {
    Update(0, data)
  }

  /** Folding a concatenation is folding its two halves one after the other. */
  lemma {:induction false} FoldAppend<S, T>(c: S, a: seq<T>, b: seq<T>, step: (S, T) -> S)
    ensures Fold(c, a + b, step) == Fold(Fold(c, a, step), b, step)
    decreases |a|
  {
    if |a| == 0 {
      assert a + b == b;
    } else {
      assert (a + b)[0] == a[0];
      assert (a + b)[1..] == a[1..] + b;
      FoldAppend(step(c, a[0]), a[1..], b, step);
    }
  }

  /**
   A fold whose step is `inner` conjugated by an involution `flip` is the
   fold of `inner` itself, flipped once on entry and once on exit.
   */
  lemma {:induction false} FoldConjugate<T>(p: bv32, data: seq<T>, step: (bv32, T) -> bv32,
                                            inner: (bv32, T) -> bv32, flip: bv32 -> bv32)
    requires forall x :: flip(flip(x)) == x
    requires forall c, b :: step(c, b) == flip(inner(flip(c), b))
    ensures Fold(p, data, step) == flip(Fold(flip(p), data, inner))
    decreases |data|
  {
    if |data| > 0 {
      var r := inner(flip(p), data[0]);
      FoldConjugate(flip(r), data[1..], step, inner, flip);
      assert flip(flip(r)) == r;
    }
  }

  /**
   The byte-at-a-time model agrees with the library call: invert the previous
   CRC into the register, fold every byte, invert the register once at the end.
   */
  lemma UpdateIsInvertedRegister(prev: bv32, data: seq<Byte>)
    ensures Update(prev, data) == !Register(!prev, data)
  {
    FoldConjugate(prev, data, CrcStep, ByteStep, Invert);
  }

  /**
   The incremental contract the chunk loop relies on:
   the CRC of `a + b` continued from `s` is the CRC of `b` continued from the CRC of `a`.
   */
  lemma UpdateAppend(s: bv32, a: seq<Byte>, b: seq<Byte>)
    ensures Update(s, a + b) == Update(Update(s, a), b)
  {
    FoldAppend(s, a, b, CrcStep);
  }

  /** The standard check value of CRC-32: the ASCII text "123456789" gives 0xCBF43926. */
  lemma CheckValue()
    ensures Checksum([0x31, 0x32, 0x33, 0x34, 0x35, 0x36, 0x37, 0x38, 0x39]) == 0xCBF4_3926
  {
    var d: seq<Byte> := [0x31, 0x32, 0x33, 0x34, 0x35, 0x36, 0x37, 0x38, 0x39];
    UpdateIsInvertedRegister(0, d);
  }
}
