/** How printSelBuf reinterprets the selection buffer: as native longs and
    Atoms, which on the LP64 little-endian platform the model assumes are
    eight bytes, least significant first, longs in two's complement. */
module Native {
  import opened Wire

  function Pow256(n: nat): (p: nat)
    ensures p > 0
  {
    if n == 0 then 1 else 256 * Pow256(n - 1)
  }

  const LongModulus: nat := 0x1_0000_0000_0000_0000
  const MinLong: int := -0x8000_0000_0000_0000
  const MaxLong: int := 0x7FFF_FFFF_FFFF_FFFF

  lemma LongModulusIsPow()
    ensures Pow256(LongSize) == LongModulus
  {
    assert Pow256(0) == 1;
    assert Pow256(1) == 0x100;
    assert Pow256(2) == 0x1_0000;
    assert Pow256(3) == 0x100_0000;
    assert Pow256(4) == 0x1_0000_0000;
    assert Pow256(5) == 0x100_0000_0000;
    assert Pow256(6) == 0x1_0000_0000_0000;
    assert Pow256(7) == 0x100_0000_0000_0000;
  }

  /** The unsigned value of a little-endian byte string. */
  function Unsigned(b: seq<byte>): (v: nat)
    ensures v < Pow256(|b|)
  {
    if b == [] then 0 else b[0] as nat + 256 * Unsigned(b[1..])
  }

  /** The little-endian byte string of width `w` holding `v`. */
  function EncodeUnsigned(v: nat, w: nat): (b: seq<byte>)
    requires v < Pow256(w)
    ensures |b| == w
  {
    if w == 0 then [] else [(v % 256) as byte] + EncodeUnsigned(v / 256, w - 1)
  }

  lemma {:induction false} UnsignedOfEncode(v: nat, w: nat)
    requires v < Pow256(w)
    ensures Unsigned(EncodeUnsigned(v, w)) == v
  {
    if w > 0 {
      var b := EncodeUnsigned(v, w);
      assert b[1..] == EncodeUnsigned(v / 256, w - 1);
      UnsignedOfEncode(v / 256, w - 1);
    }
  }

  lemma {:induction false} EncodeOfUnsigned(b: seq<byte>)
    ensures EncodeUnsigned(Unsigned(b), |b|) == b
  {
    if b != [] {
      var v := Unsigned(b);
      assert v % 256 == b[0] as nat;
      assert v / 256 == Unsigned(b[1..]);
      EncodeOfUnsigned(b[1..]);
    }
  }

  /** `*long_buf` for eight buffer bytes: a signed 64-bit value. */
  function DecodeLong(b: seq<byte>): (v: int)
    requires |b| == LongSize
    ensures MinLong <= v <= MaxLong
  {
    LongModulusIsPow();
    var u := Unsigned(b);
    if u <= MaxLong then u else u - LongModulus
  }

  /** The eight bytes a native long occupies in memory. */
  function EncodeLong(v: int): (b: seq<byte>)
    requires MinLong <= v <= MaxLong
    ensures |b| == LongSize
  {
    LongModulusIsPow();
    EncodeUnsigned(if v < 0 then v + LongModulus else v, LongSize)
  }

  lemma LongRoundTrip(v: int)
    requires MinLong <= v <= MaxLong
    ensures DecodeLong(EncodeLong(v)) == v
  {
    LongModulusIsPow();
    UnsignedOfEncode(if v < 0 then v + LongModulus else v, LongSize);
  }

  lemma BytesRoundTrip(b: seq<byte>)
    requires |b| == LongSize
    ensures EncodeLong(DecodeLong(b)) == b
  {
    LongModulusIsPow();
    EncodeOfUnsigned(b);
  }

  /** `*atom_buf` for eight buffer bytes: an unsigned long. */
  function DecodeAtom(b: seq<byte>): (a: Atom)
    requires |b| == AtomSize
    ensures a < LongModulus
  {
    LongModulusIsPow();
    Unsigned(b)
  }
}
