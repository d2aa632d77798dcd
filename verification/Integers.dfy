/** Fixed-width integers and their little-endian byte images. */
module Integers {
  type Byte = x: int | 0 <= x < 0x100
  type U16 = x: int | 0 <= x < 0x1_0000
  type U32 = x: int | 0 <= x < 0x1_0000_0000
  type I16 = x: int | -0x8000 <= x < 0x8000

  const TWO_TO_THE_32 := 0x1_0000_0000

  /** The number of values that fit in w bytes. */
  function Capacity(w: nat): (c: int)
    ensures c > 0
  {
    if w == 0 then 1 else 0x100 * Capacity(w - 1)
  }

  lemma Capacities()
    ensures Capacity(1) == 0x100
    ensures Capacity(2) == 0x1_0000
    ensures Capacity(4) == 0x1_0000_0000
    ensures Capacity(8) == 0x1_0000_0000_0000_0000
  {
    assert Capacity(3) == 0x100 * Capacity(2);
    assert Capacity(4) == 0x100 * Capacity(3);
    assert Capacity(5) == 0x100 * Capacity(4);
    assert Capacity(6) == 0x100 * Capacity(5);
    assert Capacity(7) == 0x100 * Capacity(6);
  }

  /** The low w bytes of v, least significant byte first. */
  function LittleEndian(v: nat, w: nat): (bs: seq<Byte>)
    ensures |bs| == w
  {
    if w == 0 then [] else [v % 0x100] + LittleEndian(v / 0x100, w - 1)
  }

  /** The unsigned number whose little-endian image is bs. */
  function Unsigned(bs: seq<Byte>): nat {
    if bs == [] then 0 else bs[0] + 0x100 * Unsigned(bs[1..])
  }

  lemma {:induction false} UnsignedOfLittleEndian(v: nat, w: nat)
    requires v < Capacity(w)
    ensures Unsigned(LittleEndian(v, w)) == v
  {
    if w > 0 {
      UnsignedOfLittleEndian(v / 0x100, w - 1);
      assert LittleEndian(v, w)[1..] == LittleEndian(v / 0x100, w - 1);
    }
  }

  /** A number that does not fit is cut to its low bytes. */
  lemma {:induction false} LittleEndianCut(v: nat, k: nat, w: nat)
    ensures LittleEndian(v + k * Capacity(w), w) == LittleEndian(v, w)
  {
    if w > 0 {
      assert k * Capacity(w) == 0x100 * (k * Capacity(w - 1));
      assert (v + k * Capacity(w)) / 0x100 == v / 0x100 + k * Capacity(w - 1);
      LittleEndianCut(v / 0x100, k, w - 1);
    }
  }

  lemma {:induction false} LittleEndianOfUnsigned(bs: seq<Byte>)
    ensures Unsigned(bs) < Capacity(|bs|)
    ensures LittleEndian(Unsigned(bs), |bs|) == bs
  {
    if bs != [] {
      LittleEndianOfUnsigned(bs[1..]);
      assert Unsigned(bs) / 0x100 == Unsigned(bs[1..]);
      assert Unsigned(bs) % 0x100 == bs[0];
    }
  }

  /** Two's complement: the unsigned number with the same w-byte image as v. */
  function ToBits(v: int, w: nat): nat
    requires -Capacity(w) <= v
  {
    if v < 0 then v + Capacity(w) else v
  }

  /** Two's complement: the signed number that shares its w-byte image with u. */
  function FromBits(u: nat, w: nat): int {
    if 2 * u < Capacity(w) then u else u - Capacity(w)
  }

  /** Units of w bytes each, one little-endian image after the other. */
  function EncodeUnits(us: seq<nat>, w: nat): seq<Byte> {
    if us == [] then [] else LittleEndian(us[0], w) + EncodeUnits(us[1..], w)
  }

  lemma {:induction false} EncodeUnitsLength(us: seq<nat>, w: nat)
    ensures |EncodeUnits(us, w)| == |us| * w
  {
    if us != [] {
      EncodeUnitsLength(us[1..], w);
      assert |us| * w == w + (|us| - 1) * w;
    }
  }

  /** The first units are encoded first. */
  lemma {:induction false} EncodeUnitsSplit(us: seq<nat>, n: nat, w: nat)
    requires n <= |us|
    ensures EncodeUnits(us, w) == EncodeUnits(us[..n], w) + EncodeUnits(us[n..], w)
  {
    if n > 0 {
      EncodeUnitsSplit(us[1..], n - 1, w);
      assert us[..n][1..] == us[1..][..n - 1];
      assert us[n..] == us[1..][n - 1..];
    } else {
      assert us[n..] == us;
    }
  }

  /** The units of the longest prefix of bs that is a whole number of units. */
  function DecodeUnits(bs: seq<Byte>, w: nat): seq<nat>
    requires w > 0
  {
    if |bs| < w then [] else [Unsigned(bs[..w])] + DecodeUnits(bs[w..], w)
  }

  lemma {:induction false} DecodeEncodeUnits(us: seq<nat>, w: nat)
    requires w > 0
    requires forall u :: u in us ==> u < Capacity(w)
    ensures DecodeUnits(EncodeUnits(us, w), w) == us
  {
    if us != [] {
      var bs := EncodeUnits(us, w);
      assert us[0] in us;
      assert bs[..w] == LittleEndian(us[0], w);
      assert bs[w..] == EncodeUnits(us[1..], w);
      UnsignedOfLittleEndian(us[0], w);
      assert forall u :: u in us[1..] ==> u in us;
      DecodeEncodeUnits(us[1..], w);
    }
  }

  lemma {:induction false} EncodeDecodeUnits(bs: seq<Byte>, n: nat, w: nat)
    requires w > 0 && |bs| == n * w
    ensures EncodeUnits(DecodeUnits(bs, w), w) == bs && |DecodeUnits(bs, w)| == n
    ensures forall u :: u in DecodeUnits(bs, w) ==> u < Capacity(w)
  {
    if n == 0 {
      assert bs == [];
    } else {
      assert n * w == w + (n - 1) * w;
      assert (n - 1) * w >= 0;
      LittleEndianOfUnsigned(bs[..w]);
      EncodeDecodeUnits(bs[w..], n - 1, w);
      var us := DecodeUnits(bs, w);
      assert us[1..] == DecodeUnits(bs[w..], w);
      assert bs == bs[..w] + bs[w..];
      forall u | u in us ensures u < Capacity(w) {
        assert u == us[0] || u in us[1..];
      }
    }
  }
}
