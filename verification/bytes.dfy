/**
 * Fixed-width little-endian integers, the layout `struct.pack` produces for
 * the 'i' (int32), 'Q' (uint64) and 'd' (64-bit word) formats. Native byte
 * order is fixed to little-endian in this model.
 */
module Bytes {

  type byte = x: int | 0 <= x < 256

  /** 256 to the power n: the number of values n bytes can hold. */
  function Pow256(n: nat): (r: nat)
    ensures r > 0
  {
    if n == 0 then 1 else 256 * Pow256(n - 1)
  }

  const TwoTo31: nat := 0x8000_0000
  const TwoTo32: nat := 0x1_0000_0000
  const TwoTo64: nat := 0x1_0000_0000_0000_0000

  lemma Pow256Widths()
    ensures Pow256(4) == TwoTo32
    ensures Pow256(8) == TwoTo64
  {
    assert Pow256(2) == 65536;
    assert Pow256(4) == 65536 * 65536;
  }

  /** The n-byte little-endian encoding of v. */
  function ToLE(v: nat, n: nat): (r: seq<byte>)
    requires v < Pow256(n)
    ensures |r| == n
    ensures n > 0 ==> r[0] == v % 256
  {
    if n == 0 then [] else [(v % 256) as byte] + ToLE(v / 256, n - 1)
  }

  /** The unsigned value of a little-endian byte string. */
  function FromLE(bs: seq<byte>): (v: nat)
    ensures v < Pow256(|bs|)
  {
    if |bs| == 0 then 0
    else
      var rest := FromLE(bs[1..]);
      assert rest <= Pow256(|bs| - 1) - 1;
      bs[0] + 256 * rest
  }

  /** Decoding an encoding gives back the value. */
  lemma {:induction false} FromLEToLE(v: nat, n: nat)
    requires v < Pow256(n)
    ensures FromLE(ToLE(v, n)) == v
  {
    if n > 0 {
      FromLEToLE(v / 256, n - 1);
      assert ToLE(v, n)[1..] == ToLE(v / 256, n - 1);
    }
  }

  /** Encoding a decoded byte string gives back the bytes. */
  lemma {:induction false} ToLEFromLE(bs: seq<byte>)
    ensures ToLE(FromLE(bs), |bs|) == bs
  {
    if |bs| > 0 {
      var v := FromLE(bs);
      assert v % 256 == bs[0] && v / 256 == FromLE(bs[1..]);
      ToLEFromLE(bs[1..]);
    }
  }

  /** Two's-complement value of a signed 32-bit field ('i'). */
  function Int32Of(bs: seq<byte>): (v: int)
    requires |bs| == 4
    ensures -(TwoTo31 as int) <= v < TwoTo31
  {
    Pow256Widths();
    var u := FromLE(bs);
    if u >= TwoTo31 then u - TwoTo32 else u
  }

  /** The 'i' encoding of a value in the signed 32-bit range. */
  function Int32Bytes(v: int): (r: seq<byte>)
    requires -(TwoTo31 as int) <= v < TwoTo31
    ensures |r| == 4
    ensures Int32Of(r) == v
  {
    Pow256Widths();
    var u: nat := if v < 0 then v + TwoTo32 else v;
    FromLEToLE(u, 4);
    ToLE(u, 4)
  }

  /** The 'Q' encoding of an unsigned 64-bit value. */
  function U64Bytes(v: nat): (r: seq<byte>)
    requires v < TwoTo64
    ensures |r| == 8
    ensures FromLE(r) == v
  {
    Pow256Widths();
    FromLEToLE(v, 8);
    ToLE(v, 8)
  }

  /** An 8-byte field is the 'Q' encoding of its value. */
  lemma U64BytesOfField(bs: seq<byte>)
    requires |bs| == 8
    ensures FromLE(bs) < TwoTo64
    ensures U64Bytes(FromLE(bs)) == bs
  {
    Pow256Widths();
    ToLEFromLE(bs);
  }

  /** Every 4-byte field is the encoding of the int32 it holds. */
  lemma Int32BytesOfField(bs: seq<byte>)
    requires |bs| == 4
    ensures Int32Bytes(Int32Of(bs)) == bs
  {
    Pow256Widths();
    ToLEFromLE(bs);
  }

  /** Values packed back to back as 'Q' fields. */
  function PackU64s(vs: seq<nat>): (r: seq<byte>)
    requires forall i :: 0 <= i < |vs| ==> vs[i] < TwoTo64
    ensures |r| == 8 * |vs|
  {
    if |vs| == 0 then [] else U64Bytes(vs[0]) + PackU64s(vs[1..])
  }

  /** The values of consecutive 'Q' fields. */
  function UnpackU64s(bs: seq<byte>): (vs: seq<nat>)
    requires |bs| % 8 == 0
    ensures |vs| == |bs| / 8
    ensures forall i :: 0 <= i < |vs| ==> vs[i] < TwoTo64
  {
    Pow256Widths();
    if |bs| == 0 then [] else [FromLE(bs[..8])] + UnpackU64s(bs[8..])
  }

  /** Field i of a packing is the encoding of value i. */
  lemma {:induction false} PackedAt(vs: seq<nat>, i: nat)
    requires forall k :: 0 <= k < |vs| ==> vs[k] < TwoTo64
    requires i < |vs|
    ensures PackU64s(vs)[8 * i .. 8 * i + 8] == U64Bytes(vs[i])
  {
    var head, tail := U64Bytes(vs[0]), PackU64s(vs[1..]);
    assert PackU64s(vs) == head + tail;
    if i > 0 {
      PackedAt(vs[1..], i - 1);
      assert tail[8 * (i - 1) .. 8 * (i - 1) + 8] == U64Bytes(vs[i]);
    }
  }

  /** Value i of an unpacking is field i of the bytes. */
  lemma {:induction false} UnpackedAt(bs: seq<byte>, i: nat)
    requires |bs| % 8 == 0 && 8 * i + 8 <= |bs|
    ensures UnpackU64s(bs)[i] == FromLE(bs[8 * i .. 8 * i + 8])
  {
    if i > 0 {
      UnpackedAt(bs[8..], i - 1);
      assert bs[8..][8 * (i - 1) .. 8 * (i - 1) + 8] == bs[8 * i .. 8 * i + 8];
    }
  }

  /** Unpacking a packing gives back the values. */
  lemma {:induction false} UnpackPack(vs: seq<nat>)
    requires forall i :: 0 <= i < |vs| ==> vs[i] < TwoTo64
    ensures UnpackU64s(PackU64s(vs)) == vs
  {
    if |vs| > 0 {
      var bs := PackU64s(vs);
      assert bs[..8] == U64Bytes(vs[0]);
      assert bs[8..] == PackU64s(vs[1..]);
      UnpackPack(vs[1..]);
      assert vs == [vs[0]] + vs[1..];
    }
  }

  /** Packing the unpacked values gives back the bytes. */
  lemma {:induction false} PackUnpack(bs: seq<byte>)
    requires |bs| % 8 == 0
    ensures PackU64s(UnpackU64s(bs)) == bs
  {
    if |bs| > 0 {
      var vs := UnpackU64s(bs);
      U64BytesOfField(bs[..8]);
      PackUnpack(bs[8..]);
      assert vs[0] == FromLE(bs[..8]) && vs[1..] == UnpackU64s(bs[8..]);
      assert bs == bs[..8] + bs[8..];
    }
  }
}
