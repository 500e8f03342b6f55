/** Octets and the big-endian unsigned integers that `struct` packs into them. */
module Bytes {

  type byte = x: int | 0 <= x < 256

  function Pow256(n: nat): (p: nat)
    ensures p > 0
  {
    if n == 0 then 1 else 256 * Pow256(n - 1)
  }

  /** The low `width` octets of `x`, most significant first. */
  function ToBigEndian(x: nat, width: nat): (bs: seq<byte>)
    ensures |bs| == width
  {
    if width == 0 then [] else ToBigEndian(x / 256, width - 1) + [x % 256]
  }

  /** The unsigned number whose big-endian encoding is `bs`. */
  function FromBigEndian(bs: seq<byte>): (x: nat)
    ensures x < Pow256(|bs|)
  {
    if bs == [] then 0 else FromBigEndian(bs[..|bs| - 1]) * 256 + bs[|bs| - 1]
  }

  /** A number that fits in `width` octets is recovered from its encoding. */
  lemma {:induction false} FromToBigEndian(x: nat, width: nat)
    requires x < Pow256(width)
    ensures FromBigEndian(ToBigEndian(x, width)) == x
  {
    if width > 0 {
      var q, r := x / 256, x % 256;
      var p := Pow256(width - 1);
      assert x == 256 * q + r && 0 <= r < 256;
      assert q < p by {
        assert Pow256(width) == 256 * p;
      }
      FromToBigEndian(q, width - 1);
      var bs := ToBigEndian(x, width);
      assert bs == ToBigEndian(q, width - 1) + [r];
      assert bs[..width - 1] == ToBigEndian(q, width - 1) && bs[width - 1] == r;
      assert FromBigEndian(bs) == FromBigEndian(ToBigEndian(q, width - 1)) * 256 + r;
    }
  }

  /** Every octet string is the encoding of the number it denotes. */
  lemma {:induction false} ToFromBigEndian(bs: seq<byte>)
    ensures ToBigEndian(FromBigEndian(bs), |bs|) == bs
    decreases |bs|
  {
    if bs != [] {
      var init := bs[..|bs| - 1];
      var x := FromBigEndian(bs);
      assert x / 256 == FromBigEndian(init) && x % 256 == bs[|bs| - 1];
      ToFromBigEndian(init);
      assert init + [bs[|bs| - 1]] == bs;
    }
  }

  lemma Pow256Four()
    ensures Pow256(4) == 0x1_0000_0000
  {
  }
}
