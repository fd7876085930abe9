/** Fixed-width little-endian integers, as `to_le_bytes` and `from_le_bytes` lay them out. */
module LittleEndian {
  import opened Prelude

  function Pow256(n: nat): (p: nat)
    ensures p >= 1
  {
    if n == 0 then 1 else 256 * Pow256(n - 1)
  }

  function ToLE(x: nat, n: nat): (s: seq<Byte>)
    ensures |s| == n
    decreases x, n
  {
    if n == 0 then [] else [x % 256] + ToLE(x / 256, n - 1)
  }

  function FromLE(s: seq<Byte>): (x: nat)
    ensures x < Pow256(|s|)
  {
    if s == [] then 0 else s[0] + 256 * FromLE(s[1..])
  }

  /** Least significant byte first: a byte added behind weighs 256 to the number of bytes before it. */
  lemma {:induction false} FromLEWeighs(s: seq<Byte>, b: Byte)
    ensures FromLE(s + [b]) == FromLE(s) + b * Pow256(|s|)
    ensures Pow256(|s| + 1) == 256 * Pow256(|s|)
  {
    if s == [] {
      assert s + [b] == [b];
    } else {
      assert (s + [b])[1..] == s[1..] + [b];
      FromLEWeighs(s[1..], b);
      var (low, p) := (FromLE(s[1..]), Pow256(|s| - 1));
      assert 256 * (low + b * p) == 256 * low + b * (256 * p);
    }
  }

  lemma {:induction false} FromToLE(x: nat, n: nat)
    requires x < Pow256(n)
    ensures FromLE(ToLE(x, n)) == x
    decreases n
  {
    if n > 0 {
      FromToLE(x / 256, n - 1);
      assert ToLE(x, n)[1..] == ToLE(x / 256, n - 1);
    }
  }

  lemma {:induction false} ToFromLE(s: seq<Byte>)
    ensures ToLE(FromLE(s), |s|) == s
  {
    if s != [] {
      ToFromLE(s[1..]);
      assert FromLE(s) / 256 == FromLE(s[1..]) && FromLE(s) % 256 == s[0];
    }
  }

  lemma Widths()
    ensures Pow256(4) == 0x1_0000_0000
    ensures Pow256(8) == 0x1_0000_0000_0000_0000
  {
    assert Pow256(4) == 256 * (256 * (256 * (256 * Pow256(0))));
    assert Pow256(8) == 256 * (256 * (256 * (256 * Pow256(4))));
  }

  /** Two's complement: the unsigned image of an `i64`, and back. */
  function Unsigned64(x: I64): (u: U64)
    ensures Signed64(u) == x
  {
    if x < 0 then x + 0x1_0000_0000_0000_0000 else x
  }

  function Signed64(u: U64): I64 {
    if u > 0x7FFF_FFFF_FFFF_FFFF then u - 0x1_0000_0000_0000_0000 else u
  }
}
