/** A SHA-1 digest read as a non-negative integer, as `int(hexdigest, 16)` does.
    The digest itself is computed outside the model. */
module Digest {

  type byte = b: int | 0 <= b < 256

  /** The 20 bytes (160 bits) a SHA-1 digest consists of. */
  type Sha1Digest = s: seq<byte> | |s| == 20 witness seq(20, _ => 0)

  function Pow256(n: nat): (r: nat)
    ensures r >= 1
  {
    if n == 0 then 1 else 256 * Pow256(n - 1)
  }

  /** The bytes of `s` as a base-256 numeral, most significant byte first.
      Reading the 40 hexadecimal digits of a digest in base 16 gives the same number. */
  function BigEndian(s: seq<byte>): (v: nat)
    ensures v < Pow256(|s|)
  {
    if s == [] then 0 else BigEndian(s[..|s| - 1]) * 256 + s[|s| - 1]
  }

  /** Byte strings of one length read as the same number only if they are equal. */
  lemma {:induction false} BigEndianInjective(a: seq<byte>, b: seq<byte>)
    requires |a| == |b|
    ensures BigEndian(a) == BigEndian(b) <==> a == b
  {
    if a != [] && BigEndian(a) == BigEndian(b) {
      var n := |a| - 1;
      assert a[n] == b[n] && BigEndian(a[..n]) == BigEndian(b[..n]);
      BigEndianInjective(a[..n], b[..n]);
      assert a == a[..n] + [a[n]] && b == b[..n] + [b[n]];
    }
  }
}
