/**
 * Bytes and fixed-width big-endian integers.
 *
 * The packer writes every multi-byte integer most significant byte first
 * (`_msgpack_store16/32/64`, and the 3-, 5-, 6- and 7-byte tails sliced off a
 * padded store). A C cast to a narrower unsigned type keeps the low bytes;
 * callers here write that truncation out as `n % Pow256(k)` before calling BE.
 */
module Bytes {

  /** One octet of the output buffer. */
  type byte = x: int | 0 <= x < 0x100

  const TwoTo16: nat := 0x1_0000
  const TwoTo32: nat := 0x1_0000_0000
  const TwoTo64: nat := 0x1_0000_0000_0000_0000

  /** 256 to the power k: the number of values that fit in k bytes. */
  function Pow256(k: nat): (r: nat)
    ensures r >= 1
  {
    if k == 0 then 1 else 0x100 * Pow256(k - 1)
  }

  /** The powers the band thresholds of the packer are written with. */
  lemma Pow256Values()
    ensures Pow256(1) == 0x100 && Pow256(2) == TwoTo16
    ensures Pow256(3) == 0x100_0000 && Pow256(4) == TwoTo32
    ensures Pow256(5) == 0x100_0000_0000 && Pow256(6) == 0x1_0000_0000_0000
    ensures Pow256(7) == 0x100_0000_0000_0000 && Pow256(8) == TwoTo64
  {
  }

  lemma {:induction false} Pow256Monotonic(i: nat, j: nat)
    requires i <= j
    ensures Pow256(i) <= Pow256(j)
  {
    if i < j {
      Pow256Monotonic(i, j - 1);
    }
  }

  /** The k-byte big-endian form of n (n must fit in k bytes). */
  function BE(n: nat, k: nat): (r: seq<byte>)
    requires n < Pow256(k)
    ensures |r| == k
  {
    if k == 0 then [] else BE(n / 0x100, k - 1) + [n % 0x100]
  }

  /** The unsigned value of a big-endian byte string. */
  function FromBE(s: seq<byte>): (r: nat)
    ensures r < Pow256(|s|)
  {
    if s == [] then 0 else FromBE(s[..|s| - 1]) * 0x100 + s[|s| - 1]
  }

  /** Reading back a big-endian store gives the stored value. */
  lemma {:induction false} FromBEOfBE(n: nat, k: nat)
    requires n < Pow256(k)
    ensures FromBE(BE(n, k)) == n
  {
    if k > 0 {
      var s := BE(n, k);
      assert s[..k - 1] == BE(n / 0x100, k - 1);
      FromBEOfBE(n / 0x100, k - 1);
    }
  }

  /** Every byte string is the big-endian store of its own value. */
  lemma {:induction false} BEOfFromBE(s: seq<byte>)
    ensures BE(FromBE(s), |s|) == s
  {
    if s != [] {
      var p := s[..|s| - 1];
      BEOfFromBE(p);
      assert (FromBE(p) * 0x100 + s[|s| - 1]) / 0x100 == FromBE(p);
      assert s == p + [s[|s| - 1]];
    }
  }

  /**
   * The value of a big-endian byte string read as a two's-complement signed
   * integer of the same width.
   */
  function FromTwos(s: seq<byte>): (r: int)
    requires |s| >= 1
    ensures -(Pow256(|s|) / 2) <= r < Pow256(|s|) / 2
  {
    var u := FromBE(s);
    if u >= Pow256(|s|) / 2 then u - Pow256(|s|) else u
  }

  /** The two's-complement store of d, `BE(d % Pow256(k), k)`, reads back as d. */
  lemma TwosRoundTrip(d: int, k: nat)
    requires k >= 1
    requires -(Pow256(k) / 2) <= d < Pow256(k) / 2
    ensures d % Pow256(k) < Pow256(k)
    ensures FromTwos(BE(d % Pow256(k), k)) == d
  {
    var p := Pow256(k);
    assert p == 0x100 * Pow256(k - 1);
    if d < 0 {
      ModOfNegative(d, p);
    } else {
      ModOfSmall(d, p);
    }
    FromBEOfBE(d % p, k);
  }

  lemma ModOfSmall(d: int, p: int)
    requires 0 <= d < p
    ensures d % p == d
  {
  }

  lemma ModOfNegative(d: int, p: int)
    requires -p <= d < 0
    ensures d % p == d + p
  {
  }

  /**
   * The number of big-endian bytes the packer writes after a long RLP
   * header (and after the tag of an unsigned 64-bit integer): the least k in
   * 1..8 with n < 256^k. The thresholds are those of pack_template.h.
   */
  function MinWidth(n: nat): (k: nat)
    requires n < TwoTo64
    ensures 1 <= k <= 8 && n < Pow256(k)
    ensures k == 1 || Pow256(k - 1) <= n
  {
    Pow256Values();
    if n < 0x100 then 1
    else if n < 0x1_0000 then 2
    else if n < 0x100_0000 then 3
    else if n < 0x1_0000_0000 then 4
    else if n < 0x100_0000_0000 then 5
    else if n < 0x1_0000_0000_0000 then 6
    else if n < 0x100_0000_0000_0000 then 7
    else 8
  }

  /** MinWidth is the least width that holds n: every width that holds n is at least as wide. */
  lemma MinWidthIsLeast(n: nat, k: nat)
    requires n < TwoTo64
    requires 1 <= k && n < Pow256(k)
    ensures MinWidth(n) <= k
  {
    var m := MinWidth(n);
    if m > k {
      Pow256Monotonic(k, m - 1);
    }
  }
}
