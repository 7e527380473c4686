/**
 * Recursive Length Prefix as defined in Appendix B of the Ethereum Yellow
 * Paper, written independently of the packer, and the lemmas that the
 * packer's string header, list header and unsigned 64-bit integer produce it.
 */
module Rlp {
  import opened Bytes
  import opened PackFormat

  /** The Yellow Paper's BE: the big-endian form of n with no leading zero byte (empty for 0). */
  function MinimalBE(n: nat): seq<byte>
    decreases n
  {
    if n == 0 then [] else MinimalBE(n / 0x100) + [n % 0x100]
  }

  /** For 1 <= n < 2^64 the minimal big-endian form is the packer's MinWidth-byte store. */
  lemma {:induction false} MinimalBEIsBE(n: nat)
    requires 1 <= n < TwoTo64
    ensures MinimalBE(n) == BE(n, MinWidth(n))
    decreases n
  {
    Pow256Values();
    if n < 0x100 {
      assert MinimalBE(n) == MinimalBE(0) + [n];
      assert BE(n, 1) == BE(0, 0) + [n];
    } else {
      var q := n / 0x100;
      MinimalBEIsBE(q);
      var m := MinWidth(q);
      MinWidthSucc(n);
      assert MinWidth(n) == m + 1;
    }
  }

  /** Dropping the low byte of n >= 256 reduces the least width by exactly one. */
  lemma MinWidthSucc(n: nat)
    requires 0x100 <= n < TwoTo64
    ensures MinWidth(n) == MinWidth(n / 0x100) + 1
  {
    var q := n / 0x100;
    var m := MinWidth(q);
    assert Pow256(m + 1) == 0x100 * Pow256(m);
    MinWidthIsLeast(n, m + 1);
    var j := MinWidth(n);
    if j <= m {
      Pow256Monotonic(j, m);
      if m == 1 {
        Pow256Values();
      }
    }
  }

  /** The Yellow Paper's R_b: the RLP serialisation of a byte array x. */
  function RlpBytes(x: seq<byte>): seq<byte>
    requires |x| < TwoTo64
  {
    if |x| == 1 && x[0] < 0x80 then x
    else if |x| < 56 then [0x80 + |x|] + x
    else
      MinimalBEIsBE(|x|);
      [0xb7 + |MinimalBE(|x|)|] + MinimalBE(|x|) + x
  }

  /** The Yellow Paper's R_l, given s, the concatenation of the serialised items. */
  function RlpList(s: seq<byte>): seq<byte>
    requires |s| < TwoTo64
  {
    if |s| < 56 then [0xc0 + |s|] + s
    else
      MinimalBEIsBE(|s|);
      [0xf7 + |MinimalBE(|s|)|] + MinimalBE(|s|) + s
  }

  /**
   * The packer's string header followed by the string is the RLP
   * serialisation of the string, except for a single byte below 0x80, which
   * RLP writes bare and the header function always prefixes.
   */
  lemma RawHeaderIsRlp(x: seq<byte>)
    requires |x| < TwoTo64
    ensures !(|x| == 1 && x[0] < 0x80) ==> RawHeader(|x|) + x == RlpBytes(x)
    ensures |x| == 1 && x[0] < 0x80 ==> RawHeader(|x|) + x == [0x81] + RlpBytes(x)
  {
    if |x| >= 56 {
      MinimalBEIsBE(|x|);
    }
  }

  /** The packer's list header followed by the payload is the RLP serialisation of the list. */
  lemma ArrayHeaderIsRlp(s: seq<byte>)
    requires |s| < TwoTo64
    ensures ArrayHeader(|s|) + s == RlpList(s)
  {
    if |s| >= 56 {
      MinimalBEIsBE(|s|);
    }
  }

  /**
   * For d >= 1 the unsigned 64-bit encoding is the RLP serialisation of the
   * integer (its minimal big-endian form); 0 is the one exception, written
   * as the byte 0x00 where RLP writes the empty string 0x80.
   */
  lemma Uint64IsRlp(d: nat)
    requires d < TwoTo64
    ensures |MinimalBE(d)| <= 8
    ensures d >= 1 ==> Uint64Bytes(d) == RlpBytes(MinimalBE(d))
    ensures Uint64Bytes(0) == [0x00] && RlpBytes(MinimalBE(0)) == [0x80]
  {
    Pow256Values();
    if d >= 1 {
      MinimalBEIsBE(d);
      var k := MinWidth(d);
      if k == 1 {
        assert BE(d, 1) == BE(0, 0) + [d];
      }
    }
  }
}
