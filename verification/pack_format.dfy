/**
 * The bytes the packer emits for each scalar and each container header
 * (msgpack_rlp/pack_template.h), as pure functions of the value.
 *
 * Each encoder picks a band by comparing the value with powers of two and
 * yields one tag byte followed by 0..8 big-endian bytes. Strings and lists
 * take the headers of Ethereum's Recursive Length Prefix (Yellow Paper,
 * Appendix B); unsigned 64-bit integers use the same `0x80 + k` scheme; every
 * other encoder uses MessagePack tags.
 *
 * Beside each encoder sits a reference reader for its header, written from the
 * published layout of the format (MessagePack's int, map, bin and ext families,
 * and the RLP prefix ranges), and lemmas that (1) the header reads back as the
 * value written and (2) no header of that family that reads back as the same
 * value is shorter, i.e. the band chosen is the narrowest.
 */
module PackFormat {
  import opened Bytes
  import opened Wrappers

  // ---------------------------------------------------------------------------
  // Fixed tags

  const NilTag: byte := 0xc0
  const FalseTag: byte := 0xc2
  const TrueTag: byte := 0xc3
  const FloatTag: byte := 0xca
  const DoubleTag: byte := 0xcb

  /** Base of the RLP string prefixes (`0x80 + l`, `0xb7 + k`). */
  const RawBase: byte := 0x80
  /** Base of the RLP list prefixes (`0xc0 + l`, `0xf7 + k`). */
  const ArrayBase: byte := 0xc0

  /** Lengths below this are written inside the RLP prefix byte itself. */
  const RlpShortLimit: nat := 56

  // ---------------------------------------------------------------------------
  // Integers with MessagePack tags (msgpack_pack_real_uint8/16/32, int8/16/32/64)

  /** `msgpack_pack_real_uint8`: a positive fixnum below 128, else `0xcc` and the byte. */
  function Uint8Bytes(d: nat): seq<byte>
    requires d < 0x100
  {
    if d < 0x80 then [d] else [0xcc, d]
  }

  /** `msgpack_pack_real_uint16`. */
  function Uint16Bytes(d: nat): seq<byte>
    requires d < TwoTo16
  {
    if d < 0x80 then [d]
    else if d < 0x100 then [0xcc, d]
    else [0xcd] + BE(d, 2)
  }

  /** `msgpack_pack_real_uint32`. */
  function Uint32Bytes(d: nat): seq<byte>
    requires d < TwoTo32
  {
    if d < 0x100 then
      if d < 0x80 then [d] else [0xcc, d]
    else
      if d < TwoTo16 then [0xcd] + BE(d, 2) else [0xce] + BE(d, 4)
  }

  /**
   * `msgpack_pack_real_int8`: the low byte of d (`TAKE8_8`) for d >= -32,
   * else `0xd0` and the low byte.
   */
  function Int8Bytes(d: int): seq<byte>
    requires -0x80 <= d < 0x80
  {
    if d < -32 then [0xd0, d % 0x100] else [d % 0x100]
  }

  /** `msgpack_pack_real_int16`. */
  function Int16Bytes(d: int): seq<byte>
    requires -0x8000 <= d < 0x8000
  {
    if d < -32 then
      if d < -0x80 then [0xd1] + BE(d % TwoTo16, 2) else [0xd0, d % 0x100]
    else if d < 0x80 then [d % 0x100]
    else
      if d < 0x100 then [0xcc, d] else [0xcd] + BE(d, 2)
  }

  /** `msgpack_pack_real_int32`. */
  function Int32Bytes(d: int): seq<byte>
    requires -0x8000_0000 <= d < 0x8000_0000
  {
    if d < -32 then
      if d < -0x8000 then [0xd2] + BE(d % TwoTo32, 4)
      else if d < -0x80 then [0xd1] + BE(d % TwoTo16, 2)
      else [0xd0, d % 0x100]
    else if d < 0x80 then [d % 0x100]
    else
      if d < 0x100 then [0xcc, d]
      else if d < TwoTo16 then [0xcd] + BE(d, 2)
      else [0xce] + BE(d, 4)
  }

  /** `msgpack_pack_real_int64`. */
  function Int64Bytes(d: int): seq<byte>
    requires -0x8000_0000_0000_0000 <= d < 0x8000_0000_0000_0000
  {
    if d < -32 then
      if d < -0x8000 then
        if d < -0x8000_0000 then [0xd3] + BE(d % TwoTo64, 8) else [0xd2] + BE(d % TwoTo32, 4)
      else
        if d < -0x80 then [0xd1] + BE(d % TwoTo16, 2) else [0xd0, d % 0x100]
    else if d < 0x80 then [d % 0x100]
    else
      if d < TwoTo16 then
        if d < 0x100 then [0xcc, d] else [0xcd] + BE(d, 2)
      else
        if d < TwoTo32 then [0xce] + BE(d, 4) else [0xcf] + BE(d, 8)
  }

  /** Payload width of the tags `0xcc + i` (unsigned) and `0xd0 + i` (signed), i in 0..3. */
  function IntTagWidth(i: nat): nat
    requires i < 4
  {
    if i == 0 then 1 else if i == 1 then 2 else if i == 2 then 4 else 8
  }

  /**
   * Reference reader for one MessagePack integer: positive fixnum, negative
   * fixnum `0xe0..0xff`, unsigned `0xcc..0xcf`, signed `0xd0..0xd3`.
   * Gives the value and the number of bytes the integer occupies.
   */
  function ReadInt(s: seq<byte>): Option<(int, nat)>
  {
    if |s| == 0 then None
    else if s[0] < 0x80 then Some((s[0], 1))
    else if s[0] >= 0xe0 then Some((s[0] as int - 0x100, 1))
    else if 0xcc <= s[0] <= 0xd3 then
      var w := IntTagWidth((s[0] - 0xcc) % 4);
      if |s| < 1 + w then None
      else if s[0] <= 0xcf then Some((FromBE(s[1..1 + w]), 1 + w))
      else Some((FromTwos(s[1..1 + w]), 1 + w))
    else None
  }

  /** A tag, a payload and whatever follows: the tag is first and the payload is the next |payload| bytes. */
  lemma Tagged(tag: byte, payload: seq<byte>, rest: seq<byte>)
    ensures |[tag] + payload + rest| == 1 + |payload| + |rest|
    ensures ([tag] + payload + rest)[0] == tag
    ensures ([tag] + payload + rest)[1..1 + |payload|] == payload
  {
    var s := [tag] + payload + rest;
    assert s[1..1 + |payload|] == payload;
  }

  /** One unsigned band: tag `0xcc + i` followed by the k-byte big-endian d reads back as d. */
  lemma UnsignedBandReadBack(i: nat, d: nat, rest: seq<byte>)
    requires i < 4 && d < Pow256(IntTagWidth(i))
    ensures ReadInt([0xcc + i] + BE(d, IntTagWidth(i)) + rest) == Some((d, 1 + IntTagWidth(i)))
  {
    Tagged(0xcc + i, BE(d, IntTagWidth(i)), rest);
    FromBEOfBE(d, IntTagWidth(i));
  }

  /** One signed band: tag `0xd0 + i` followed by the k-byte two's complement of d reads back as d. */
  lemma SignedBandReadBack(i: nat, d: int, rest: seq<byte>)
    requires i < 4
    requires -(Pow256(IntTagWidth(i)) / 2) <= d < Pow256(IntTagWidth(i)) / 2
    ensures d % Pow256(IntTagWidth(i)) < Pow256(IntTagWidth(i))
    ensures ReadInt([0xd0 + i] + BE(d % Pow256(IntTagWidth(i)), IntTagWidth(i)) + rest) == Some((d, 1 + IntTagWidth(i)))
  {
    var k := IntTagWidth(i);
    TwosRoundTrip(d, k);
    Tagged(0xd0 + i, BE(d % Pow256(k), k), rest);
  }

  /** The negative bands below -32 (`0xd0..0xd3`) read back as d. */
  lemma NegativeReadBack(d: int, rest: seq<byte>)
    requires -0x8000_0000_0000_0000 <= d < -32
    ensures 0xd0 <= Int64Bytes(d)[0] <= 0xd3
    ensures ReadInt(Int64Bytes(d) + rest) == Some((d, |Int64Bytes(d)|))
  {
    Pow256Values();
    if d < -0x8000_0000 {
      assert Int64Bytes(d) == [0xd3] + BE(d % TwoTo64, 8);
      SignedBandReadBack(3, d, rest);
    } else if d < -0x8000 {
      assert Int64Bytes(d) == [0xd2] + BE(d % TwoTo32, 4);
      SignedBandReadBack(2, d, rest);
    } else if d < -0x80 {
      assert Int64Bytes(d) == [0xd1] + BE(d % TwoTo16, 2);
      SignedBandReadBack(1, d, rest);
    } else {
      assert Int64Bytes(d) == [0xd0] + BE(d % 0x100, 1);
      SignedBandReadBack(0, d, rest);
    }
  }

  /** The unsigned bands from 128 up (`0xcc..0xcf`) read back as d. */
  lemma PositiveReadBack(d: int, rest: seq<byte>)
    requires 0x80 <= d < 0x8000_0000_0000_0000
    ensures 0xcc <= Int64Bytes(d)[0] <= 0xcf
    ensures ReadInt(Int64Bytes(d) + rest) == Some((d, |Int64Bytes(d)|))
  {
    Pow256Values();
    if d < 0x100 {
      assert Int64Bytes(d) == [0xcc] + BE(d, 1);
      UnsignedBandReadBack(0, d, rest);
    } else if d < TwoTo16 {
      assert Int64Bytes(d) == [0xcd] + BE(d, 2);
      UnsignedBandReadBack(1, d, rest);
    } else if d < TwoTo32 {
      assert Int64Bytes(d) == [0xce] + BE(d, 4);
      UnsignedBandReadBack(2, d, rest);
    } else {
      assert Int64Bytes(d) == [0xcf] + BE(d, 8);
      UnsignedBandReadBack(3, d, rest);
    }
  }

  /** Every 64-bit signed integer reads back from its encoding, whatever bytes follow it. */
  lemma Int64ReadBack(d: int, rest: seq<byte>)
    requires -0x8000_0000_0000_0000 <= d < 0x8000_0000_0000_0000
    ensures ReadInt(Int64Bytes(d) + rest) == Some((d, |Int64Bytes(d)|))
  {
    if d < -32 {
      NegativeReadBack(d, rest);
    } else if d >= 0x80 {
      PositiveReadBack(d, rest);
    } else {
      assert Int64Bytes(d) + rest == [d % 0x100] + rest;
    }
  }

  /**
   * Minimality: an integer that reads back as d from any MessagePack integer
   * header occupies at least as many bytes as the packer's encoding of d.
   */
  lemma Int64Minimal(s: seq<byte>, d: int, n: nat)
    requires -0x8000_0000_0000_0000 <= d < 0x8000_0000_0000_0000
    requires ReadInt(s) == Some((d, n))
    ensures |Int64Bytes(d)| <= n
  {
    Pow256Values();
  }

  /**
   * The narrower-typed encoders are the 64-bit signed encoder restricted to
   * their domain: the same band is chosen for the same value whatever the C
   * type the value arrived with.
   */
  lemma NarrowEncodersAgree(d: int)
    ensures 0 <= d < 0x100 ==> Uint8Bytes(d) == Int64Bytes(d)
    ensures 0 <= d < TwoTo16 ==> Uint16Bytes(d) == Int64Bytes(d)
    ensures 0 <= d < TwoTo32 ==> Uint32Bytes(d) == Int64Bytes(d)
    ensures -0x80 <= d < 0x80 ==> Int8Bytes(d) == Int64Bytes(d)
    ensures -0x8000 <= d < 0x8000 ==> Int16Bytes(d) == Int64Bytes(d)
    ensures -0x8000_0000 <= d < 0x8000_0000 ==> Int32Bytes(d) == Int64Bytes(d)
  {
  }

  /**
   * The unsigned 8-, 16- and 32-bit encoders: a value below 128 is the single
   * byte d, any larger one gets an unsigned tag `0xcc..0xce`; the header reads
   * back as d and is the narrowest that does.
   */
  lemma UnsignedEncodersReadBack(d: nat, rest: seq<byte>, s: seq<byte>, n: nat)
    requires d < TwoTo32
    ensures d < 0x80 ==> Uint32Bytes(d) == [d]
    ensures 0x80 <= d < 0x100 ==> 0xcc <= Uint8Bytes(d)[0] <= 0xcf
    ensures 0x80 <= d < TwoTo16 ==> 0xcc <= Uint16Bytes(d)[0] <= 0xcf
    ensures 0x80 <= d ==> 0xcc <= Uint32Bytes(d)[0] <= 0xcf
    ensures d < 0x100 ==> ReadInt(Uint8Bytes(d) + rest) == Some((d, |Uint8Bytes(d)|))
    ensures d < TwoTo16 ==> ReadInt(Uint16Bytes(d) + rest) == Some((d, |Uint16Bytes(d)|))
    ensures ReadInt(Uint32Bytes(d) + rest) == Some((d, |Uint32Bytes(d)|))
    ensures ReadInt(s) == Some((d, n)) ==> |Uint32Bytes(d)| <= n
  {
    NarrowEncodersAgree(d);
    Int64ReadBack(d, rest);
    if d >= 0x80 {
      PositiveReadBack(d, rest);
    }
    if ReadInt(s) == Some((d, n)) {
      Int64Minimal(s, d, n);
    }
  }

  /**
   * The signed 8-, 16- and 32-bit encoders: a value in [-32, 127] is the single
   * byte d mod 256, a smaller one gets a signed tag `0xd0..0xd2` and a larger
   * one an unsigned tag `0xcc..0xce`; the header reads back as d and is the
   * narrowest that does.
   */
  lemma SignedEncodersReadBack(d: int, rest: seq<byte>, s: seq<byte>, n: nat)
    requires -0x8000_0000 <= d < 0x8000_0000
    ensures -32 <= d < 0x80 ==> Int32Bytes(d) == [d % 0x100]
    ensures -0x80 <= d < -32 ==> 0xd0 <= Int8Bytes(d)[0] <= 0xd3
    ensures -0x8000 <= d < -32 ==> 0xd0 <= Int16Bytes(d)[0] <= 0xd3
    ensures d < -32 ==> 0xd0 <= Int32Bytes(d)[0] <= 0xd3
    ensures 0x80 <= d < 0x8000 ==> 0xcc <= Int16Bytes(d)[0] <= 0xcf
    ensures 0x80 <= d ==> 0xcc <= Int32Bytes(d)[0] <= 0xcf
    ensures -0x80 <= d < 0x80 ==> ReadInt(Int8Bytes(d) + rest) == Some((d, |Int8Bytes(d)|))
    ensures -0x8000 <= d < 0x8000 ==> ReadInt(Int16Bytes(d) + rest) == Some((d, |Int16Bytes(d)|))
    ensures ReadInt(Int32Bytes(d) + rest) == Some((d, |Int32Bytes(d)|))
    ensures ReadInt(s) == Some((d, n)) ==> |Int32Bytes(d)| <= n
  {
    NarrowEncodersAgree(d);
    Int64ReadBack(d, rest);
    if d >= 0x80 {
      PositiveReadBack(d, rest);
    } else if d < -32 {
      NegativeReadBack(d, rest);
    }
    if ReadInt(s) == Some((d, n)) {
      Int64Minimal(s, d, n);
    }
  }

  /** A concrete case: 300 is `cd 01 2c`. */
  lemma Uint16Of300()
    ensures Uint16Bytes(300) == [0xcd, 0x01, 0x2c]
  {
  }

  // ---------------------------------------------------------------------------
  // Unsigned 64-bit integers in the RLP style (msgpack_pack_real_uint64)

  /**
   * `msgpack_pack_real_uint64`: a value below 128 is its own single byte;
   * otherwise `0x80 + k` followed by the k-byte big-endian value, k being the
   * least width that holds it.
   */
  function Uint64Bytes(d: nat): seq<byte>
    requires d < TwoTo64
  {
    if d < 0x80 then [d]
    else
      var k := MinWidth(d);
      [0x80 + k] + BE(d, k)
  }

  /** Reference reader for Uint64Bytes: a single byte below `0x80`, or `0x80 + k` and k big-endian bytes, k in 1..8. */
  function ReadRlpUint(s: seq<byte>): Option<(nat, nat)>
  {
    if |s| == 0 then None
    else if s[0] < 0x80 then Some((s[0], 1))
    else if 0x81 <= s[0] <= 0x88 then
      var k := s[0] - 0x80;
      if |s| < 1 + k then None else Some((FromBE(s[1..1 + k]), 1 + k))
    else None
  }

  /** The unsigned 64-bit encoding reads back as d, its tag is `0x80 + k`, and no shorter form reads back as d. */
  lemma Uint64ReadBack(d: nat, rest: seq<byte>, s: seq<byte>, n: nat)
    requires d < TwoTo64
    ensures d >= 0x80 ==> Uint64Bytes(d)[0] == 0x80 + MinWidth(d) && |Uint64Bytes(d)| == 1 + MinWidth(d)
    ensures ReadRlpUint(Uint64Bytes(d) + rest) == Some((d, |Uint64Bytes(d)|))
    ensures ReadRlpUint(s) == Some((d, n)) ==> |Uint64Bytes(d)| <= n
  {
    var e := Uint64Bytes(d);
    if d >= 0x80 {
      var k := MinWidth(d);
      Tagged(e[0], BE(d, k), rest);
      assert e + rest == [e[0]] + BE(d, k) + rest;
      FromBEOfBE(d, k);
    }
    if ReadRlpUint(s) == Some((d, n)) && n > 1 {
      MinWidthIsLeast(d, n - 1);
    }
  }

  // ---------------------------------------------------------------------------
  // Floating point (msgpack_pack_float / msgpack_pack_double), given the bit pattern

  /** `msgpack_pack_float`: tag `0xca` and the 32-bit IEEE-754 pattern, big-endian. */
  function FloatBytes(bits: nat): seq<byte>
    requires bits < TwoTo32
  {
    [FloatTag] + BE(bits, 4)
  }

  /** `msgpack_pack_double`: tag `0xcb` and the 64-bit IEEE-754 pattern, big-endian. */
  function DoubleBytes(bits: nat): seq<byte>
    requires bits < TwoTo64
  {
    [DoubleTag] + BE(bits, 8)
  }

  /** Floats are never minimised: always 5 or 9 bytes, and the payload reads back as the bit pattern. */
  lemma FloatReadBack(bits32: nat, bits64: nat)
    requires bits32 < TwoTo32 && bits64 < TwoTo64
    ensures |FloatBytes(bits32)| == 5 && FromBE(FloatBytes(bits32)[1..]) == bits32
    ensures |DoubleBytes(bits64)| == 9 && FromBE(DoubleBytes(bits64)[1..]) == bits64
  {
    Pow256Values();
    assert FloatBytes(bits32)[1..] == BE(bits32, 4);
    assert DoubleBytes(bits64)[1..] == BE(bits64, 8);
    FromBEOfBE(bits32, 4);
    FromBEOfBE(bits64, 8);
  }

  // ---------------------------------------------------------------------------
  // RLP string and list headers (msgpack_pack_raw, msgpack_pack_array)

  /**
   * The RLP length prefix with the given base: `base + l` when l < 56,
   * otherwise `base + 55 + k` followed by the k-byte big-endian l, k minimal.
   * With base `0x80` the long tags are `0xb8..0xbf`, with base `0xc0` they
   * are `0xf8..0xff`, as written out band by band in the packer.
   */
  function RlpHeader(base: byte, l: nat): seq<byte>
    requires base == RawBase || base == ArrayBase
    requires l < TwoTo64
  {
    if l < RlpShortLimit then [base + l]
    else
      var k := MinWidth(l);
      [base + 55 + k] + BE(l, k)
  }

  /** `msgpack_pack_raw` (its first band table): the header of a string of l bytes. */
  function RawHeader(l: nat): seq<byte>
    requires l < TwoTo64
  {
    RlpHeader(RawBase, l)
  }

  /** `msgpack_pack_array`: the header of a list whose encoded payload is l bytes long. */
  function ArrayHeader(l: nat): seq<byte>
    requires l < TwoTo64
  {
    RlpHeader(ArrayBase, l)
  }

  /**
   * Reference reader for an RLP prefix with the given base: a byte in
   * `base .. base + 55` holds the length itself; a byte `base + 55 + k`, k in
   * 1..8, is followed by the length in k big-endian bytes. Gives the length
   * and the size of the prefix.
   */
  function ReadRlpHeader(base: byte, s: seq<byte>): Option<(nat, nat)>
    requires base == RawBase || base == ArrayBase
  {
    if |s| == 0 || s[0] < base || s[0] >= base + 64 then None
    else if s[0] < base + 56 then Some((s[0] - base, 1))
    else
      var k := s[0] - base - 55;
      if |s| < 1 + k then None else Some((FromBE(s[1..1 + k]), 1 + k))
  }

  /**
   * The RLP header reads back as l whatever follows it, and is 1 + k bytes
   * long with k = 0 below 56 and the least width holding l otherwise.
   */
  lemma RlpHeaderReadBack(base: byte, l: nat, rest: seq<byte>)
    requires base == RawBase || base == ArrayBase
    requires l < TwoTo64
    ensures |RlpHeader(base, l)| == if l < RlpShortLimit then 1 else 1 + MinWidth(l)
    ensures ReadRlpHeader(base, RlpHeader(base, l) + rest) == Some((l, |RlpHeader(base, l)|))
  {
    var h := RlpHeader(base, l);
    if l >= RlpShortLimit {
      var k := MinWidth(l);
      Tagged(h[0], BE(l, k), rest);
      assert h + rest == [h[0]] + BE(l, k) + rest;
      FromBEOfBE(l, k);
    }
  }

  /**
   * Canonical form: every prefix that reads back as l is at least as long as
   * the packer's header for l, and one of the same length is that header.
   */
  lemma RlpHeaderCanonical(base: byte, s: seq<byte>, l: nat, n: nat)
    requires base == RawBase || base == ArrayBase
    requires ReadRlpHeader(base, s) == Some((l, n))
    ensures l < TwoTo64
    ensures |RlpHeader(base, l)| <= n
    ensures n == |RlpHeader(base, l)| ==> s[..n] == RlpHeader(base, l)
  {
    Pow256Values();
    if n > 1 {
      var k := n - 1;
      Pow256Monotonic(k, 8);
      MinWidthIsLeast(l, k);
      if n == |RlpHeader(base, l)| {
        BEOfFromBE(s[1..n]);
        assert s[..n] == [s[0]] + s[1..n];
      }
    }
  }

  /** A concrete case: a 60-byte string gets the prefix `b8 3c`. */
  lemma RawHeaderOf60()
    ensures RawHeader(60) == [0xb8, 60]
  {
    Pow256Values();
  }

  // ---------------------------------------------------------------------------
  // Map headers (msgpack_pack_map)

  /** `msgpack_pack_map`: `0x80 | n` below 16, else `0xde` and 2 bytes below 65536, else `0xdf` and 4 bytes. */
  function MapHeader(n: nat): seq<byte>
    requires n < TwoTo32
  {
    if n < 16 then [0x80 + n]
    else if n < TwoTo16 then [0xde] + BE(n, 2)
    else [0xdf] + BE(n, 4)
  }

  /** Reference reader for MessagePack map headers: fixmap `0x80..0x8f`, map16 `0xde`, map32 `0xdf`. */
  function ReadMapHeader(s: seq<byte>): Option<(nat, nat)>
  {
    if |s| == 0 then None
    else if 0x80 <= s[0] < 0x90 then Some((s[0] - 0x80, 1))
    else if s[0] == 0xde && |s| >= 3 then Some((FromBE(s[1..3]), 3))
    else if s[0] == 0xdf && |s| >= 5 then Some((FromBE(s[1..5]), 5))
    else None
  }

  /** The map header reads back as n whatever follows it. */
  lemma MapHeaderReadBack(n: nat, rest: seq<byte>)
    requires n < TwoTo32
    ensures ReadMapHeader(MapHeader(n) + rest) == Some((n, |MapHeader(n)|))
  {
    Pow256Values();
    if n >= TwoTo16 {
      Tagged(0xdf, BE(n, 4), rest);
      FromBEOfBE(n, 4);
    } else if n >= 16 {
      Tagged(0xde, BE(n, 2), rest);
      FromBEOfBE(n, 2);
    }
  }

  /** No map header that reads back as n is shorter than the packer's. */
  lemma MapHeaderMinimal(n: nat, s: seq<byte>, m: nat)
    requires n < TwoTo32
    requires ReadMapHeader(s) == Some((n, m))
    ensures |MapHeader(n)| <= m
  {
    Pow256Values();
  }

  // ---------------------------------------------------------------------------
  // Bin headers (msgpack_pack_bin)

  /**
   * `msgpack_pack_bin`: without `use_bin_type` the RLP string header;
   * otherwise `0xc4` and 1 byte below 256, `0xc5` and 2 bytes below 65536,
   * else `0xc6` and the length cast to 32 bits.
   */
  function BinHeader(useBinType: bool, l: nat): seq<byte>
    requires l < TwoTo64
  {
    if !useBinType then RawHeader(l)
    else if l < 0x100 then [0xc4, l]
    else if l < TwoTo16 then [0xc5] + BE(l, 2)
    else [0xc6] + BE(l % TwoTo32, 4)
  }

  /** Reference reader for MessagePack bin headers: `0xc4`, `0xc5`, `0xc6` with a 1-, 2- or 4-byte length. */
  function ReadBinHeader(s: seq<byte>): Option<(nat, nat)>
  {
    if |s| < 2 then None
    else if s[0] == 0xc4 then Some((s[1], 2))
    else if s[0] == 0xc5 && |s| >= 3 then Some((FromBE(s[1..3]), 3))
    else if s[0] == 0xc6 && |s| >= 5 then Some((FromBE(s[1..5]), 5))
    else None
  }

  /**
   * With `use_bin_type` the bin header reads back as l modulo 2^32 (the
   * 32-bit cast of the widest band) whatever follows it.
   */
  lemma BinHeaderReadBack(l: nat, rest: seq<byte>)
    requires l < TwoTo64
    ensures ReadBinHeader(BinHeader(true, l) + rest) == Some((l % TwoTo32, |BinHeader(true, l)|))
  {
    Pow256Values();
    var h := BinHeader(true, l);
    if l >= TwoTo16 {
      var v := l % TwoTo32;
      assert h == [0xc6] + BE(v, 4);
      Tagged(0xc6, BE(v, 4), rest);
      FromBEOfBE(v, 4);
    } else if l >= 0x100 {
      assert h == [0xc5] + BE(l, 2);
      Tagged(0xc5, BE(l, 2), rest);
      FromBEOfBE(l, 2);
      assert l % TwoTo32 == l;
    } else {
      assert h + rest == [0xc4, l] + rest;
    }
  }

  /** No bin header that reads back as l is shorter than the packer's. */
  lemma BinHeaderMinimal(l: nat, s: seq<byte>, m: nat)
    requires ReadBinHeader(s) == Some((l, m))
    ensures l < TwoTo32 && |BinHeader(true, l)| <= m
  {
    Pow256Values();
  }

  // ---------------------------------------------------------------------------
  // Ext headers (msgpack_pack_ext)

  /** `(unsigned char)typecode`: the byte of a signed 8-bit type code. */
  function TypecodeByte(typecode: int): byte
    requires -0x80 <= typecode < 0x80
  {
    typecode % 0x100
  }

  /** `(int8_t)b`: a byte read as a signed 8-bit integer. */
  function AsInt8(b: byte): (r: int)
    ensures -0x80 <= r < 0x80
  {
    if b < 0x80 then b else b - 0x100
  }

  /** The type-code byte written by the packer is read as the same signed type code. */
  lemma TypecodeRoundTrip(typecode: int)
    requires -0x80 <= typecode < 0x80
    ensures AsInt8(TypecodeByte(typecode)) == typecode
  {
    if typecode < 0 {
      ModOfNegative(typecode, 0x100);
    }
  }

  /**
   * `msgpack_pack_ext`: for l in {1, 2, 4, 8, 16} the two bytes
   * `0xd4..0xd8, typecode`; otherwise `0xc7`/`0xc8`/`0xc9`, a 1/2/4-byte
   * length (the widest cast to 32 bits) and the type code.
   */
  function ExtHeader(typecode: int, l: nat): seq<byte>
    requires -0x80 <= typecode < 0x80
    requires l < TwoTo64
  {
    var t := TypecodeByte(typecode);
    if l == 1 then [0xd4, t]
    else if l == 2 then [0xd5, t]
    else if l == 4 then [0xd6, t]
    else if l == 8 then [0xd7, t]
    else if l == 16 then [0xd8, t]
    else if l < 0x100 then [0xc7, l, t]
    else if l < TwoTo16 then [0xc8] + BE(l, 2) + [t]
    else [0xc9] + BE(l % TwoTo32, 4) + [t]
  }

  /** What an ext header announces: the signed type code, the data length, and the header's own size. */
  datatype ExtHead = ExtHead(typecode: int, length: nat, size: nat)

  /** Data length of the fixext tags `0xd4 + i`, i in 0..4. */
  function FixExtLength(i: nat): nat
    requires i < 5
  {
    if i == 0 then 1 else if i == 1 then 2 else if i == 2 then 4 else if i == 3 then 8 else 16
  }

  /** Reference reader for MessagePack ext headers: fixext `0xd4..0xd8`, ext8/16/32 `0xc7..0xc9`. */
  function ReadExtHeader(s: seq<byte>): Option<ExtHead>
  {
    if |s| < 2 then None
    else if 0xd4 <= s[0] <= 0xd8 then Some(ExtHead(AsInt8(s[1]), FixExtLength(s[0] - 0xd4), 2))
    else if s[0] == 0xc7 && |s| >= 3 then Some(ExtHead(AsInt8(s[2]), s[1], 3))
    else if s[0] == 0xc8 && |s| >= 4 then Some(ExtHead(AsInt8(s[3]), FromBE(s[1..3]), 4))
    else if s[0] == 0xc9 && |s| >= 6 then Some(ExtHead(AsInt8(s[5]), FromBE(s[1..5]), 6))
    else None
  }

  /**
   * The ext header reads back as the type code and as l (modulo 2^32 in the
   * widest band), and no ext header announcing the same type code and length
   * is shorter.
   */
  lemma ExtHeaderReadBack(typecode: int, l: nat, rest: seq<byte>, s: seq<byte>)
    requires -0x80 <= typecode < 0x80
    requires l < TwoTo64
    ensures ReadExtHeader(ExtHeader(typecode, l) + rest) == Some(ExtHead(typecode, l % TwoTo32, |ExtHeader(typecode, l)|))
    ensures l < TwoTo32 && ReadExtHeader(s).Some? && ReadExtHeader(s).value.length == l ==> |ExtHeader(typecode, l)| <= ReadExtHeader(s).value.size
  {
    Pow256Values();
    TypecodeRoundTrip(typecode);
    var h := ExtHeader(typecode, l);
    var t := TypecodeByte(typecode);
    if l >= TwoTo16 {
      assert h + rest == [0xc9] + BE(l % TwoTo32, 4) + ([t] + rest);
      Tagged(0xc9, BE(l % TwoTo32, 4), [t] + rest);
      FromBEOfBE(l % TwoTo32, 4);
    } else if l >= 0x100 {
      assert h + rest == [0xc8] + BE(l, 2) + ([t] + rest);
      Tagged(0xc8, BE(l, 2), [t] + rest);
      FromBEOfBE(l, 2);
    }
  }
}
