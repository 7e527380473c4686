/**
 * The packer object of msgpack_rlp/pack_template.h: an output buffer that
 * every `msgpack_pack_*` function changes in place. All of them append their
 * bytes at the end, except `msgpack_pack_array`, which inserts the list
 * header at an earlier offset once the payload after it has been written.
 *
 * The buffer callbacks `msgpack_pack_append_buffer` and
 * `msgpack_pack_insert_buffer` are not part of this model; they are taken to
 * be append-at-end and insert-at-offset (AppendBuffer, InsertBuffer below),
 * with growth and allocation left to the host.
 */
module Packer {
  import opened Bytes
  import opened PackFormat
  import opened Rlp

  /**
   * `buf` with `data` inserted at `position`: the bytes before `position`
   * stay, `data` follows them, and the old tail follows `data`, shifted by
   * `|data|`.
   */
  function InsertAt(buf: seq<byte>, position: nat, data: seq<byte>): (r: seq<byte>)
    requires position <= |buf|
    ensures |r| == |buf| + |data|
    ensures r[..position] == buf[..position]
    ensures r[position..position + |data|] == data
    ensures r[position + |data|..] == buf[position..]
  {
    buf[..position] + data + buf[position..]
  }

  /**
   * Nested lists: inserting an inner header at q and then an outer header at
   * an earlier (or the same) offset p gives the same buffer as inserting the
   * outer one first and the inner one at q shifted by the outer header. An
   * offset recorded before a later splice at or after it stays valid.
   */
  lemma InsertsCommute(buf: seq<byte>, p: nat, q: nat, outer: seq<byte>, inner: seq<byte>)
    requires p <= q <= |buf|
    ensures InsertAt(InsertAt(buf, q, inner), p, outer) == InsertAt(InsertAt(buf, p, outer), q + |outer|, inner)
  {
    var b := InsertAt(buf, p, outer);
    assert b[..q + |outer|] == buf[..p] + outer + buf[p..q];
    assert b[q + |outer|..] == buf[q..];
    assert InsertAt(buf, q, inner)[..p] == buf[..p];
    assert InsertAt(buf, q, inner)[p..] == buf[p..q] + inner + buf[q..];
  }

  /**
   * Splicing the list header for a payload at the offset where the payload
   * begins turns the buffer into its old prefix followed by the RLP list
   * serialisation of the payload.
   */
  lemma ArraySpliceIsRlpList(prefix: seq<byte>, payload: seq<byte>)
    requires |payload| < TwoTo64
    ensures InsertAt(prefix + payload, |prefix|, ArrayHeader(|payload|)) == prefix + RlpList(payload)
  {
    ArrayHeaderIsRlp(payload);
    assert (prefix + payload)[..|prefix|] == prefix;
    assert (prefix + payload)[|prefix|..] == payload;
  }

  class Packer {
    /** The bytes written so far. */
    var buf: seq<byte>
    /** `x->use_bin_type`: bin values get MessagePack bin headers rather than RLP string headers. */
    const useBinType: bool

    constructor (useBinType: bool)
      ensures buf == [] && this.useBinType == useBinType
    {
      buf := [];
      this.useBinType := useBinType;
    }

    /** `msgpack_pack_append_buffer`: append at the end. */
    method AppendBuffer(data: seq<byte>)
      modifies this
      ensures buf == old(buf) + data
    {
      buf := buf + data;
    }

    /** `msgpack_pack_insert_buffer`: insert at an earlier offset, shifting the tail. */
    method InsertBuffer(data: seq<byte>, position: nat)
      requires position <= |buf|
      modifies this
      ensures buf == InsertAt(old(buf), position, data)
    {
      buf := InsertAt(buf, position, data);
    }

    method PackUint8(d: nat)
      requires d < 0x100
      modifies this
      ensures buf == old(buf) + Uint8Bytes(d)
    {
      AppendBuffer(Uint8Bytes(d));
    }

    method PackUint16(d: nat)
      requires d < TwoTo16
      modifies this
      ensures buf == old(buf) + Uint16Bytes(d)
    {
      AppendBuffer(Uint16Bytes(d));
    }

    method PackUint32(d: nat)
      requires d < TwoTo32
      modifies this
      ensures buf == old(buf) + Uint32Bytes(d)
    {
      AppendBuffer(Uint32Bytes(d));
    }

    method PackUint64(d: nat)
      requires d < TwoTo64
      modifies this
      ensures buf == old(buf) + Uint64Bytes(d)
    {
      AppendBuffer(Uint64Bytes(d));
    }

    method PackInt8(d: int)
      requires -0x80 <= d < 0x80
      modifies this
      ensures buf == old(buf) + Int8Bytes(d)
    {
      AppendBuffer(Int8Bytes(d));
    }

    method PackInt16(d: int)
      requires -0x8000 <= d < 0x8000
      modifies this
      ensures buf == old(buf) + Int16Bytes(d)
    {
      AppendBuffer(Int16Bytes(d));
    }

    method PackInt32(d: int)
      requires -0x8000_0000 <= d < 0x8000_0000
      modifies this
      ensures buf == old(buf) + Int32Bytes(d)
    {
      AppendBuffer(Int32Bytes(d));
    }

    method PackInt64(d: int)
      requires -0x8000_0000_0000_0000 <= d < 0x8000_0000_0000_0000
      modifies this
      ensures buf == old(buf) + Int64Bytes(d)
    {
      AppendBuffer(Int64Bytes(d));
    }

    /** `msgpack_pack_float`, given the IEEE-754 single-precision bit pattern. */
    method PackFloat(bits: nat)
      requires bits < TwoTo32
      modifies this
      ensures buf == old(buf) + FloatBytes(bits)
    {
      AppendBuffer(FloatBytes(bits));
    }

    /** `msgpack_pack_double`, given the IEEE-754 double-precision bit pattern. */
    method PackDouble(bits: nat)
      requires bits < TwoTo64
      modifies this
      ensures buf == old(buf) + DoubleBytes(bits)
    {
      AppendBuffer(DoubleBytes(bits));
    }

    method PackNil()
      modifies this
      ensures buf == old(buf) + [NilTag]
    {
      AppendBuffer([NilTag]);
    }

    method PackTrue()
      modifies this
      ensures buf == old(buf) + [TrueTag]
    {
      AppendBuffer([TrueTag]);
    }

    method PackFalse()
      modifies this
      ensures buf == old(buf) + [FalseTag]
    {
      AppendBuffer([FalseTag]);
    }

    /** `msgpack_clear_spot_for_start_byte`: reserve one byte (0x00) where a list will begin. */
    method ClearSpotForStartByte()
      modifies this
      ensures buf == old(buf) + [0x00]
    {
      AppendBuffer([0x00]);
    }

    /**
     * `msgpack_pack_array`: once the list's payload of l bytes is written,
     * insert its RLP list header at `position`. The bytes before `position`
     * are unchanged and the old tail follows the header unchanged.
     */
    method PackArray(l: nat, position: nat)
      requires l < TwoTo64
      requires position <= |buf|
      modifies this
      ensures buf == InsertAt(old(buf), position, ArrayHeader(l))
      ensures buf[..position] == old(buf)[..position]
      ensures buf[position..position + |ArrayHeader(l)|] == ArrayHeader(l)
      ensures buf[position + |ArrayHeader(l)|..] == old(buf)[position..]
    {
      InsertBuffer(ArrayHeader(l), position);
    }

    /** `msgpack_pack_map`: the header of a map of n pairs. */
    method PackMap(n: nat)
      requires n < TwoTo32
      modifies this
      ensures buf == old(buf) + MapHeader(n)
    {
      AppendBuffer(MapHeader(n));
    }

    /** `msgpack_pack_raw`: the RLP string header of a string of l bytes. */
    method PackRaw(l: nat)
      requires l < TwoTo64
      modifies this
      ensures buf == old(buf) + RawHeader(l)
    {
      AppendBuffer(RawHeader(l));
    }

    /** `msgpack_pack_bin`: the string header unless `use_bin_type`, else a MessagePack bin header. */
    method PackBin(l: nat)
      requires l < TwoTo64
      modifies this
      ensures buf == old(buf) + BinHeader(useBinType, l)
      ensures !useBinType ==> buf == old(buf) + RawHeader(l)
    {
      if !useBinType {
        PackRaw(l);
        return;
      }
      AppendBuffer(BinHeader(true, l));
    }

    /** `msgpack_pack_raw_body`: the payload bytes, appended only when there are any. */
    method PackRawBody(body: seq<byte>)
      modifies this
      ensures buf == old(buf) + body
    {
      if |body| > 0 {
        AppendBuffer(body);
      }
    }

    /** `msgpack_pack_ext`: the ext header for type code `typecode` and l data bytes. */
    method PackExt(typecode: int, l: nat)
      requires -0x80 <= typecode < 0x80
      requires l < TwoTo64
      modifies this
      ensures buf == old(buf) + ExtHeader(typecode, l)
    {
      AppendBuffer(ExtHeader(typecode, l));
    }
  }

  /**
   * A string packed as its header then its body leaves the RLP serialisation
   * of the string in the buffer, except for a single byte below 0x80, which
   * RLP writes bare and the packer after a `0x81` prefix.
   */
  method PackString(p: Packer, x: seq<byte>)
    requires |x| < TwoTo64
    modifies p
    ensures p.buf == old(p.buf) + RawHeader(|x|) + x
    ensures !(|x| == 1 && x[0] < 0x80) ==> p.buf == old(p.buf) + RlpBytes(x)
    ensures |x| == 1 && x[0] < 0x80 ==> p.buf == old(p.buf) + [0x81] + RlpBytes(x)
  {
    p.PackRaw(|x|);
    p.PackRawBody(x);
    RawHeaderIsRlp(x);
  }

  /**
   * A list framed by splicing: the payload is appended after `position`, then
   * the header is inserted at `position`. The buffer ends with the RLP list
   * serialisation of the payload. This client does not reserve the `0x00`
   * byte that `msgpack_clear_spot_for_start_byte` writes before the payload,
   * since what the insert does with that byte is not part of this model.
   */
  method PackFramedList(p: Packer, payload: seq<byte>)
    requires |payload| < TwoTo64
    modifies p
    ensures p.buf == old(p.buf) + RlpList(payload)
  {
    var position := |p.buf|;
    p.PackRawBody(payload);
    p.PackArray(|payload|, position);
    ArraySpliceIsRlpList(old(p.buf), payload);
  }
}
