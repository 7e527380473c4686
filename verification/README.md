# msgpack-rlp core in Dafny

A model of the two self-contained pieces of a hybrid MessagePack / Ethereum
RLP codec for Python, with proofs about them.

- **The packer** (`msgpack_rlp/pack_template.h`). Each encoder appends one
  tag byte and 0–8 big-endian bytes to the packer's output buffer. The tag
  band is chosen by comparing the value with powers of two. Strings and lists
  get the length prefixes of Recursive Length Prefix (Ethereum Yellow Paper,
  Appendix B). Unsigned 64-bit integers use the same `0x80 + k` prefix. The
  other integers, maps, bin, ext, nil and booleans use MessagePack tags. The
  list header is written last: it is *inserted* at the offset where the
  list's payload began.
- **The unpacker's decisions** (`msgpack/unpack.h`). These are the frame and
  context records, and the schema ("sedes") resolver. The resolver walks a
  nested list of type tags using the item index of each open frame. It
  decides whether a string span is decoded as bytes (0), an unsigned 64-bit
  integer (1) or text (2). Also covered are the limit checks and the ext
  type-code split that the object callbacks make before building anything.

Modules:

- `Bytes` (bytes.dfy): bytes, fixed-width big-endian stores and their
  inverse, two's complement, and the least width holding a value.
- `PackFormat` (pack_format.dfy): every encoder as a pure function of the
  value. Beside each sits a reference reader for that header family, written
  from the formats' published layouts, with read-back and narrowest-band
  lemmas.
- `Rlp` (rlp.dfy): the Yellow Paper's `R_b` and `R_l`, defined
  independently, and lemmas that the packer's string, list and uint64 bytes
  are exactly these.
- `Packer` (packer.dfy): the packer object. A class whose `buf` field every
  `Pack*` method changes in place, plus two clients that frame a whole string
  and a whole list.
- `Unpack` (unpack.dfy): the records, the resolver (a loop proved against a
  recursive walk), and the callbacks' admission checks.

The buffer is `seq<byte>` with `byte` the integers 0..255. C's truncating
casts (`(uint16_t)`, `(uint32_t)`, `(unsigned char)`) are written out as
`%` where they can bite.

## Model

| member | source | states |
|---|---|---|
| Bytes.FromBEOfBE | msgpack_rlp/pack_template.h:123-126 | a k-byte big-endian store reads back as the stored value |
| Bytes.BEOfFromBE | msgpack_rlp/pack_template.h:123-126 | every k-byte string is the big-endian store of the value it reads as (stores are canonical at fixed width) |
| Bytes.TwosRoundTrip | msgpack_rlp/pack_template.h:195-223 | the k-byte two's-complement store of a signed d in range reads back as d |
| Bytes.MinWidth | msgpack_rlp/pack_template.h:99-181 | the width picked by the uint64/raw/array bands is in 1..8, holds n, and the next smaller width does not |
| Bytes.MinWidthIsLeast | msgpack_rlp/pack_template.h:99-181 | no width from 1 up that holds n is narrower than the chosen one |
| PackFormat.UnsignedEncodersReadBack | msgpack_rlp/pack_template.h:44-97 | uint8/16/32: d < 128 is the single byte d, a larger d gets a tag in 0xcc..0xcf; the encoding reads back as d whatever follows; no MessagePack integer reading as d is shorter |
| PackFormat.Uint16Of300 | msgpack_rlp/pack_template.h:56-71 | 300 is encoded `cd 01 2c` |
| PackFormat.SignedEncodersReadBack | msgpack_rlp/pack_template.h:183-263 | int8/16/32: d in [-32,127] is the single byte d mod 256, d < -32 gets a tag in 0xd0..0xd3, d >= 128 a tag in 0xcc..0xcf; the encoding reads back as d; no MessagePack integer reading as d is shorter |
| PackFormat.NegativeReadBack | msgpack_rlp/pack_template.h:267-291 | int64 below -32: tag 0xd0..0xd3 and a two's-complement payload that reads back as d |
| PackFormat.PositiveReadBack | msgpack_rlp/pack_template.h:295-320 | int64 from 128 up: tag 0xcc..0xcf and a big-endian payload that reads back as d |
| PackFormat.Int64ReadBack | msgpack_rlp/pack_template.h:265-321 | every 64-bit signed integer reads back from its encoding, whatever follows |
| PackFormat.Int64Minimal | msgpack_rlp/pack_template.h:265-321 | the band chosen is the narrowest: any MessagePack integer reading as d is at least as long |
| PackFormat.NarrowEncodersAgree | msgpack_rlp/pack_template.h:44-321 | each narrower encoder chooses the same bytes as the int64 encoder for every value of its type |
| PackFormat.Uint64ReadBack | msgpack_rlp/pack_template.h:99-181 | uint64: tag 0x80+k with k the least width, the payload reads back as d, no shorter such form reads as d |
| PackFormat.FloatReadBack | msgpack_rlp/pack_template.h:624-645 | float/double are always 5/9 bytes and the payload reads back as the bit pattern |
| PackFormat.RlpHeaderReadBack | msgpack_rlp/pack_template.h:827-913 | a string/list prefix is 1 byte below 56, else 1+k with k the least width; it reads back as l |
| PackFormat.RlpHeaderCanonical | msgpack_rlp/pack_template.h:687-776 | any prefix reading as l is at least as long as the packer's, and one of equal length is the packer's |
| PackFormat.RawHeaderOf60 | msgpack_rlp/pack_template.h:830-832 | a 60-byte string gets the prefix `b8 3c` |
| PackFormat.MapHeaderReadBack | msgpack_rlp/pack_template.h:797-811 | the map header reads back as n whatever follows |
| PackFormat.MapHeaderMinimal | msgpack_rlp/pack_template.h:797-811 | no map header reading as n is shorter |
| PackFormat.BinHeaderReadBack | msgpack_rlp/pack_template.h:1000-1012 | with use_bin_type the bin header reads back as l modulo 2^32 |
| PackFormat.BinHeaderMinimal | msgpack_rlp/pack_template.h:1000-1012 | no bin header reading as l is shorter |
| PackFormat.TypecodeRoundTrip | msgpack_rlp/pack_template.h:1024-1074 | the type-code byte written reads back, as a signed 8-bit value, as the type code |
| PackFormat.ExtHeaderReadBack | msgpack_rlp/pack_template.h:1024-1074 | the ext header reads back as the type code and l (mod 2^32 in the widest band); none announcing the same is shorter |
| PackFormat.AsInt8 | msgpack/unpack.h:401 | a byte read as signed 8-bit is in [-128,127] |
| Rlp.MinimalBEIsBE | msgpack_rlp/pack_template.h:99-181 | the Yellow Paper's minimal big-endian form is the packer's least-width store |
| Rlp.RawHeaderIsRlp | msgpack_rlp/pack_template.h:827-913 | header plus string is R_b of the string, except a single byte below 0x80, which gets an extra 0x81 prefix |
| Rlp.ArrayHeaderIsRlp | msgpack_rlp/pack_template.h:687-776 | list header plus payload is R_l of the payload |
| Rlp.Uint64IsRlp | msgpack_rlp/pack_template.h:99-181 | for d >= 1 the uint64 encoding is R_b of d's minimal big-endian form; 0 is `00` where RLP gives `80` |
| Packer.InsertAt | msgpack_rlp/pack_template.h:687-776 | an insertion keeps the prefix, places the data at the offset, and shifts the old tail after it |
| Packer.InsertsCommute | msgpack_rlp/pack_template.h:687-776 | nested list splices commute: an offset recorded earlier stays valid after a later splice at or after it |
| Packer.ArraySpliceIsRlpList | msgpack_rlp/pack_template.h:687-776 | splicing the list header where the payload began gives the old prefix plus R_l of the payload |
| Packer.Packer.PackUint8 | msgpack_rlp/pack_template.h:324-327 | appends the uint8 encoding of d and nothing else |
| Packer.Packer.PackUint16 | msgpack_rlp/pack_template.h:329-332 | appends the uint16 encoding of d |
| Packer.Packer.PackUint32 | msgpack_rlp/pack_template.h:334-337 | appends the uint32 encoding of d |
| Packer.Packer.PackUint64 | msgpack_rlp/pack_template.h:339-342 | appends the RLP-style uint64 encoding of d |
| Packer.Packer.PackInt8 | msgpack_rlp/pack_template.h:344-347 | appends the int8 encoding of d |
| Packer.Packer.PackInt16 | msgpack_rlp/pack_template.h:349-352 | appends the int16 encoding of d |
| Packer.Packer.PackInt32 | msgpack_rlp/pack_template.h:354-357 | appends the int32 encoding of d |
| Packer.Packer.PackInt64 | msgpack_rlp/pack_template.h:359-362 | appends the int64 encoding of d |
| Packer.Packer.PackFloat | msgpack_rlp/pack_template.h:624-631 | appends `ca` and the 32-bit pattern |
| Packer.Packer.PackDouble | msgpack_rlp/pack_template.h:633-645 | appends `cb` and the 64-bit pattern |
| Packer.Packer.PackNil | msgpack_rlp/pack_template.h:652-656 | appends `c0` |
| Packer.Packer.PackTrue | msgpack_rlp/pack_template.h:663-667 | appends `c3` |
| Packer.Packer.PackFalse | msgpack_rlp/pack_template.h:669-673 | appends `c2` |
| Packer.Packer.ClearSpotForStartByte | msgpack_rlp/pack_template.h:681-686 | appends one `00` byte |
| Packer.Packer.PackArray | msgpack_rlp/pack_template.h:687-776 | inserts the list header at `position`: bytes before it unchanged, header next, old tail after it unchanged |
| Packer.Packer.PackMap | msgpack_rlp/pack_template.h:797-811 | appends the map header of n |
| Packer.Packer.PackRaw | msgpack_rlp/pack_template.h:823-913 | appends the RLP string prefix of l |
| Packer.Packer.PackBin | msgpack_rlp/pack_template.h:996-1013 | appends the bin header; without use_bin_type exactly what PackRaw appends |
| Packer.Packer.PackRawBody | msgpack_rlp/pack_template.h:1015-1019 | appends the body (nothing when it is empty) |
| Packer.Packer.PackExt | msgpack_rlp/pack_template.h:1024-1074 | appends the ext header for the type code and length |
| Packer.PackString | msgpack_rlp/pack_template.h:823-913 | appends the string prefix then the body; this is R_b of the string, except a single byte below 0x80, which comes out as `81` then R_b |
| Packer.PackFramedList | msgpack_rlp/pack_template.h:681-776 | payload then spliced header leaves R_l of the payload in the buffer |
| Unpack.Context.Counts | msgpack/unpack.h:45-57 | one count per open frame, the i-th being frame i's item index |
| Unpack.GetCurrentItemType | msgpack/unpack.h:168-241 | the loop yields the recursive walk's result; 0 without a schema; an integer schema unchanged; a list schema with no open frame is an error |
| Unpack.WalkReachesLeaf | msgpack/unpack.h:191-233 | the walk consumes exactly one level per open frame and succeeds exactly when the node reached is an integer, with that tag |
| Unpack.NonListBeforeLastLevel | msgpack/unpack.h:193-205 | a non-list node reached before the last open frame is the "lists or integers" error (the line-195 check never fires) |
| Unpack.RepeatedSchemaIgnoresCounts | msgpack/unpack.h:208-211 | single-element lists as deep as the stack give every item the same tag whatever the counts |
| Unpack.SingletonLevel | msgpack/unpack.h:208-211 | a single-element list level is entered at its only element whatever the frame's count |
| Unpack.RepeatedPairs | msgpack/unpack.h:208-223 | schema `[[a,b]]`: every pair, whatever its index, has a at item 0 and b at item 1; item 2 is a mismatch |
| Unpack.IndexedLevel | msgpack/unpack.h:212-223 | at a level whose length is not 1 the element at the count is chosen; a count past the end is a dimension mismatch |
| Unpack.MismatchAtThirdItem | msgpack/unpack.h:212-223 | schema `[[a,b],[c]]` types items 0 and 1 of the first sublist as a and b and refuses item 2 |
| Unpack.ArrayStart | msgpack/unpack.h:245-259 | refused exactly when n exceeds max_array_len; otherwise a list of n slots when use_list, else a tuple of n slots |
| Unpack.MapStart | msgpack/unpack.h:310-327 | refused exactly when n exceeds max_map_len; otherwise a pair list of n slots with a pairs hook, else an empty dict |
| Unpack.RawDecode | msgpack/unpack.h:361-381 | refused exactly when l exceeds max_str_len; otherwise the given encoding, else bytes when raw, else UTF-8 |
| Unpack.BinValue | msgpack/unpack.h:383-395 | refused exactly when l exceeds max_bin_len; otherwise the span itself |
| Unpack.ExtDecode | msgpack/unpack.h:397-420 | refused without an ext hook, or when length-1 exceeds max_ext_len; otherwise the signed first byte and the remaining length-1 bytes |
| Unpack.ExtTypecodeRoundTrip | msgpack/unpack.h:397-420 | the type-code byte the packer writes followed by data comes back as the same type code and data |

## Left out

- The incremental decoder that pushes and pops frames and calls the callbacks lives in `unpack_template.h` and `unpack_define.h`. Those files are not part of this model. Only the records and the 1024 capacity are modelled.
- There is no whole-value `decode(encode(v)) == v`. The decoder is not part of the model, and the tag spaces overlap: `c0` is both nil and the empty-list header, and `0x80 | n` is both a short string and a fixmap. The read-back lemmas are per header family instead.
- `ReadInt`, `ReadRlpUint`, `ReadRlpHeader`, `ReadMapHeader`, `ReadBinHeader` and `ReadExtHeader` are reference readers written from the formats' layouts. They are not models of any decoder code.
- Python object construction, reference counting, and the list, object, pairs and ext hooks are foreign calls. They are left out. `NewContainer`, `RawDecoding` and `ExtValue` record only which object would be built, and from what.
- Text decoding (`PyUnicode_Decode`, `PyUnicode_DecodeUTF8`) is charset policy. Only the branch taken is modelled.
- The item callbacks and end callbacks (`unpack_callback_append_array_item`, `unpack_callback_array_item`, `unpack_callback_array_end`, `unpack_callback_map_item`, `unpack_callback_map_end`) only mutate Python objects, so they are left out.
- The scalar callbacks at msgpack/unpack.h:64-158 only construct Python objects, so they are left out.
- Float and double are modelled from their IEEE-754 bit pattern. The union type-punning and the arm-oabi word swap are left out.
- The `sizeof`-dispatch wrappers (`msgpack_pack_short`, `msgpack_pack_int`, `msgpack_pack_long` and the others) are preprocessor width selection. They are left out; the `real_*` encoders they select are modelled.
- `msgpack_pack_append_buffer` and `msgpack_pack_insert_buffer` are not part of this model. They are taken to append at the end and to insert at an offset. Buffer growth and allocation failure are left out.
- Packer.Packer.ClearSpotForStartByte: the model does not say what happens later to the `00` placeholder. Whether the insert overwrites it depends on the insert helper, which is not part of this model.
- Commented-out code (msgpack_rlp/pack_template.h:781-789 and 916-969) is left out.
- The second band table of `msgpack_pack_raw` (972-990) is treated as unreachable, on the reading that the append macro returns.
- Packer.Packer.PackBin: for l >= 2^32, the 32-bit length is `l mod 2^32`, as the C cast writes it. The model does not claim that this reads back as l.
- Packer.Packer.PackExt: for l >= 2^32, the 32-bit length is `l mod 2^32`, as the C cast writes it. The model does not claim that this reads back as l.
- Unpack.GetCurrentItemType: the tag is the schema's integer itself. The `PyLong_AsLong` conversion, the cast to C `int`, and the clash between a schema integer of -1 and the error return are not modelled.
- Unpack.ExtDecode: requires a span of length at least 1 that holds the type-code byte. For length 0 the source would read past the span, and `length-1` would wrap around.
