/**
 * The parts of msgpack/unpack.h that decide things without building Python
 * objects: the records of the unpacker's frame stack, the schema ("sedes")
 * resolver `get_current_item_type`, and the checks the object callbacks make
 * on a header before anything is built.
 *
 * The incremental decoder that pushes and pops frames lives in
 * unpack_template.h and unpack_define.h, which are not part of this model; so
 * are the Python objects themselves (`obj`, `map_key`, the hooks' results).
 */
module Unpack {
  import opened Bytes
  import opened Wrappers
  import opened PackFormat

  /** `MSGPACK_EMBED_STACK_SIZE`: the fixed capacity of the frame stack. */
  const StackCapacity: nat := 1024

  /** `unpack_stack`: one open container. `count` is the index of the item being decoded. */
  datatype Frame = Frame(size: int, count: nat, length: nat, startPointer: int, ct: nat)

  /** `unpack_context`: parser state, trailer count, depth and the fixed-size frame array. */
  datatype Context = Context(cs: nat, trail: nat, top: nat, stack: seq<Frame>)
  {
    /** The frame array has its fixed size and the depth never exceeds it. */
    predicate Valid() {
      |stack| == StackCapacity && top <= StackCapacity
    }

    /** The `count` of every open frame, outermost first. */
    function Counts(): (c: seq<nat>)
      requires Valid()
      ensures |c| == top
      ensures forall i :: 0 <= i < top ==> c[i] == stack[i].count
    {
      seq(top, i requires 0 <= i < top => stack[i].count)
    }
  }

  /**
   * A schema as the resolver sees it: a Python integer (a leaf type tag), a
   * Python list of schemas, or any other object.
   */
  datatype Sedes = Int(tag: int) | List(items: seq<Sedes>) | Other

  /** The type tags named at msgpack/unpack.h:166. */
  const BinaryTag: int := 0
  const Uint64Tag: int := 1
  const TextTag: int := 2

  /** Why a header or a schema lookup is refused. Each is a `ValueError` (or, for the hook, an `AssertionError`) in the source. */
  datatype UnpackError =
    | SedesNotListOrInt      // "Sedes can only be lists or integers"
    | SedesDimensionMismatch // "Sede list dimensions don't match data"
    | SedesShapeMismatch     // "There is a mismatch between the sedes and the data"
    | ExceedsMaxArrayLen
    | ExceedsMaxMapLen
    | ExceedsMaxStrLen
    | ExceedsMaxBinLen
    | ExceedsMaxExtLen
    | MissingExtHook

  // ---------------------------------------------------------------------------
  // The sedes resolver

  /**
   * Reference definition of the walk: consume one frame count per level,
   * outermost first. At each level the node must be a list; a list of length
   * one is entered at its only element whatever the count (repetition), any
   * other list at the element the count names. When every level is consumed
   * the node must be an integer, whose value is the tag.
   */
  function Walk(node: Sedes, counts: seq<nat>): Result<int, UnpackError>
    decreases |counts|
  {
    if counts == [] then
      if node.Int? then Ok(node.tag) else Err(SedesShapeMismatch)
    else if !node.List? then Err(SedesNotListOrInt)
    else if |node.items| == 1 then Walk(node.items[0], counts[1..])
    else if counts[0] < |node.items| then Walk(node.items[counts[0]], counts[1..])
    else Err(SedesDimensionMismatch)
  }

  /**
   * The tag for the item being decoded: binary without a schema, the schema
   * itself when it is an integer, otherwise the walk down the open frames.
   */
  function ItemType(root: Option<Sedes>, counts: seq<nat>): Result<int, UnpackError>
  {
    match root
    case None => Ok(BinaryTag)
    case Some(s) => if s.Int? then Ok(s.tag) else Walk(s, counts)
  }

  /**
   * `get_current_item_type`: the `for` loop over the open frames, updating
   * the cursor `current` from each frame's `count`. The check at the head of
   * every level after the first tests the root schema (not the cursor) for
   * being an integer; the root is known not to be one by then, so that check
   * never returns.
   */
  method GetCurrentItemType(root: Option<Sedes>, ctx: Context) returns (r: Result<int, UnpackError>)
    requires ctx.Valid()
    ensures r == ItemType(root, ctx.Counts())
    ensures root.None? ==> r == Ok(BinaryTag)
    ensures root.Some? && root.value.Int? ==> r == Ok(root.value.tag)
    ensures root.Some? && root.value.List? && ctx.top == 0 ==> r == Err(SedesShapeMismatch)
  {
    if root.None? {
      return Ok(BinaryTag);
    }
    var sedes := root.value;
    if sedes.Int? {
      return Ok(sedes.tag);
    }
    ghost var counts := ctx.Counts();
    var current := sedes;
    var i := 0;
    while i < ctx.top
      invariant 0 <= i <= ctx.top
      invariant Walk(sedes, counts) == Walk(current, counts[i..])
    {
      assert counts[i..][0] == ctx.stack[i].count && counts[i..][1..] == counts[i + 1..];
      if i != 0 && sedes.Int? {
        // the root, not the cursor, is tested here: unreachable
        assert false;
      }
      if !current.List? {
        return Err(SedesNotListOrInt);
      }
      var length := |current.items|;
      if length == 1 {
        current := current.items[0];
      } else {
        var index := ctx.stack[i].count;
        if length < index + 1 {
          return Err(SedesDimensionMismatch);
        }
        current := current.items[index];
      }
      i := i + 1;
    }
    if current.Int? {
      return Ok(current.tag);
    }
    return Err(SedesShapeMismatch);
  }

  /** The schema node reached after consuming `counts`, if every level is a list that has the element needed. */
  function Descend(node: Sedes, counts: seq<nat>): Option<Sedes>
    decreases |counts|
  {
    if counts == [] then Some(node)
    else if !node.List? then None
    else if |node.items| == 1 then Descend(node.items[0], counts[1..])
    else if counts[0] < |node.items| then Descend(node.items[counts[0]], counts[1..])
    else None
  }

  /**
   * The walk consumes exactly one level per open frame: it succeeds exactly
   * when the node reached after all of them is an integer, with that integer
   * as the tag. In particular a list reached at the last level is an error,
   * as is a non-list before it.
   */
  lemma {:induction false} WalkReachesLeaf(node: Sedes, counts: seq<nat>)
    ensures Walk(node, counts).Ok? <==> Descend(node, counts).Some? && Descend(node, counts).value.Int?
    ensures Walk(node, counts).Ok? ==> Walk(node, counts).value == Descend(node, counts).value.tag
    decreases |counts|
  {
    if counts != [] && node.List? {
      if |node.items| == 1 {
        WalkReachesLeaf(node.items[0], counts[1..]);
      } else if counts[0] < |node.items| {
        WalkReachesLeaf(node.items[counts[0]], counts[1..]);
      }
    }
  }

  /**
   * An integer (or any other non-list) reached before the last open frame is
   * the "lists or integers" error: the per-level integer check looks at the
   * root, so it never stops the walk early at a leaf.
   */
  lemma {:induction false} NonListBeforeLastLevel(node: Sedes, outer: seq<nat>, inner: seq<nat>)
    requires Descend(node, outer).Some? && !Descend(node, outer).value.List?
    requires inner != []
    ensures Walk(node, outer + inner) == Err(SedesNotListOrInt)
    decreases |outer|
  {
    if outer == [] {
      assert outer + inner == inner;
    } else {
      assert (outer + inner)[0] == outer[0] && (outer + inner)[1..] == outer[1..] + inner;
      if |node.items| == 1 {
        NonListBeforeLastLevel(node.items[0], outer[1..], inner);
      } else {
        NonListBeforeLastLevel(node.items[outer[0]], outer[1..], inner);
      }
    }
  }

  /** `depth` single-element lists around the leaf `tag`: `[[...[tag]...]]`. */
  function Repeated(tag: int, depth: nat): Sedes
  {
    if depth == 0 then Int(tag) else List([Repeated(tag, depth - 1)])
  }

  /**
   * Repetition: a schema of single-element lists as deep as the frame stack
   * gives every item the same tag, whatever the frames' counts, so `[[t]]`
   * types every element of a list of lists, however long.
   */
  lemma {:induction false} RepeatedSchemaIgnoresCounts(tag: int, counts: seq<nat>)
    ensures Walk(Repeated(tag, |counts|), counts) == Ok(tag)
    decreases |counts|
  {
    if counts != [] {
      RepeatedSchemaIgnoresCounts(tag, counts[1..]);
    }
  }

  /**
   * Repetition at one level: a single-element list is entered at its only
   * element whatever the frame's count.
   */
  lemma SingletonLevel(x: Sedes, count: nat, rest: seq<nat>)
    ensures Walk(List([x]), [count] + rest) == Walk(x, rest)
  {
    assert ([count] + rest)[1..] == rest;
  }

  /**
   * A schema `[[a, b]]` over a list of pairs: the outer level repeats, so
   * every pair, whatever its index n, has a at item 0 and b at item 1, and
   * a third item is a mismatch.
   */
  lemma RepeatedPairs(a: int, b: int, n: nat)
    ensures ItemType(Some(List([List([Int(a), Int(b)])])), [n, 0]) == Ok(a)
    ensures ItemType(Some(List([List([Int(a), Int(b)])])), [n, 1]) == Ok(b)
    ensures ItemType(Some(List([List([Int(a), Int(b)])])), [n, 2]) == Err(SedesDimensionMismatch)
  {
    var pair := List([Int(a), Int(b)]);
    SingletonLevel(pair, n, [0]);
    SingletonLevel(pair, n, [1]);
    SingletonLevel(pair, n, [2]);
    IndexedLevel([Int(a), Int(b)], 0, []);
    IndexedLevel([Int(a), Int(b)], 1, []);
    IndexedLevel([Int(a), Int(b)], 2, []);
    assert [n] + [0] == [n, 0] && [n] + [1] == [n, 1] && [n] + [2] == [n, 2];
  }

  /**
   * At a level whose list has a length other than one, the element at the
   * frame's count is chosen; a count past the end (an empty list included)
   * is a dimension mismatch.
   */
  lemma IndexedLevel(items: seq<Sedes>, count: nat, rest: seq<nat>)
    requires |items| != 1
    ensures count < |items| ==> Walk(List(items), [count] + rest) == Walk(items[count], rest)
    ensures count >= |items| ==> Walk(List(items), [count] + rest) == Err(SedesDimensionMismatch)
  {
    assert ([count] + rest)[1..] == rest;
  }

  /**
   * A schema `[[a, b], [c]]` over data whose first element has three items:
   * the first two resolve to a and b, the third is a mismatch.
   */
  lemma MismatchAtThirdItem(a: int, b: int, c: int)
    ensures ItemType(Some(List([List([Int(a), Int(b)]), List([Int(c)])])), [0, 0]) == Ok(a)
    ensures ItemType(Some(List([List([Int(a), Int(b)]), List([Int(c)])])), [0, 1]) == Ok(b)
    ensures ItemType(Some(List([List([Int(a), Int(b)]), List([Int(c)])])), [0, 2]) == Err(SedesDimensionMismatch)
  {
    var s := List([List([Int(a), Int(b)]), List([Int(c)])]);
    assert [0, 0][1..] == [0] && [0, 1][1..] == [1] && [0, 2][1..] == [2];
    assert [0][1..] == [] && [1][1..] == [] && [2][1..] == [];
  }

  // ---------------------------------------------------------------------------
  // Header admission in the object callbacks

  /** The Python container a header asks for. */
  datatype ContainerKind = ListKind | TupleKind | DictKind | PairListKind

  /** A container created for a header, with the number of slots it was created with. */
  datatype NewContainer = NewContainer(kind: ContainerKind, slots: nat)

  /** `unpack_user`: the decoding options; hooks are modelled only by whether they are set. */
  datatype UnpackUser = UnpackUser(
    useList: bool,
    raw: bool,
    hasPairsHook: bool,
    hasObjectHook: bool,
    hasListHook: bool,
    hasExtHook: bool,
    sedes: Option<Sedes>,
    encoding: Option<string>,
    unicodeErrors: Option<string>,
    maxStrLen: int,
    maxBinLen: int,
    maxArrayLen: int,
    maxMapLen: int,
    maxExtLen: int)

  /** `unpack_callback_array`: refuse more than `max_array_len` items, else a list or tuple of n slots. */
  function ArrayStart(u: UnpackUser, n: nat): (r: Result<NewContainer, UnpackError>)
    requires n < TwoTo32
    ensures r.Err? <==> n > u.maxArrayLen
    ensures r.Err? ==> r.error == ExceedsMaxArrayLen
    ensures r.Ok? ==> r.value.slots == n
    ensures r.Ok? && u.useList ==> r.value.kind == ListKind
    ensures r.Ok? && !u.useList ==> r.value.kind == TupleKind
  {
    if n > u.maxArrayLen then Err(ExceedsMaxArrayLen)
    else Ok(NewContainer(if u.useList then ListKind else TupleKind, n))
  }

  /** `unpack_callback_map`: refuse more than `max_map_len` pairs, else a pair list (with a pairs hook) or a dict. */
  function MapStart(u: UnpackUser, n: nat): (r: Result<NewContainer, UnpackError>)
    requires n < TwoTo32
    ensures r.Err? <==> n > u.maxMapLen
    ensures r.Err? ==> r.error == ExceedsMaxMapLen
    ensures r.Ok? && u.hasPairsHook ==> r.value.kind == PairListKind && r.value.slots == n
    ensures r.Ok? && !u.hasPairsHook ==> r.value.kind == DictKind && r.value.slots == 0
  {
    if n > u.maxMapLen then Err(ExceedsMaxMapLen)
    else if u.hasPairsHook then Ok(NewContainer(PairListKind, n))
    else Ok(NewContainer(DictKind, 0))
  }

  /** How `unpack_callback_raw` turns a string span into a Python object. */
  datatype RawDecoding =
    | DecodeWith(encoding: string, errors: Option<string>)  // PyUnicode_Decode with the given codec
    | AsBytes                                              // PyBytes_FromStringAndSize
    | AsUtf8(errors: Option<string>)                       // PyUnicode_DecodeUTF8

  /**
   * `unpack_callback_raw`: refuse more than `max_str_len` bytes; otherwise an
   * explicit encoding wins, then `raw` gives bytes, and UTF-8 text is the default.
   */
  function RawDecode(u: UnpackUser, l: nat): (r: Result<RawDecoding, UnpackError>)
    requires l < TwoTo32
    ensures r.Err? <==> l > u.maxStrLen
    ensures r.Err? ==> r.error == ExceedsMaxStrLen
    ensures r.Ok? ==> (r.value.DecodeWith? <==> u.encoding.Some?)
    ensures r.Ok? ==> (r.value.AsBytes? <==> u.encoding.None? && u.raw)
    ensures r.Ok? && r.value.DecodeWith? ==> r.value.encoding == u.encoding.value && r.value.errors == u.unicodeErrors
    ensures r.Ok? && r.value.AsUtf8? ==> r.value.errors == u.unicodeErrors
  {
    if l > u.maxStrLen then Err(ExceedsMaxStrLen)
    else if u.encoding.Some? then Ok(DecodeWith(u.encoding.value, u.unicodeErrors))
    else if u.raw then Ok(AsBytes)
    else Ok(AsUtf8(u.unicodeErrors))
  }

  /** `unpack_callback_bin`: refuse more than `max_bin_len` bytes, else the span itself as bytes. */
  function BinValue(u: UnpackUser, span: seq<byte>): (r: Result<seq<byte>, UnpackError>)
    requires |span| < TwoTo32
    ensures r.Err? <==> |span| > u.maxBinLen
    ensures r.Err? ==> r.error == ExceedsMaxBinLen
    ensures r.Ok? ==> r.value == span
  {
    if |span| > u.maxBinLen then Err(ExceedsMaxBinLen) else Ok(span)
  }

  /** What the ext hook is called with: the signed type code and the data after it. */
  datatype ExtValue = ExtValue(typecode: int, data: seq<byte>)

  /**
   * `unpack_callback_ext`: the span holds the type code byte and then the
   * data, so its length includes the type code. Refused without an ext hook,
   * or when the data (length - 1 bytes) exceeds `max_ext_len`.
   */
  function ExtDecode(u: UnpackUser, span: seq<byte>): (r: Result<ExtValue, UnpackError>)
    requires 1 <= |span| < TwoTo32
    ensures r.Err? <==> !u.hasExtHook || |span| - 1 > u.maxExtLen
    ensures !u.hasExtHook ==> r == Err(MissingExtHook)
    ensures u.hasExtHook && |span| - 1 > u.maxExtLen ==> r == Err(ExceedsMaxExtLen)
    ensures r.Ok? ==> -0x80 <= r.value.typecode < 0x80 && TypecodeByte(r.value.typecode) == span[0]
    ensures r.Ok? ==> r.value.data == span[1..] && |r.value.data| == |span| - 1
  {
    var typecode := AsInt8(span[0]);
    if !u.hasExtHook then Err(MissingExtHook)
    else if |span| - 1 > u.maxExtLen then Err(ExceedsMaxExtLen)
    else Ok(ExtValue(typecode, span[1..]))
  }

  /**
   * The type code the packer writes (`(unsigned char)typecode`) comes back
   * from the ext callback (`(int8_t)*pos`) as the same signed type code, with
   * the data that followed it.
   */
  lemma ExtTypecodeRoundTrip(u: UnpackUser, typecode: int, data: seq<byte>)
    requires -0x80 <= typecode < 0x80
    requires |data| + 1 < TwoTo32
    requires u.hasExtHook && |data| <= u.maxExtLen
    ensures ExtDecode(u, [TypecodeByte(typecode)] + data) == Ok(ExtValue(typecode, data))
  {
    TypecodeRoundTrip(typecode);
    assert ([TypecodeByte(typecode)] + data)[1..] == data;
  }
}
