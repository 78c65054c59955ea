/**
 * The tag-dispatch decoder over the tag table of native_src/library.h.
 *
 * `Decode(buf, i, opts)` reads one term starting at offset `i` and returns it
 * with the offset just past it (the `(value, index)` cursor result that
 * Pyrlang/Dist/etf.py consumes), or the error that stopped it.  Every length
 * field is checked against the remaining buffer before the bytes it announces
 * are sliced.  Multi-byte fields are big-endian numbers, which is what the
 * ByteCodec readers return on either host byte order.
 */
module Decoder {
  import opened Wrappers
  import opened ByteCodec
  import opened Tags
  import opened Terms
  import opened Options

  datatype DecodeError =
    | IncompleteData(context: string)   // a declared or implicit length runs past the buffer
    | UnsupportedTag(tag: byte)         // a tag outside the decoded set

  /** A decoded value with the offset just past its last byte. */
  type Decoded<T> = Result<(T, nat), DecodeError>

  const TrueName: seq<byte> := [116, 114, 117, 101]
  const FalseName: seq<byte> := [102, 97, 108, 115, 101]
  const UndefinedName: seq<byte> := [117, 110, 100, 101, 102, 105, 110, 101, 100]

  /** The tags the decoder turns into a term; every other byte is an unsupported tag. */
  predicate Supported(tag: byte)
  {
    tag in {TagSmallInt, TagInt, TagNewFloatExt, TagAtomExt, TagAtomUtf8Ext, TagSmallAtomExt,
            TagSmallAtomUtf8Ext, TagNilExt, TagStringExt, TagListExt, TagMapExt, TagSmallTupleExt,
            TagLargeTupleExt, TagBinaryExt, TagBitBinaryExt, TagPidExt, TagNewRefExt}
  }

  /** Two's-complement reading of a 32-bit pattern. */
  function SignedI32(u: nat): (v: int)
    requires u < 0x1_0000_0000
    ensures -0x8000_0000 <= v < 0x8000_0000
    ensures v % 0x1_0000_0000 == u
  {
    if u < 0x8000_0000 then u else u - 0x1_0000_0000
  }

  /** The atom names that become a boolean or `Undefined` rather than an atom. */
  predicate Reserved(name: seq<byte>)
  {
    name == TrueName || name == FalseName || name == UndefinedName
  }

  /** The term an atom name becomes: the three reserved names first, then the atoms-as-strings option. */
  function AtomTerm(name: seq<byte>, encoding: Encoding, opts: DecodeOptions): (t: Term)
    ensures AtomName(t) == Some(name)
    ensures t.Boolean? <==> name == TrueName || name == FalseName
    ensures t.Undefined? <==> name == UndefinedName
    ensures t.Text? <==> opts.atomsAsStrings && !Reserved(name)
    ensures t.Atom? <==> !opts.atomsAsStrings && !Reserved(name)
    ensures t.Text? || t.Atom? ==> t.encoding == encoding
  {
    if name == TrueName then Boolean(true)
    else if name == FalseName then Boolean(false)
    else if name == UndefinedName then Undefined
    else if opts.atomsAsStrings then Text(name, encoding)
    else Atom(name, encoding)
  }

  /** The atom name a term was made from, if it was made from one. */
  function AtomName(t: Term): Option<seq<byte>>
  {
    match t
    case Boolean(b) => Some(if b then TrueName else FalseName)
    case Undefined => Some(UndefinedName)
    case Text(chars, _) => Some(chars)
    case Atom(name, _) => Some(name)
    case _ => None
  }

  /** A binary's payload, with its bit count unless binaries are read as bytes. */
  function BinaryTerm(payload: seq<byte>, lastByteBits: nat, opts: DecodeOptions): (t: Term)
    ensures t.Bytes? <==> opts.binariesAsBytes
    ensures t.Binary? <==> !opts.binariesAsBytes
    ensures (t.Bytes? || t.Binary?) && t.bytes == payload
    ensures t.Binary? ==> t.lastByteBits == lastByteBits
  {
    if opts.binariesAsBytes then Bytes(payload) else Binary(payload, lastByteBits)
  }

  /** SMALL_INTEGER_EXT (one unsigned byte) and INTEGER_EXT (four bytes, signed). */
  function DecodeInteger(buf: seq<byte>, i: nat): (r: Decoded<Term>)
    requires i < |buf| && (buf[i] == TagSmallInt || buf[i] == TagInt)
    ensures r.Ok? ==> i < r.value.1 <= |buf|
    ensures buf[i] == TagSmallInt ==> (r.Ok? <==> i + 2 <= |buf|)
    ensures buf[i] == TagInt ==> (r.Ok? <==> i + 5 <= |buf|)
    ensures r.Err? ==> r.error.IncompleteData?
    ensures r.Ok? ==> r.value.0.Integer?
    ensures r.Ok? && buf[i] == TagSmallInt ==> r.value.1 == i + 2 && r.value.0.value == buf[i + 1]
    ensures r.Ok? && buf[i] == TagInt ==>
      && r.value.1 == i + 5
      && -0x8000_0000 <= r.value.0.value < 0x8000_0000
      && r.value.0.value % 0x1_0000_0000 == BigEndianU32(buf, i + 1)
  {
    if buf[i] == TagSmallInt then
      if i + 2 > |buf| then Err(IncompleteData("decoding a small integer"))
      else Ok((Integer(buf[i + 1]), i + 2))
    else
      if i + 5 > |buf| then Err(IncompleteData("decoding a 32-bit integer"))
      else Ok((Integer(SignedI32(BigEndianU32(buf, i + 1))), i + 5))
  }

  /** NEW_FLOAT_EXT: eight bytes, kept as the bit pattern of the double. */
  function DecodeFloat(buf: seq<byte>, i: nat): (r: Decoded<Term>)
    requires i < |buf| && buf[i] == TagNewFloatExt
    ensures r.Ok? <==> i + 9 <= |buf|
    ensures r.Err? ==> r.error.IncompleteData?
    ensures r.Ok? ==> i < r.value.1 <= |buf|
    ensures r.Ok? ==> r.value.1 == i + 9 && r.value.0.Float? && r.value.0.bits == BigEndianU64(buf, i + 1)
  {
    if i + 9 > |buf| then Err(IncompleteData("decoding a float"))
    else Ok((Float(BigEndianU64(buf, i + 1)), i + 9))
  }

  /** ATOM_EXT and SMALL_ATOM_EXT names are Latin-1, the two UTF-8 atom tags' names are UTF-8. */
  function AtomEncoding(tag: byte): Encoding
  {
    if tag == TagAtomExt || tag == TagSmallAtomExt then Latin1 else Utf8
  }

  /** Bytes before an atom's name: tag and two-byte length, or tag and one-byte length. */
  function AtomHeader(tag: byte): nat
  {
    if tag == TagAtomExt || tag == TagAtomUtf8Ext then 3 else 2
  }

  /** ATOM_EXT and ATOM_UTF8_EXT (two-byte length), SMALL_ATOM_EXT and SMALL_ATOM_UTF8_EXT (one-byte length). */
  function DecodeAtom(buf: seq<byte>, i: nat, opts: DecodeOptions): (r: Decoded<Term>)
    requires i < |buf|
    requires buf[i] in {TagAtomExt, TagAtomUtf8Ext, TagSmallAtomExt, TagSmallAtomUtf8Ext}
    ensures buf[i] == TagAtomExt || buf[i] == TagAtomUtf8Ext ==>
      (r.Ok? <==> i + 3 <= |buf| && i + 3 + BigEndianU16(buf, i + 1) <= |buf|)
    ensures buf[i] == TagSmallAtomExt || buf[i] == TagSmallAtomUtf8Ext ==>
      (r.Ok? <==> i + 2 <= |buf| && i + 2 + buf[i + 1] <= |buf|)
    ensures r.Err? ==> r.error.IncompleteData?
    ensures r.Ok? ==> i < r.value.1 <= |buf|
    ensures r.Ok? && (buf[i] == TagAtomExt || buf[i] == TagAtomUtf8Ext) ==>
      && i + 3 <= r.value.1
      && r.value.1 == i + 3 + BigEndianU16(buf, i + 1)
      && r.value.0 == AtomTerm(buf[i + 3..r.value.1], AtomEncoding(buf[i]), opts)
    ensures r.Ok? && (buf[i] == TagSmallAtomExt || buf[i] == TagSmallAtomUtf8Ext) ==>
      && i + 2 <= r.value.1
      && r.value.1 == i + 2 + buf[i + 1]
      && r.value.0 == AtomTerm(buf[i + 2..r.value.1], AtomEncoding(buf[i]), opts)
  {
    var tag := buf[i];
    var encoding := AtomEncoding(tag);
    var header := AtomHeader(tag);
    if i + header > |buf| then Err(IncompleteData("decoding length for an atom"))
    else
      var len := if header == 3 then BigEndianU16(buf, i + 1) else buf[i + 1];
      var start := i + header;
      if start + len > |buf| then Err(IncompleteData("decoding text for an atom"))
      else Ok((AtomTerm(buf[start..start + len], encoding, opts), start + len))
  }

  /** STRING_EXT: two-byte length and that many raw bytes, read as text. */
  function DecodeString(buf: seq<byte>, i: nat): (r: Decoded<Term>)
    requires i < |buf| && buf[i] == TagStringExt
    ensures r.Ok? <==> i + 3 <= |buf| && i + 3 + BigEndianU16(buf, i + 1) <= |buf|
    ensures r.Err? ==> r.error.IncompleteData?
    ensures r.Ok? ==> i < r.value.1 <= |buf|
    ensures r.Ok? ==>
      && i + 3 <= r.value.1
      && r.value.1 == i + 3 + BigEndianU16(buf, i + 1)
      && r.value.0 == Text(buf[i + 3..r.value.1], Latin1)
  {
    if i + 3 > |buf| then Err(IncompleteData("decoding length for a string"))
    else
      var len := BigEndianU16(buf, i + 1);
      if i + 3 + len > |buf| then Err(IncompleteData("decoding text for a string"))
      else Ok((Text(buf[i + 3..i + 3 + len], Latin1), i + 3 + len))
  }

  /** BINARY_EXT (four-byte length) and BIT_BINARY_EXT (four-byte length, then the bit count of the last byte). */
  function DecodeBinary(buf: seq<byte>, i: nat, opts: DecodeOptions): (r: Decoded<Term>)
    requires i < |buf| && (buf[i] == TagBinaryExt || buf[i] == TagBitBinaryExt)
    ensures buf[i] == TagBinaryExt ==> (r.Ok? <==> i + 5 <= |buf| && i + 5 + BigEndianU32(buf, i + 1) <= |buf|)
    ensures buf[i] == TagBitBinaryExt ==> (r.Ok? <==> i + 6 <= |buf| && i + 6 + BigEndianU32(buf, i + 1) <= |buf|)
    ensures r.Err? ==> r.error.IncompleteData?
    ensures r.Ok? ==> i < r.value.1 <= |buf|
    ensures r.Ok? ==> (r.value.0.Binary? || r.value.0.Bytes?) && (r.value.0.Bytes? <==> opts.binariesAsBytes)
    ensures r.Ok? && buf[i] == TagBinaryExt ==>
      && i + 5 <= r.value.1
      && r.value.1 == i + 5 + BigEndianU32(buf, i + 1)
      && r.value.0.bytes == buf[i + 5..r.value.1]
      && (r.value.0.Binary? ==> r.value.0.lastByteBits == 8)
    ensures r.Ok? && buf[i] == TagBitBinaryExt ==>
      && i + 6 <= r.value.1
      && r.value.1 == i + 6 + BigEndianU32(buf, i + 1)
      && r.value.0.bytes == buf[i + 6..r.value.1]
      && (r.value.0.Binary? ==> r.value.0.lastByteBits == buf[i + 5])
  {
    var header := if buf[i] == TagBinaryExt then 5 else 6;
    if i + header > |buf| then Err(IncompleteData("decoding length for a binary"))
    else
      var len := BigEndianU32(buf, i + 1);
      var bits := if header == 5 then 8 else buf[i + 5];
      var start := i + header;
      if start + len > |buf| then Err(IncompleteData("reading data for a binary"))
      else Ok((BinaryTerm(buf[start..start + len], bits, opts), start + len))
  }

  /**
   * One term at offset `i`.  On success the offset moves forward by at least
   * one byte and stays within the buffer; a tag outside the supported set is
   * reported as itself.
   */
  function Decode(buf: seq<byte>, i: nat, opts: DecodeOptions): (r: Decoded<Term>)
    decreases |buf| - i, 1, 1
    ensures r.Ok? ==> i < r.value.1 <= |buf|
    ensures r.Ok? ==> Supported(buf[i])
    ensures i < |buf| && !Supported(buf[i]) ==> r == Err(UnsupportedTag(buf[i]))
  {
    if i >= |buf| then Err(IncompleteData("no data remaining"))
    else DecodeTagged(buf, i, opts)
  }

  /** The term whose tag byte is at `i`, dispatched on that tag. */
  function DecodeTagged(buf: seq<byte>, i: nat, opts: DecodeOptions): (r: Decoded<Term>)
    requires i < |buf|
    decreases |buf| - i, 1, 0
    ensures r.Ok? ==> i < r.value.1 <= |buf|
    ensures r.Ok? ==> Supported(buf[i])
    ensures !Supported(buf[i]) ==> r == Err(UnsupportedTag(buf[i]))
    ensures buf[i] == TagNilExt ==> r == Ok((Nil, i + 1))
  {
    var tag := buf[i];
    if tag == TagSmallInt || tag == TagInt then DecodeInteger(buf, i)
    else if tag == TagNewFloatExt then DecodeFloat(buf, i)
    else if tag in {TagAtomExt, TagAtomUtf8Ext, TagSmallAtomExt, TagSmallAtomUtf8Ext} then DecodeAtom(buf, i, opts)
    else if tag == TagNilExt then Ok((Nil, i + 1))
    else if tag == TagStringExt then DecodeString(buf, i)
    else if tag == TagBinaryExt || tag == TagBitBinaryExt then DecodeBinary(buf, i, opts)
    else if tag == TagListExt then DecodeList(buf, i, opts)
    else if tag == TagMapExt then DecodeMap(buf, i, opts)
    else if tag == TagSmallTupleExt || tag == TagLargeTupleExt then DecodeTuple(buf, i, opts)
    else if tag == TagPidExt then DecodePid(buf, i, opts)
    else if tag == TagNewRefExt then DecodeRef(buf, i, opts)
    else Err(UnsupportedTag(tag))
  }

  /** `n` consecutive terms starting at `i`. */
  function DecodeSeq(buf: seq<byte>, i: nat, n: nat, opts: DecodeOptions): (r: Decoded<seq<Term>>)
    requires i <= |buf|
    decreases |buf| - i, 2, n
    ensures r.Ok? ==> i <= r.value.1 <= |buf| && |r.value.0| == n
    ensures r.Ok? && n > 0 ==> i < r.value.1
    ensures n > 0 && Decode(buf, i, opts).Err? ==> r == Err(Decode(buf, i, opts).error)
    ensures n > 0 && Decode(buf, i, opts).Ok? && RestOfSeq(buf, i, n, opts).Err? ==>
      r == Err(RestOfSeq(buf, i, n, opts).error)
  {
    if n == 0 then Ok(([], i))
    else
      var head :- Decode(buf, i, opts);
      var rest :- DecodeSeq(buf, head.1, n - 1, opts);
      Ok(([head.0] + rest.0, rest.1))
  }

  /** `n` consecutive key/value pairs of terms starting at `i`. */
  function DecodePairs(buf: seq<byte>, i: nat, n: nat, opts: DecodeOptions): (r: Decoded<seq<(Term, Term)>>)
    requires i <= |buf|
    decreases |buf| - i, 2, n
    ensures r.Ok? ==> i <= r.value.1 <= |buf| && |r.value.0| == n
    ensures r.Ok? && n > 0 ==> i < r.value.1
    ensures n > 0 && Decode(buf, i, opts).Err? ==> r == Err(Decode(buf, i, opts).error)
    ensures n > 0 && Decode(buf, i, opts).Ok? ==>
      var value := Decode(buf, Decode(buf, i, opts).value.1, opts);
      && (value.Err? ==> r == Err(value.error))
      && (value.Ok? && RestOfPairs(buf, i, n, opts).Err? ==> r == Err(RestOfPairs(buf, i, n, opts).error))
  {
    if n == 0 then Ok(([], i))
    else
      var key :- Decode(buf, i, opts);
      var value :- Decode(buf, key.1, opts);
      var rest :- DecodePairs(buf, value.1, n - 1, opts);
      Ok(([(key.0, value.0)] + rest.0, rest.1))
  }

  /** The `n - 1` terms after the first of a run of `n` that starts at `i`. */
  function RestOfSeq(buf: seq<byte>, i: nat, n: nat, opts: DecodeOptions): Decoded<seq<Term>>
    requires i <= |buf| && n > 0 && Decode(buf, i, opts).Ok?
    decreases |buf| - i, 1, n + 1
  {
    DecodeSeq(buf, Decode(buf, i, opts).value.1, n - 1, opts)
  }

  /** The `n - 1` pairs after the first key and value of a run of `n` that starts at `i`. */
  function RestOfPairs(buf: seq<byte>, i: nat, n: nat, opts: DecodeOptions): Decoded<seq<(Term, Term)>>
    requires i <= |buf| && n > 0 && Decode(buf, i, opts).Ok?
    requires Decode(buf, Decode(buf, i, opts).value.1, opts).Ok?
    decreases |buf| - i, 1, n + 1
  {
    DecodePairs(buf, Decode(buf, Decode(buf, i, opts).value.1, opts).value.1, n - 1, opts)
  }

  /** LIST_EXT: four-byte count, that many elements, then one tail term. */
  function DecodeList(buf: seq<byte>, i: nat, opts: DecodeOptions): (r: Decoded<Term>)
    requires i < |buf| && buf[i] == TagListExt
    decreases |buf| - i, 0, 0
    ensures i + 5 > |buf| ==> r.Err? && r.error.IncompleteData?
    ensures r.Ok? ==> i < r.value.1 <= |buf|
    ensures r.Ok? ==> i + 5 <= r.value.1 && r.value.0.List? && |r.value.0.items| == BigEndianU32(buf, i + 1)
    ensures i + 5 <= |buf| ==>
      var items := DecodeSeq(buf, i + 5, BigEndianU32(buf, i + 1), opts);
      && (items.Err? ==> r == Err(items.error))
      && (items.Ok? && Decode(buf, items.value.1, opts).Err? ==> r == Err(Decode(buf, items.value.1, opts).error))
  {
    if i + 5 > |buf| then Err(IncompleteData("decoding length for a list"))
    else
      var items :- DecodeSeq(buf, i + 5, BigEndianU32(buf, i + 1), opts);
      var tail :- Decode(buf, items.1, opts);
      Ok((List(items.0, tail.0), tail.1))
  }

  /** MAP_EXT: four-byte pair count, then that many key/value pairs. */
  function DecodeMap(buf: seq<byte>, i: nat, opts: DecodeOptions): (r: Decoded<Term>)
    requires i < |buf| && buf[i] == TagMapExt
    decreases |buf| - i, 0, 0
    ensures i + 5 > |buf| ==> r.Err? && r.error.IncompleteData?
    ensures r.Ok? ==> i < r.value.1 <= |buf|
    ensures r.Ok? ==> i + 5 <= r.value.1 && r.value.0.Map? && |r.value.0.pairs| == BigEndianU32(buf, i + 1)
    ensures i + 5 <= |buf| ==>
      var pairs := DecodePairs(buf, i + 5, BigEndianU32(buf, i + 1), opts);
      pairs.Err? ==> r == Err(pairs.error)
  {
    if i + 5 > |buf| then Err(IncompleteData("decoding length for a map"))
    else
      var pairs :- DecodePairs(buf, i + 5, BigEndianU32(buf, i + 1), opts);
      Ok((Map(pairs.0), pairs.1))
  }

  /** SMALL_TUPLE_EXT (one-byte arity) and LARGE_TUPLE_EXT (four-byte arity), then the elements. */
  function DecodeTuple(buf: seq<byte>, i: nat, opts: DecodeOptions): (r: Decoded<Term>)
    requires i < |buf| && (buf[i] == TagSmallTupleExt || buf[i] == TagLargeTupleExt)
    decreases |buf| - i, 0, 0
    ensures i + (if buf[i] == TagSmallTupleExt then 2 else 5) > |buf| ==> r.Err? && r.error.IncompleteData?
    ensures r.Ok? ==> i < r.value.1 <= |buf|
    ensures r.Ok? && buf[i] == TagSmallTupleExt ==> i + 2 <= r.value.1 && r.value.0.Tuple? && |r.value.0.elements| == buf[i + 1]
    ensures r.Ok? && buf[i] == TagLargeTupleExt ==> i + 5 <= r.value.1 && r.value.0.Tuple? && |r.value.0.elements| == BigEndianU32(buf, i + 1)
    ensures buf[i] == TagSmallTupleExt && i + 2 <= |buf| ==>
      var elements := DecodeSeq(buf, i + 2, buf[i + 1], opts);
      elements.Err? ==> r == Err(elements.error)
    ensures buf[i] == TagLargeTupleExt && i + 5 <= |buf| ==>
      var elements := DecodeSeq(buf, i + 5, BigEndianU32(buf, i + 1), opts);
      elements.Err? ==> r == Err(elements.error)
  {
    var header := if buf[i] == TagSmallTupleExt then 2 else 5;
    if i + header > |buf| then Err(IncompleteData("decoding arity for a tuple"))
    else
      var arity := if header == 2 then buf[i + 1] else BigEndianU32(buf, i + 1);
      var elements :- DecodeSeq(buf, i + header, arity, opts);
      Ok((Tuple(elements.0), elements.1))
  }

  /** PID_EXT: the node term, then id (four bytes), serial (four bytes) and creation (one byte). */
  function DecodePid(buf: seq<byte>, i: nat, opts: DecodeOptions): (r: Decoded<Term>)
    requires i < |buf| && buf[i] == TagPidExt
    decreases |buf| - i, 0, 0
    ensures r.Ok? ==> i < r.value.1 <= |buf|
    ensures r.Ok? <==> Decode(buf, i + 1, opts).Ok? && Decode(buf, i + 1, opts).value.1 + 9 <= |buf|
    ensures Decode(buf, i + 1, opts).Err? ==> r == Err(Decode(buf, i + 1, opts).error)
    ensures Decode(buf, i + 1, opts).Ok? && Decode(buf, i + 1, opts).value.1 + 9 > |buf| ==>
      r.Err? && r.error.IncompleteData?
    ensures r.Ok? ==>
      var m := Decode(buf, i + 1, opts).value.1;
      && r.value.1 == m + 9
      && r.value.0 == Pid(Decode(buf, i + 1, opts).value.0, BigEndianU32(buf, m), BigEndianU32(buf, m + 4), buf[m + 8])
  {
    var node :- Decode(buf, i + 1, opts);
    var k := node.1;
    var end: nat := k + 9;
    if end > |buf| then Err(IncompleteData("decoding id, serial and creation for a pid"))
    else Ok((Pid(node.0, BigEndianU32(buf, k), BigEndianU32(buf, k + 4), buf[k + 8]), end))
  }

  /** NEW_REFERENCE_EXT: two-byte id length, the node term, one creation byte, then 4 bytes per id word. */
  function DecodeRef(buf: seq<byte>, i: nat, opts: DecodeOptions): (r: Decoded<Term>)
    requires i < |buf| && buf[i] == TagNewRefExt
    decreases |buf| - i, 0, 0
    ensures r.Ok? ==> i < r.value.1 <= |buf|
    ensures i + 3 > |buf| ==> r.Err? && r.error.IncompleteData?
    ensures i + 3 <= |buf| && Decode(buf, i + 3, opts).Err? ==> r == Err(Decode(buf, i + 3, opts).error)
    ensures i + 3 <= |buf| && Decode(buf, i + 3, opts).Ok? &&
            Decode(buf, i + 3, opts).value.1 + 1 + 4 * BigEndianU16(buf, i + 1) > |buf| ==>
      r.Err? && r.error.IncompleteData?
    ensures r.Ok? <==>
      && i + 3 <= |buf|
      && Decode(buf, i + 3, opts).Ok?
      && Decode(buf, i + 3, opts).value.1 + 1 + 4 * BigEndianU16(buf, i + 1) <= |buf|
    ensures r.Ok? ==>
      var m := Decode(buf, i + 3, opts).value.1;
      && r.value.1 == m + 1 + 4 * BigEndianU16(buf, i + 1)
      && r.value.0 == Reference(Decode(buf, i + 3, opts).value.0, buf[m], buf[m + 1..r.value.1])
  {
    if i + 3 > |buf| then Err(IncompleteData("decoding length for a reference"))
    else
      var words := BigEndianU16(buf, i + 1);
      var node := Decode(buf, i + 3, opts);
      if node.Err? then Err(node.error)
      else
        var k := node.value.1;
        var end := k + 1 + 4 * words;
        if end > |buf| then Err(IncompleteData("decoding id for a reference"))
        else Ok((Reference(node.value.0, buf[k], buf[k + 1..end]), end))
  }
}
