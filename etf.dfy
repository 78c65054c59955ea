/**
 * Version-header handling of Pyrlang/Dist/etf.py around the decoder.
 *
 * `binary_to_term` checks the version byte, sends a compressed payload
 * through zlib and checks its declared size, and otherwise strips the one
 * header byte before calling `binary_to_term_2`.  With the native extension
 * loaded, `binary_to_term_2` is `wrap_bin_to_term`, which turns the
 * decoder's `(value, index)` cursor result into `(value, tail)`.
 */
module Etf {
  import opened Wrappers
  import opened ByteCodec
  import opened Tags
  import opened Terms
  import opened Options
  import opened Decoder

  /** The exceptions `binary_to_term` raises, and the decoder's own errors passed through. */
  datatype EtfError =
    | IndexOutOfRange                  // the input is too short to hold the byte being inspected
    | UnsupportedVersion               // the first byte is not the version byte
    | TruncatedSize                    // fewer than four size bytes follow the compressed tag
    | CorruptCompressed                // the decompressor rejected the payload
    | SizeMismatch                     // the decompressed length differs from the declared size
    | DecodeFailed(error: DecodeError)

  /** `wrap_bin_to_term`: decode one term at offset 0 and return it with the unconsumed tail. */
  function WrapBinToTerm(data: seq<byte>, opts: DecodeOptions): (r: Result<(Term, seq<byte>), DecodeError>)
    ensures r.Ok? <==> Decode(data, 0, opts).Ok?
    ensures r.Err? ==> r.error == Decode(data, 0, opts).error
    ensures r.Ok? ==>
      && |r.value.1| < |data|
      && data == data[..|data| - |r.value.1|] + r.value.1
      && Decode(data, 0, opts).value == (r.value.0, |data| - |r.value.1|)
  {
    var decoded :- Decode(data, 0, opts);
    assert data == data[..decoded.1] + data[decoded.1..];
    Ok((decoded.0, data[decoded.1..]))
  }

  /** `binary_to_term_2` bound to the native decoder, with the options read from the optional dictionary. */
  function BinaryToTerm2(data: seq<byte>, options: Option<map<string, bool>>): (r: Result<(Term, seq<byte>), EtfError>)
    ensures r.Ok? <==> Decode(data, 0, FromArgument(options)).Ok?
    ensures r.Ok? ==>
      && r.value.0 == Decode(data, 0, FromArgument(options)).value.0
      && r.value.1 == data[Decode(data, 0, FromArgument(options)).value.1..]
    ensures r.Err? ==> r.error == DecodeFailed(Decode(data, 0, FromArgument(options)).error)
  {
    match WrapBinToTerm(data, FromArgument(options))
    case Ok(v) => Ok(v)
    case Err(e) => Err(DecodeFailed(e))
  }

  /**
   * `binary_to_term`.  Decompression is a parameter: `inflate` stands for
   * zlib's `decompressobj`, giving the decompressed bytes or None when the
   * payload is corrupt.
   */
  function BinaryToTerm(data: seq<byte>, options: Option<map<string, bool>>,
                        inflate: seq<byte> -> Option<seq<byte>>): (r: Result<(Term, seq<byte>), EtfError>)
    ensures |data| == 0 ==> r == Err(IndexOutOfRange)
    ensures |data| > 0 && data[0] != EtfVersionTag ==> r == Err(UnsupportedVersion)
    ensures |data| == 1 && data[0] == EtfVersionTag ==> r == Err(IndexOutOfRange)
    ensures r.Ok? ==> |data| >= 2 && data[0] == EtfVersionTag
    ensures 2 <= |data| < 6 && data[0] == EtfVersionTag && data[1] == TagCompressed ==> r == Err(TruncatedSize)
    ensures |data| >= 2 && data[0] == EtfVersionTag && data[1] != TagCompressed ==>
      r == BinaryToTerm2(data[1..], options)
    ensures |data| >= 6 && data[0] == EtfVersionTag && data[1] == TagCompressed ==>
      && (r == Err(CorruptCompressed) <==> inflate(data[6..]).None?)
      && (r == Err(SizeMismatch) <==>
            inflate(data[6..]).Some? && |inflate(data[6..]).value| != BigEndianU32(data, 2))
      && (inflate(data[6..]).Some? && |inflate(data[6..]).value| == BigEndianU32(data, 2) ==>
            r == BinaryToTerm2(inflate(data[6..]).value, options))
  {
    if |data| == 0 then Err(IndexOutOfRange)
    else if data[0] != EtfVersionTag then Err(UnsupportedVersion)
    else if |data| == 1 then Err(IndexOutOfRange)
    else if data[1] == TagCompressed then
      if |data| < 6 then Err(TruncatedSize)
      else
        var declaredSize := BigEndianU32(data, 2);
        match inflate(data[6..])
        case None => Err(CorruptCompressed)
        case Some(decompressed) =>
          if |decompressed| != declaredSize then Err(SizeMismatch)
          else BinaryToTerm2(decompressed, options)
    else BinaryToTerm2(data[1..], options)
  }

  /** `term_to_binary`: the version byte followed by what `term_to_binary_2` encodes. */
  function TermToBinary<V>(val: V, termToBinary2: V -> seq<byte>): (r: seq<byte>)
    ensures |r| == |termToBinary2(val)| + 1
    ensures r[0] == EtfVersionTag && r[1..] == termToBinary2(val)
  {
    [EtfVersionTag] + termToBinary2(val)
  }

  /** Stripping the header undoes prepending it, for every payload that is not a compressed marker. */
  lemma HeaderRoundTrip(payload: seq<byte>, options: Option<map<string, bool>>,
                        inflate: seq<byte> -> Option<seq<byte>>)
    requires |payload| > 0 && payload[0] != TagCompressed
    ensures BinaryToTerm([EtfVersionTag] + payload, options, inflate) == BinaryToTerm2(payload, options)
  {
    assert ([EtfVersionTag] + payload)[1..] == payload;
  }

  /**
   * An encoding that the decoder reads back as `t`, consuming all of it, comes
   * back from `binary_to_term` as `t` with an empty tail once `term_to_binary`
   * has added its header.
   */
  lemma HeaderedPayload(payload: seq<byte>, t: Term, options: Option<map<string, bool>>,
                        inflate: seq<byte> -> Option<seq<byte>>)
    requires Decode(payload, 0, FromArgument(options)) == Ok((t, |payload|))
    ensures BinaryToTerm([EtfVersionTag] + payload, options, inflate) == Ok((t, []))
  {
    assert Supported(payload[0]);
    HeaderRoundTrip(payload, options, inflate);
    assert payload[|payload|..] == [];
    assert WrapBinToTerm(payload, FromArgument(options)) == Ok((t, []));
  }

  lemma TermToBinaryRoundTrip<V>(val: V, termToBinary2: V -> seq<byte>, t: Term,
                                 options: Option<map<string, bool>>, inflate: seq<byte> -> Option<seq<byte>>)
    requires Decode(termToBinary2(val), 0, FromArgument(options)) == Ok((t, |termToBinary2(val)|))
    ensures BinaryToTerm(TermToBinary(val, termToBinary2), options, inflate) == Ok((t, []))
  {
    HeaderedPayload(termToBinary2(val), t, options, inflate);
  }
}
