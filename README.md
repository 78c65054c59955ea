# Pyrlang ETF decoding, modelled in Dafny

Pyrlang speaks the Erlang distribution protocol from Python.  Terms travel
between nodes in the External Term Format (ETF): a version byte 131, then
one tagged term.  Pyrlang can decode them with a native extension.  This
model covers the path a binary takes on the way in:

* `byte_codec.dfy` (module `ByteCodec`) models the byte reader of the
  native extension.  It loads `width` bytes in host order, then swaps
  them unless the host is big-endian.  The model proves that on either
  host byte order the readers return the big-endian number written in
  the buffer (`BigEndianU16/32/64`).
* `tags.dfy` (module `Tags`) holds the version byte and the twenty tag
  constants of the native header, and proves them pairwise distinct.
* `terms.dfy` (module `Terms`) holds the decoded term.
* `options.dfy` (module `Options`) models the decoder options.  There are
  two flags, `binaries_as_bytes` and `atoms_as_strings`, both off by
  default.  The native `B2TOptions` is a class whose `Parse` overwrites
  the flags whose keys are in a dictionary, next to the value-level
  `Parsed` and its lemmas.
* `native_module.dfy` (module `NativeModule`) models how
  `binary_to_term_2` checks its arguments.  It takes one or two
  arguments: the first must be bytes, and the optional second is `None`
  or an options dictionary.
* `decoder.dfy` (module `Decoder`) is a tag-dispatch decoder over the tag
  table.  `Decode(buf, i, opts)` reads one term at offset `i` and returns
  the term and the offset after it.  It errs with `IncompleteData` when
  the buffer ends early, and with `UnsupportedTag` on any other tag.
* `decoder_locality.dfy` (module `DecoderLocality`) proves that the decoder
  reads only the bytes it consumes.  Trailing bytes therefore never change
  a result, and cutting a buffer inside a term gives `IncompleteData`.
  This is what lets `binary_to_term` hand the rest of the buffer back as
  the tail.
* `decoder_contents.dfy` (module `DecoderContents`) says what the compound
  terms hold.  It describes a run of terms as a chain of offsets, each term
  starting where the previous one ended.  It proves that the runs the
  decoder reads are exactly those chains, and states lists, maps and
  tuples through them.
* `etf.dfy` (module `Etf`) models the Python entry points.
  `binary_to_term` checks the version byte, hands compressed payloads to
  an inflater, and strips the header.  The native wrapper returns the
  term and the unread tail.  `term_to_binary` prepends the version byte.
* `decode_vectors.dfy` (module `DecodeVectors`) states the inputs and
  outputs of the decode tests about the model.

## Model

| member | source | states |
|---|---|---|
| ByteCodec.ByteSwap | native_src/byte_codec.h:35-39 | reversing the byte order of a `width`-byte value gives a value that still fits in `width` bytes |
| ByteCodec.ByteSwapInvolutive | native_src/byte_codec.h:35-39 | swapping the bytes twice restores any value that fits in `width` bytes |
| ByteCodec.UnalignedRead | native_src/byte_codec.h:50-54 | a load of `width` bytes at `i` needs `i + width` within the buffer and yields a value below 256^width |
| ByteCodec.BigToNative | native_src/byte_codec.h:27-40 | on a big-endian host the value is unchanged; on a little-endian host swapping the result's bytes gives the value back; either way the result still fits in `width` bytes |
| ByteCodec.BigToNativeOfLoad | native_src/byte_codec.h:27-54 | on a big-endian and on a little-endian host alike, converting a load from big-endian gives the big-endian value of exactly the bytes `i .. i+width` |
| ByteCodec.BigEndianU16 | native_src/byte_codec.h:56-60 | the big-endian 16-bit number at `i` is below 2^16 |
| ByteCodec.BigEndianU32 | native_src/byte_codec.h:63-67 | the big-endian 32-bit number at `i` is below 2^32 |
| ByteCodec.BigEndianU64 | native_src/byte_codec.h:70-74 | the big-endian 64-bit number at `i` is below 2^64 |
| ByteCodec.ReadBigU16 | native_src/byte_codec.h:56-60 | `read_big_u16` returns `buf[i]*256 + buf[i+1]` whatever the host byte order |
| ByteCodec.ReadBigU32 | native_src/byte_codec.h:63-67 | `read_big_u32` returns the big-endian number in bytes `i .. i+4` whatever the host byte order |
| ByteCodec.ReadBigU64 | native_src/byte_codec.h:70-74 | `read_big_u64` returns the big-endian number in bytes `i .. i+8` whatever the host byte order |
| ByteCodec.ReadBigFloat64 | native_src/byte_codec.h:77-81 | the bit pattern `read_big_float64` reinterprets is the same 64-bit big-endian number that `read_big_u64` returns |
| Tags.TagsDistinct | native_src/library.h:70-91 | the version byte and the twenty tag values are pairwise distinct, so dispatching on a tag is unambiguous |
| Options.Defaults | native_src/library.h:16-18 | a fresh option set has `binaries_as_bytes` and `atoms_as_strings` both false |
| Options.Parsed | native_src/library.cpp:6-13 | a dictionary holding both keys sets both flags to its values whatever they were; a dictionary holding neither leaves the options unchanged |
| Options.FromArgument | native_src/library.cpp:35-41 | each flag is true exactly when a dictionary was passed, holds the flag's key, and maps it to true; with no dictionary both flags are false |
| Options.ParsedSetsPresentKeys | native_src/library.cpp:7-12 | a flag whose key is in the dictionary takes the dictionary's value |
| Options.ParsedKeepsAbsentKeys | native_src/library.cpp:7-12 | a flag whose key is absent keeps its previous value |
| Options.ParsedIgnoresOtherKeys | native_src/library.cpp:6-13 | adding or changing any key other than the two option names does not change the result |
| Options.ParsedIdempotent | native_src/library.cpp:6-13 | parsing the same dictionary twice gives what parsing it once gives |
| Options.B2TOptions.constructor | native_src/library.h:16-18 | a new options object holds the defaults |
| Options.B2TOptions.Parse | native_src/library.cpp:6-13 | each flag becomes the dictionary's value when its key is present and keeps its old value otherwise; the new state is `Parsed` of the old one |
| NativeModule.BinaryToTerm2Arguments | native_src/library.cpp:32-41 | fewer than one or more than two arguments is an argument-count error; a first argument that is not bytes is a type error, and so is a second argument that is neither `None` nor a dictionary; otherwise the data is the bytes and the options are `FromArgument` of the second argument (none when it is missing or `None`); it succeeds exactly when the count and the first argument are right and the second is absent, `None` or a dictionary |
| Decoder.SignedI32 | native_src/library.h:76 | the two's-complement reading of a 32-bit pattern lies in the signed 32-bit range and is congruent to the pattern modulo 2^32 |
| Decoder.AtomTerm | native_src/library.h:78-91 | the name can be read back from the term; `true` and `false` become booleans and `undefined` becomes `Undefined` exactly for those names; any other name becomes text exactly when `atoms_as_strings` is set and an atom otherwise, keeping its encoding |
| Decoder.BinaryTerm | native_src/library.h:73-85 | a binary payload becomes raw bytes exactly when `binaries_as_bytes` is set and a binary with the given last-byte bit count otherwise; either way it carries exactly the payload |
| Decoder.DecodeInteger | native_src/library.h:75-76 | SMALL_INTEGER_EXT succeeds exactly when 2 bytes are present and INTEGER_EXT exactly when 5 are; otherwise the error is incomplete data; on success SMALL_INTEGER_EXT yields its unsigned byte and consumes 2 bytes, and INTEGER_EXT yields the signed 32-bit value congruent to the big-endian word and consumes 5 |
| Decoder.DecodeFloat | native_src/library.h:72 | NEW_FLOAT_EXT succeeds exactly when 9 bytes are present, else the error is incomplete data; on success it consumes 9 bytes and keeps the big-endian 64-bit pattern after the tag |
| Decoder.DecodeAtom | native_src/library.h:78-91 | each atom tag succeeds exactly when its length field and the name it announces fit in the buffer, else the error is incomplete data; on success it consumes the header and the name, and the term is `AtomTerm` of exactly those name bytes, with Latin-1 for ATOM_EXT and SMALL_ATOM_EXT and UTF-8 for the two UTF-8 tags |
| Decoder.DecodeString | native_src/library.h:83 | STRING_EXT succeeds exactly when its two-byte length and that many bytes fit, else the error is incomplete data; on success it consumes 3 bytes plus the length, and the text is exactly those bytes |
| Decoder.DecodeBinary | native_src/library.h:73-85 | BINARY_EXT and BIT_BINARY_EXT succeed exactly when the header and the payload their four-byte length announces fit, else the error is incomplete data; on success the payload is exactly those bytes; it is raw bytes exactly when `binaries_as_bytes` is set, and otherwise a binary whose last byte has 8 bits or the bit count in the header |
| Decoder.Decode | Pyrlang/Dist/etf.py:58-60 | reading one term at an offset either fails or moves the offset forward within the buffer; success implies a supported tag; an unsupported tag is reported as itself |
| Decoder.DecodeTagged | native_src/library.h:72-91 | the dispatch over the tag table: success implies the tag is in the supported set, NIL_EXT is the empty list in one byte, and any other tag is an `UnsupportedTag` error naming it |
| Decoder.DecodeSeq | native_src/library.h:84 | `n` consecutive terms: on success exactly `n` of them, ending within the buffer and past the start when `n > 0`; an error from the first term, or from the rest of the run after it, is returned unchanged (what they are is stated by `DecoderContents.SeqIsChain`) |
| Decoder.DecodePairs | native_src/library.h:89 | `n` key/value pairs: on success exactly `n` of them, ending within the buffer; an error from the first key, from its value, or from the rest of the run is returned unchanged (what they are is stated by `DecoderContents.PairsIsChain`) |
| Decoder.DecodeList | native_src/library.h:84 | LIST_EXT with fewer than 5 bytes is incomplete data; an error from an element or from the tail term is returned unchanged; on success a list with as many elements as its four-byte count (elements and tail are stated by `DecoderContents.ListContents`) |
| Decoder.DecodeMap | native_src/library.h:89 | MAP_EXT with fewer than 5 bytes is incomplete data; an error from a key or value is returned unchanged; on success a map with as many pairs as its four-byte count (the pairs are stated by `DecoderContents.MapContents`) |
| Decoder.DecodeTuple | native_src/library.h:80-81 | SMALL_TUPLE_EXT and LARGE_TUPLE_EXT with a header that does not fit are incomplete data; an error from an element is returned unchanged; on success a tuple whose arity is the one-byte or four-byte count (the elements are stated by `DecoderContents.TupleContents`) |
| Decoder.DecodePid | native_src/library.h:79 | PID_EXT succeeds exactly when the node term decodes at `i + 1` and 9 more bytes follow it; a failing node term passes its error on, and missing bytes are incomplete data; on success the pid is that node, id and serial from the two big-endian words after it, and creation from the byte after those, ending 9 bytes past the node |
| Decoder.DecodeRef | native_src/library.h:87 | NEW_REFERENCE_EXT with fewer than 3 bytes is incomplete data; it succeeds exactly when the node term decodes at `i + 3` and a creation byte plus 4 bytes per id word follow it; a failing node term passes its error on, and a creation byte or id words running past the buffer are incomplete data; on success the reference is that node, the creation byte after it and exactly the id bytes after that |
| DecoderContents.SeqIsChain | native_src/library.h:80-84 | `DecodeSeq` reads the terms `ts` from `i` to `j` exactly when there are `n` of them and they lie one after another, each decoding where the previous one ended, from `i` to `j` |
| DecoderContents.PairsIsChain | native_src/library.h:89 | `DecodePairs` reads the pairs `ps` from `i` to `j` exactly when there are `n` of them and their keys and values lie alternately one after another from `i` to `j` |
| DecoderContents.ListContents | native_src/library.h:84 | LIST_EXT reads as `t` ending at `j` exactly when the header fits and `t` is a list whose elements lie one after another from `i + 5`, as many as the four-byte count, followed by the tail term, which ends at `j` |
| DecoderContents.MapContents | native_src/library.h:89 | MAP_EXT reads as `t` ending at `j` exactly when the header fits and `t` is a map of as many pairs as the four-byte count, whose keys and values lie one after another from `i + 5` to `j` |
| DecoderContents.TupleContents | native_src/library.h:80-81 | a tuple tag reads as `t` ending at `j` exactly when the header fits and `t` is a tuple of the declared arity whose elements lie one after another from just past the header to `j` |
| DecoderLocality.DecodeLocal | Pyrlang/Dist/etf.py:58-60 | a buffer that agrees with another on the bytes a successful decode consumed decodes the same, or runs out of data if it is shorter |
| DecoderLocality.TaggedLocal | native_src/library.h:72-91 | the same for every branch of the tag dispatch |
| DecoderLocality.SeqLocal | native_src/library.h:84 | the same for a run of `n` terms |
| DecoderLocality.PairsLocal | native_src/library.h:89 | the same for a run of `n` pairs |
| DecoderLocality.ListLocal | native_src/library.h:84 | the same for a list |
| DecoderLocality.MapLocal | native_src/library.h:89 | the same for a map |
| DecoderLocality.TupleLocal | native_src/library.h:80-81 | the same for a tuple |
| DecoderLocality.PidLocal | native_src/library.h:79 | the same for a pid |
| DecoderLocality.RefLocal | native_src/library.h:87 | the same for a reference |
| DecoderLocality.DecodeIgnoresTrailingBytes | Pyrlang/Dist/etf.py:58-60 | appending bytes after a successfully decoded term does not change the term or the end offset |
| DecoderLocality.DecodeTruncatedIsIncomplete | Pyrlang/Dist/etf.py:58-60 | cutting the buffer anywhere before the end of a decodable term gives an incomplete-data error |
| DecoderLocality.WrapReturnsFollowingBytes | Pyrlang/Dist/etf.py:55-60 | a term followed by arbitrary bytes comes back as that term with exactly those bytes as the tail |
| Etf.WrapBinToTerm | Pyrlang/Dist/etf.py:55-60 | succeeds exactly when the decoder does, with the same error otherwise; on success the tail is the input after the consumed bytes |
| Etf.BinaryToTerm2 | Pyrlang/Dist/etf.py:55-63 | with the options `FromArgument` gives, it succeeds exactly when the decoder does at offset 0; the result is the decoded term and the bytes after the consumed ones; a decoder error is passed on wrapped |
| Etf.BinaryToTerm | Pyrlang/Dist/etf.py:71-92 | empty data, or the version byte alone, is an index error; a first byte other than 131 is an unsupported-version error; success needs the version byte and a second byte; a compressed marker followed by fewer than four size bytes is a truncated-size error; an uncompressed payload is decoded after the header is stripped; a compressed one is a corrupt-data error when inflating the bytes after the 32-bit size fails, a size-mismatch error when the inflated length differs from that size, and is otherwise decoded from the inflated bytes |
| Etf.TermToBinary | Pyrlang/Dist/etf.py:98-102 | the encoding is the version byte followed by exactly the encoder's output |
| Etf.HeaderRoundTrip | Pyrlang/Dist/etf.py:79-92 | prepending the version byte to an uncompressed payload makes `binary_to_term` do exactly what the native decoder does on the payload |
| Etf.HeaderedPayload | Pyrlang/Dist/etf.py:71-102 | a payload that decodes to `t`, consuming all of it, comes back from `binary_to_term` as `t` with an empty tail once the header is added |
| Etf.TermToBinaryRoundTrip | Pyrlang/Dist/etf.py:71-102 | whatever the encoder writes, if the decoder reads all of it back as `t`, then `binary_to_term(term_to_binary(v))` is `t` with an empty tail |
| DecodeVectors.AtomHello | test/dist_etf_decode_test.py:15-29 | the bytes of atom `hello` decode to that atom, or to the text `hello` when `atoms_as_strings` is set, with an empty tail |
| DecodeVectors.StringHello | test/dist_etf_decode_test.py:31-37 | the STRING_EXT bytes of `hello` decode to that text with an empty tail |
| DecodeVectors.SmallInteger | test/dist_etf_decode_test.py:39-45 | the one-byte integer 170 decodes to 170 with an empty tail |
| DecodeVectors.Integer32 | test/dist_etf_decode_test.py:47-53 | the four-byte integer decodes to 170123456 with an empty tail |
| DecodeVectors.ListOfOneAtom | test/dist_etf_decode_test.py:64-77 | a one-element list of atom `derp` decodes to that list with a nil tail and an empty remainder, with or without `simple_lists` false |
| DecodeVectors.ListOfIntegers | test/dist_etf_decode_test.py:79-86 | the list of code points 0x2622, 32, 0x2623 decodes to those three integers |
| DecodeVectors.ListOfIntegersDecodes | test/dist_etf_decode_test.py:81-82 | the payload of that list decodes to those integers and consumes all 18 bytes |
| DecodeVectors.ListOfIntegersItems | test/dist_etf_decode_test.py:81-82 | the three elements of that list decode in order and end just before the nil tail |
| DecodeVectors.PidOfNode | test/dist_etf_decode_test.py:88-94 | the pid bytes decode to a pid of atom node `erl@127.0.0.1` with id 64, serial 0 and creation 1, with an empty tail |
| DecodeVectors.ReferenceOfNode | test/dist_etf_decode_test.py:96-103 | the reference bytes decode to a reference of node `erl@127.0.0.1`, creation 1 and the twelve id bytes, with an empty tail |
| DecodeVectors.ReferenceOfNodeDecodes | test/dist_etf_decode_test.py:98-100 | the reference payload decodes to that reference and consumes all 32 bytes |
| DecodeVectors.MapOneToTwo | test/dist_etf_decode_test.py:105-111 | the bytes of `#{1 => 2}` decode to the one-pair map with an empty tail |
| DecodeVectors.FloatPi | test/dist_etf_decode_test.py:113-118 | the float bytes decode to a float with bit pattern 0x400921FB54442D11 and an empty tail |
| DecodeVectors.BinaryOneByte | test/dist_etf_decode_test.py:131-138 | the one-byte binary keeps its byte with or without options: a binary of 8 bits by default or with `simple_binaries` false, and raw bytes with `binaries_as_bytes` |
| DecodeVectors.EmptyList | native_src/library.h:82 | NIL_EXT alone decodes to the empty list and consumes one byte |
| DecodeVectors.NegativeInteger | native_src/library.h:76 | INTEGER_EXT with four 255 bytes is -1 |
| DecodeVectors.AtomTrue | native_src/library.h:78 | atom `true` decodes to the boolean true under any options |
| DecodeVectors.AtomAsText | native_src/library.h:78 | with `atoms_as_strings`, an ordinary atom decodes to its text |
| DecodeVectors.SmallTupleOfTwo | native_src/library.h:80 | a SMALL_TUPLE_EXT of two small integers decodes to the pair |
| DecodeVectors.UnknownTag | native_src/library.h:72-91 | a byte outside the tag table, and the compression tag inside a payload, are reported as unsupported tags |
| DecodeVectors.NestedUnknownTag | native_src/library.h:80-89 | an unsupported tag inside a list, a tuple or a map is reported as that tag, not as missing data |
| DecodeVectors.NoDataRemaining | Pyrlang/Dist/etf.py:58-60 | decoding at or past the end of the buffer is an incomplete-data error |

## Left out

- The native decoder body is not part of this model.  `Decoder` follows the tag table in the native header, the ETF tag layouts and the test vectors, and reads multi-byte fields with `BigEndianU16/32/64`.  `ByteCodec.ReadBigU16`, `ReadBigU32` and `ReadBigU64` prove that the native readers return those values on either host byte order.
- Big integers (SMALL_BIG_EXT, tag 110) are not in the native tag table, and funs (NEW_FUN_EXT, tag 112) are declared there but not decoded; the model reports both as unsupported tags.  The `test_decode_big_int` and `test_decode_fun` vectors are therefore not stated.
- Floats are kept as their 64-bit pattern.  IEEE arithmetic and the conversion to a Python float are not modelled.
- Atom and string names are kept as raw bytes with their encoding; UTF-8 and Latin-1 decoding into Python strings are not modelled.
- The Python-only options `simple_lists` and `simple_binaries` are not fields of the native option struct.  They are ignored like any other key, so a list always keeps its tail term and a binary keeps its bit count.
- Default for binaries: the native struct makes `binaries_as_bytes` false by default, while `test_decode_binary` compares a default decode with the `bytes_` of a `simple_binaries=False` decode.  The model follows the native struct, and `DecodeVectors.BinaryOneByte` shows that both decodes carry the same byte.
- zlib decompression is a parameter `inflate` of `BinaryToTerm`, which gives the inflated bytes or nothing for corrupt input.
- The helper that reads the 32-bit size of compressed data is not part of this model.  It is read as a big-endian number, and fewer than four size bytes give a `TruncatedSize` error.
- FLOAT_EXT (tag 99, the old textual float) is in the tag table but has no decoder branch, so the model reports it as an unsupported tag.
- `term_to_binary_2` (the encoder) is a parameter of `TermToBinary`; the native encoder is a stub in the header and is not modelled.
- Switching between the native and the Python implementations, by rebinding module functions, is not modelled.
- The decoding entry point the Python wrapper calls, `binary_to_term_native`, is not registered by the native module, whose `binary_to_term_2` parses its options and then returns `None`.  The decoder that `Etf.BinaryToTerm2` composes with the options is therefore in neither file; the model supplies it as `Decoder.Decode`.
- Python objects are reduced to bytes, `None`, a string-to-boolean dictionary and "anything else".  Truthiness conversion, reference counting and the module initialisation code are not modelled.
- The diagnostic output of the native library is not modelled, and neither is its unfinished `binary_to_term`, which checks for one or two arguments, prints the data and returns `None`.
- The decoder has no nesting-depth limit, and neither does the model; stack exhaustion is not modelled.
