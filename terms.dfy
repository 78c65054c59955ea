/** The neutral term value that one decode call produces. */
module Terms {
  import opened ByteCodec

  /** How the bytes of an atom name (or of a text produced from it) are to be read. */
  datatype Encoding = Latin1 | Utf8

  datatype Term =
    | Integer(value: int)                                   // SMALL_INTEGER_EXT and INTEGER_EXT
    | Float(bits: nat)                                      // NEW_FLOAT_EXT, kept as its 64-bit pattern
    | Atom(name: seq<byte>, encoding: Encoding)
    | Boolean(b: bool)                                      // the atoms 'true' and 'false'
    | Undefined                                             // the atom 'undefined'
    | Text(chars: seq<byte>, encoding: Encoding)            // STRING_EXT, or an atom read as text
    | Nil                                                   // NIL_EXT, the empty list
    | List(items: seq<Term>, tail: Term)                    // LIST_EXT; proper when tail is Nil
    | Tuple(elements: seq<Term>)
    | Map(pairs: seq<(Term, Term)>)                         // in encounter order
    | Binary(bytes: seq<byte>, lastByteBits: nat)           // BINARY_EXT (8 bits) or BIT_BINARY_EXT
    | Bytes(bytes: seq<byte>)                               // a binary when binaries are read as bytes
    | Pid(node: Term, id: nat, serial: nat, creation: byte)
    | Reference(node: Term, creation: byte, idBytes: seq<byte>)
}
