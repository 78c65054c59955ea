/** The version byte and the term tags of native_src/library.h, as the decoder dispatches on them. */
module Tags {
  import opened ByteCodec

  /** Leading byte of every externally encoded term. */
  const EtfVersionTag: byte := 131

  const TagNewFloatExt: byte := 70
  const TagBitBinaryExt: byte := 77
  const TagCompressed: byte := 80
  const TagSmallInt: byte := 97
  const TagInt: byte := 98
  const TagFloatExt: byte := 99
  const TagAtomExt: byte := 100
  const TagPidExt: byte := 103
  const TagSmallTupleExt: byte := 104
  const TagLargeTupleExt: byte := 105
  const TagNilExt: byte := 106
  const TagStringExt: byte := 107
  const TagListExt: byte := 108
  const TagBinaryExt: byte := 109
  const TagNewFunExt: byte := 112
  const TagNewRefExt: byte := 114
  const TagSmallAtomExt: byte := 115
  const TagMapExt: byte := 116
  const TagAtomUtf8Ext: byte := 118
  const TagSmallAtomUtf8Ext: byte := 119

  /** Every tag the header declares, in declaration order. */
  const DeclaredTags: seq<byte> :=
    [TagNewFloatExt, TagBitBinaryExt, TagCompressed, TagSmallInt, TagInt, TagFloatExt,
     TagAtomExt, TagPidExt, TagSmallTupleExt, TagLargeTupleExt, TagNilExt, TagStringExt,
     TagListExt, TagBinaryExt, TagNewFunExt, TagNewRefExt, TagSmallAtomExt, TagMapExt,
     TagAtomUtf8Ext, TagSmallAtomUtf8Ext]

  /** The declared tags are pairwise distinct and none is the version byte, so dispatch is unambiguous. */
  lemma TagsDistinct()
    ensures |DeclaredTags| == 20
    ensures forall a, b :: 0 <= a < b < |DeclaredTags| ==> DeclaredTags[a] != DeclaredTags[b]
    ensures EtfVersionTag !in DeclaredTags
  {
  }
}
