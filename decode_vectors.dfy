/**
 * Concrete inputs and outputs of test/dist_etf_decode_test.py and of the tag
 * layouts of the ETF chapter, stated about the model.  Each test input carries
 * the version byte and goes through `BinaryToTerm`; `inflate` is arbitrary
 * because none of them is compressed.
 */
module DecodeVectors {
  import opened Wrappers
  import opened ByteCodec
  import opened Tags
  import opened Terms
  import opened Options
  import opened Decoder
  import opened Etf

  const Hello: seq<byte> := [104, 101, 108, 108, 111]
  const Derp: seq<byte> := [100, 101, 114, 112]
  /** "erl@127.0.0.1" */
  const NodeName: seq<byte> := [101, 114, 108, 64, 49, 50, 55, 46, 48, 46, 48, 46, 49]

  lemma AtomHello(inflate: seq<byte> -> Option<seq<byte>>)
    ensures BinaryToTerm([131, 100, 0, 5] + Hello, None, inflate) == Ok((Atom(Hello, Latin1), []))
    ensures BinaryToTerm([131, 100, 0, 5] + Hello, Some(map["atoms_as_strings" := true]), inflate)
            == Ok((Text(Hello, Latin1), []))
  {
    var payload := [100, 0, 5] + Hello;
    var asText := Some(map["atoms_as_strings" := true]);
    assert [131, 100, 0, 5] + Hello == [131] + payload;
    assert payload[3..8] == Hello;
    assert BigEndianU16(payload, 1) == 5;
    assert Decode(payload, 0, FromArgument(None)) == Ok((Atom(Hello, Latin1), 8));
    assert Decode(payload, 0, FromArgument(asText)) == Ok((Text(Hello, Latin1), 8));
    HeaderedPayload(payload, Atom(Hello, Latin1), None, inflate);
    HeaderedPayload(payload, Text(Hello, Latin1), asText, inflate);
  }

  lemma StringHello(inflate: seq<byte> -> Option<seq<byte>>)
    ensures BinaryToTerm([131, 107, 0, 5] + Hello, None, inflate) == Ok((Text(Hello, Latin1), []))
  {
    var payload := [107, 0, 5] + Hello;
    assert [131, 107, 0, 5] + Hello == [131] + payload;
    assert payload[3..8] == Hello;
    assert BigEndianU16(payload, 1) == 5;
    assert Decode(payload, 0, FromArgument(None)) == Ok((Text(Hello, Latin1), 8));
    HeaderedPayload(payload, Text(Hello, Latin1), None, inflate);
  }

  lemma SmallInteger(inflate: seq<byte> -> Option<seq<byte>>)
    ensures BinaryToTerm([131, 97, 170], None, inflate) == Ok((Integer(170), []))
  {
  }

  lemma Integer32(inflate: seq<byte> -> Option<seq<byte>>)
    ensures BinaryToTerm([131, 98, 10, 35, 224, 192], None, inflate) == Ok((Integer(170123456), []))
  {
  }

  lemma ListOfOneAtom(inflate: seq<byte> -> Option<seq<byte>>)
    ensures BinaryToTerm([131, 108, 0, 0, 0, 1, 100, 0, 4] + Derp + [106], None, inflate)
            == Ok((List([Atom(Derp, Latin1)], Nil), []))
    ensures BinaryToTerm([131, 108, 0, 0, 0, 1, 100, 0, 4] + Derp + [106], Some(map["simple_lists" := false]), inflate)
            == Ok((List([Atom(Derp, Latin1)], Nil), []))
  {
    var payload := [108, 0, 0, 0, 1, 100, 0, 4] + Derp + [106];
    var o := FromArgument(None);
    var simpleLists := Some(map["simple_lists" := false]);
    assert FromArgument(simpleLists) == o;
    assert [131, 108, 0, 0, 0, 1, 100, 0, 4] + Derp + [106] == [131] + payload;
    assert payload[8..12] == Derp;
    assert BigEndianU32(payload, 1) == 1;
    assert BigEndianU16(payload, 6) == 4;
    assert Decode(payload, 5, o) == Ok((Atom(Derp, Latin1), 12));
    assert DecodeSeq(payload, 12, 0, o) == Ok(([], 12));
    assert [Atom(Derp, Latin1)] + [] == [Atom(Derp, Latin1)];
    assert DecodeSeq(payload, 5, 1, o) == Ok(([Atom(Derp, Latin1)], 12));
    assert Decode(payload, 12, o) == Ok((Nil, 13));
    assert DecodeList(payload, 0, o) == Ok((List([Atom(Derp, Latin1)], Nil), 13));
    assert DecodeTagged(payload, 0, o) == Ok((List([Atom(Derp, Latin1)], Nil), 13));
    HeaderedPayload(payload, List([Atom(Derp, Latin1)], Nil), None, inflate);
    HeaderedPayload(payload, List([Atom(Derp, Latin1)], Nil), simpleLists, inflate);
  }

  lemma ListOfIntegers(inflate: seq<byte> -> Option<seq<byte>>)
    ensures BinaryToTerm([131, 108, 0, 0, 0, 3, 98, 0, 0, 38, 34, 97, 32, 98, 0, 0, 38, 35, 106], None, inflate)
            == Ok((List([Integer(0x2622), Integer(32), Integer(0x2623)], Nil), []))
  {
    var payload: seq<byte> := [108, 0, 0, 0, 3, 98, 0, 0, 38, 34, 97, 32, 98, 0, 0, 38, 35, 106];
    var o := FromArgument(None);
    var items := [Integer(0x2622), Integer(32), Integer(0x2623)];
    assert [131, 108, 0, 0, 0, 3, 98, 0, 0, 38, 34, 97, 32, 98, 0, 0, 38, 35, 106] == [131] + payload;
    ListOfIntegersDecodes(payload, o);
    HeaderedPayload(payload, List(items, Nil), None, inflate);
  }

  lemma ListOfIntegersDecodes(payload: seq<byte>, o: DecodeOptions)
    requires payload == [108, 0, 0, 0, 3, 98, 0, 0, 38, 34, 97, 32, 98, 0, 0, 38, 35, 106]
    ensures Decode(payload, 0, o) == Ok((List([Integer(0x2622), Integer(32), Integer(0x2623)], Nil), 18))
  {
    ListOfIntegersItems(payload, o);
    assert BigEndianU32(payload, 1) == 3;
    assert Decode(payload, 17, o) == Ok((Nil, 18));
    assert DecodeList(payload, 0, o) == Ok((List([Integer(0x2622), Integer(32), Integer(0x2623)], Nil), 18));
    assert DecodeTagged(payload, 0, o) == DecodeList(payload, 0, o);
  }

  lemma ListOfIntegersItems(payload: seq<byte>, o: DecodeOptions)
    requires payload == [108, 0, 0, 0, 3, 98, 0, 0, 38, 34, 97, 32, 98, 0, 0, 38, 35, 106]
    ensures DecodeSeq(payload, 5, 3, o) == Ok(([Integer(0x2622), Integer(32), Integer(0x2623)], 17))
  {
    var items := [Integer(0x2622), Integer(32), Integer(0x2623)];
    assert Decode(payload, 5, o) == Ok((Integer(0x2622), 10)) by {
      assert BigEndianU32(payload, 6) == 0x2622;
    }
    assert Decode(payload, 10, o) == Ok((Integer(32), 12));
    assert Decode(payload, 12, o) == Ok((Integer(0x2623), 17)) by {
      assert BigEndianU32(payload, 13) == 0x2623;
    }
    assert DecodeSeq(payload, 12, 1, o) == Ok((items[2..], 17)) by {
      assert DecodeSeq(payload, 17, 0, o) == Ok(([], 17));
      assert [Integer(0x2623)] + [] == items[2..];
    }
    assert DecodeSeq(payload, 10, 2, o) == Ok((items[1..], 17)) by {
      assert [Integer(32)] + items[2..] == items[1..];
    }
    assert [Integer(0x2622)] + items[1..] == items;
  }

  lemma PidOfNode(inflate: seq<byte> -> Option<seq<byte>>)
    ensures BinaryToTerm([131, 103, 100, 0, 13] + NodeName + [0, 0, 0, 64, 0, 0, 0, 0, 1], None, inflate)
            == Ok((Pid(Atom(NodeName, Latin1), 64, 0, 1), []))
  {
    var payload := [103, 100, 0, 13] + NodeName + [0, 0, 0, 64, 0, 0, 0, 0, 1];
    var o := FromArgument(None);
    assert [131, 103, 100, 0, 13] + NodeName + [0, 0, 0, 64, 0, 0, 0, 0, 1] == [131] + payload;
    assert payload[4..17] == NodeName;
    assert BigEndianU16(payload, 2) == 13;
    assert Decode(payload, 1, o) == Ok((Atom(NodeName, Latin1), 17));
    assert BigEndianU32(payload, 17) == 64;
    assert BigEndianU32(payload, 21) == 0;
    assert DecodePid(payload, 0, o) == Ok((Pid(Atom(NodeName, Latin1), 64, 0, 1), 26));
    assert DecodeTagged(payload, 0, o) == DecodePid(payload, 0, o);
    HeaderedPayload(payload, Pid(Atom(NodeName, Latin1), 64, 0, 1), None, inflate);
  }

  lemma ReferenceOfNode(inflate: seq<byte> -> Option<seq<byte>>)
    ensures BinaryToTerm([131, 114, 0, 3, 100, 0, 13] + NodeName + [1, 0, 0, 1, 58, 0, 0, 0, 2, 0, 0, 0, 0], None, inflate)
            == Ok((Reference(Atom(NodeName, Latin1), 1, [0, 0, 1, 58, 0, 0, 0, 2, 0, 0, 0, 0]), []))
  {
    var idBytes: seq<byte> := [0, 0, 1, 58, 0, 0, 0, 2, 0, 0, 0, 0];
    var payload := [114, 0, 3, 100, 0, 13] + NodeName + [1] + idBytes;
    assert [131, 114, 0, 3, 100, 0, 13] + NodeName + [1, 0, 0, 1, 58, 0, 0, 0, 2, 0, 0, 0, 0] == [131] + payload;
    ReferenceOfNodeDecodes(payload, idBytes, FromArgument(None));
    HeaderedPayload(payload, Reference(Atom(NodeName, Latin1), 1, idBytes), None, inflate);
  }

  lemma ReferenceOfNodeDecodes(payload: seq<byte>, idBytes: seq<byte>, o: DecodeOptions)
    requires idBytes == [0, 0, 1, 58, 0, 0, 0, 2, 0, 0, 0, 0]
    requires payload == [114, 0, 3, 100, 0, 13] + NodeName + [1] + idBytes
    requires !o.atomsAsStrings
    ensures Decode(payload, 0, o) == Ok((Reference(Atom(NodeName, Latin1), 1, idBytes), 32))
  {
    assert payload[6..19] == NodeName;
    assert payload[20..32] == idBytes;
    assert BigEndianU16(payload, 1) == 3;
    assert BigEndianU16(payload, 4) == 13;
    assert payload[3] == TagAtomExt;
    assert DecodeAtom(payload, 3, o) == Ok((Atom(NodeName, Latin1), 19));
    assert DecodeTagged(payload, 3, o) == DecodeAtom(payload, 3, o);
    assert Decode(payload, 3, o) == Ok((Atom(NodeName, Latin1), 19));
    assert DecodeRef(payload, 0, o) == Ok((Reference(Atom(NodeName, Latin1), 1, idBytes), 32));
    assert DecodeTagged(payload, 0, o) == DecodeRef(payload, 0, o);
  }


  lemma MapOneToTwo(inflate: seq<byte> -> Option<seq<byte>>)
    ensures BinaryToTerm([131, 116, 0, 0, 0, 1, 97, 1, 97, 2], None, inflate)
            == Ok((Map([(Integer(1), Integer(2))]), []))
  {
    var payload: seq<byte> := [116, 0, 0, 0, 1, 97, 1, 97, 2];
    var o := FromArgument(None);
    assert BigEndianU32(payload, 1) == 1;
    assert Decode(payload, 5, o) == Ok((Integer(1), 7));
    assert Decode(payload, 7, o) == Ok((Integer(2), 9));
    assert DecodePairs(payload, 9, 0, o) == Ok(([], 9));
    assert [(Integer(1), Integer(2))] + [] == [(Integer(1), Integer(2))];
    assert DecodePairs(payload, 5, 1, o) == Ok(([(Integer(1), Integer(2))], 9));
    HeaderedPayload(payload, Map([(Integer(1), Integer(2))]), None, inflate);
  }

  /** The double nearest to pi arrives as its bit pattern. */
  lemma FloatPi(inflate: seq<byte> -> Option<seq<byte>>)
    ensures BinaryToTerm([131, 70, 64, 9, 33, 251, 84, 68, 45, 17], None, inflate)
            == Ok((Float(0x4009_21FB_5444_2D11), []))
  {
    var payload: seq<byte> := [70, 64, 9, 33, 251, 84, 68, 45, 17];
    assert BigEndianU32(payload, 1) == 0x4009_21FB;
    assert BigEndianU32(payload, 5) == 0x5444_2D11;
    assert BigEndianU64(payload, 1) == 0x4009_21FB_5444_2D11;
    HeaderedPayload(payload, Float(0x4009_21FB_5444_2D11), None, inflate);
  }

  /**
   * A one-byte binary keeps its payload whether or not binaries are read as
   * bytes; only the bit-count wrapper differs.
   */
  lemma BinaryOneByte(inflate: seq<byte> -> Option<seq<byte>>)
    ensures BinaryToTerm([131, 109, 0, 0, 0, 1, 34], None, inflate) == Ok((Binary([34], 8), []))
    ensures BinaryToTerm([131, 109, 0, 0, 0, 1, 34], Some(map["simple_binaries" := false]), inflate)
            == Ok((Binary([34], 8), []))
    ensures BinaryToTerm([131, 109, 0, 0, 0, 1, 34], Some(map["binaries_as_bytes" := true]), inflate)
            == Ok((Bytes([34]), []))
  {
    var payload: seq<byte> := [109, 0, 0, 0, 1, 34];
    assert BigEndianU32(payload, 1) == 1;
    assert payload[5..6] == [34];
    HeaderedPayload(payload, Binary([34], 8), None, inflate);
    HeaderedPayload(payload, Binary([34], 8), Some(map["simple_binaries" := false]), inflate);
    HeaderedPayload(payload, Bytes([34]), Some(map["binaries_as_bytes" := true]), inflate);
  }

  lemma EmptyList()
    ensures Decode([106], 0, Defaults()) == Ok((Nil, 1))
  {
  }

  lemma NegativeInteger()
    ensures Decode([98, 255, 255, 255, 255], 0, Defaults()) == Ok((Integer(-1), 5))
  {
  }

  /** The atom 'true' is a boolean whatever the atoms-as-strings option says. */
  lemma AtomTrue(opts: DecodeOptions)
    ensures Decode([100, 0, 4] + TrueName, 0, opts) == Ok((Boolean(true), 7))
  {
    var payload := [100, 0, 4] + TrueName;
    assert payload[3..7] == TrueName;
    assert BigEndianU16(payload, 1) == 4;
  }

  lemma AtomAsText()
    ensures Decode([100, 0, 3, 102, 111, 111], 0, DecodeOptions(false, true)) == Ok((Text([102, 111, 111], Latin1), 6))
  {
    var payload: seq<byte> := [100, 0, 3, 102, 111, 111];
    assert payload[3..6] == [102, 111, 111];
    assert BigEndianU16(payload, 1) == 3;
  }

  lemma SmallTupleOfTwo()
    ensures Decode([104, 2, 97, 1, 97, 2], 0, Defaults()) == Ok((Tuple([Integer(1), Integer(2)]), 6))
  {
    var payload: seq<byte> := [104, 2, 97, 1, 97, 2];
    var o := Defaults();
    assert Decode(payload, 2, o) == Ok((Integer(1), 4));
    assert Decode(payload, 4, o) == Ok((Integer(2), 6));
    assert DecodeSeq(payload, 6, 0, o) == Ok(([], 6));
    assert [Integer(2)] + [] == [Integer(2)];
    assert DecodeSeq(payload, 4, 1, o) == Ok(([Integer(2)], 6));
    assert [Integer(1)] + [Integer(2)] == [Integer(1), Integer(2)];
    assert DecodeSeq(payload, 2, 2, o) == Ok(([Integer(1), Integer(2)], 6));
  }

  lemma UnknownTag(opts: DecodeOptions)
    ensures Decode([255], 0, opts) == Err(UnsupportedTag(255))
    ensures Decode([TagCompressed, 0, 0, 0, 0], 0, opts) == Err(UnsupportedTag(TagCompressed))
  {
  }

  /** An unsupported tag nested in a list is reported as itself, not as missing data. */
  lemma NestedUnknownTag(opts: DecodeOptions)
    ensures Decode([TagListExt, 0, 0, 0, 1, 255, TagNilExt], 0, opts) == Err(UnsupportedTag(255))
    ensures Decode([TagSmallTupleExt, 2, TagNilExt, 255], 0, opts) == Err(UnsupportedTag(255))
    ensures Decode([TagMapExt, 0, 0, 0, 1, TagNilExt, 255], 0, opts) == Err(UnsupportedTag(255))
  {
  }

  lemma NoDataRemaining(buf: seq<byte>, i: nat, opts: DecodeOptions)
    requires i >= |buf|
    ensures Decode(buf, i, opts) == Err(IncompleteData("no data remaining"))
  {
  }
}
