/**
 * Decoding reads only the bytes it consumes.
 *
 * If `Decode(buf, i, opts)` succeeds and ends at `j`, then decoding any
 * buffer `b` that holds the same bytes on `[i, j)` gives the same term and
 * offset when `b` holds all of them, and an IncompleteData error when `b`
 * stops short of `j`.  So bytes after the term never matter, and a buffer
 * cut anywhere inside a term is reported as incomplete (never as another
 * error, and never read past its end): the caller may wait for more input.
 */
module DecoderLocality {
  import opened Wrappers
  import opened ByteCodec
  import opened Tags
  import opened Terms
  import opened Options
  import opened Decoder
  import opened Etf

  /**
   * `a` and `b` hold the same byte at every offset in [lo, hi) that both
   * contain.  Stated one offset at a time; AgreeIff gives the pointwise form.
   */
  ghost predicate Agree(a: seq<byte>, b: seq<byte>, lo: nat, hi: nat)
    decreases if lo < hi then hi - lo else 0
  {
    lo < hi ==> (lo < |a| && lo < |b| ==> a[lo] == b[lo]) && Agree(a, b, lo + 1, hi)
  }

  lemma {:induction false} AgreeIff(a: seq<byte>, b: seq<byte>, lo: nat, hi: nat)
    ensures Agree(a, b, lo, hi) <==> forall k :: lo <= k < hi && k < |a| && k < |b| ==> a[k] == b[k]
    decreases if lo < hi then hi - lo else 0
  {
    if lo < hi {
      AgreeIff(a, b, lo + 1, hi);
    }
  }

  lemma AgreeWithin(a: seq<byte>, b: seq<byte>, lo: nat, hi: nat, lo': nat, hi': nat)
    requires Agree(a, b, lo, hi) && lo <= lo' && hi' <= hi
    ensures Agree(a, b, lo', hi')
  {
    AgreeIff(a, b, lo, hi);
    AgreeIff(a, b, lo', hi');
  }

  lemma ByteAgree(a: seq<byte>, b: seq<byte>, lo: nat, hi: nat, k: nat)
    requires Agree(a, b, lo, hi) && lo <= k < hi && k < |a| && k < |b|
    ensures a[k] == b[k]
  {
    AgreeIff(a, b, lo, hi);
  }

  lemma SliceAgree(a: seq<byte>, b: seq<byte>, lo: nat, hi: nat, lo': nat, hi': nat)
    requires Agree(a, b, lo, hi) && lo <= lo' <= hi' <= hi && hi' <= |a| && hi' <= |b|
    ensures a[lo'..hi'] == b[lo'..hi']
  {
    AgreeIff(a, b, lo, hi);
  }

  lemma U16Agree(a: seq<byte>, b: seq<byte>, lo: nat, hi: nat, k: nat)
    requires Agree(a, b, lo, hi) && lo <= k && k + 2 <= hi && k + 2 <= |a| && k + 2 <= |b|
    ensures BigEndianU16(a, k) == BigEndianU16(b, k)
  {
    AgreeIff(a, b, lo, hi);
    assert a[k] == b[k] && a[k + 1] == b[k + 1];
  }

  lemma U32Agree(a: seq<byte>, b: seq<byte>, lo: nat, hi: nat, k: nat)
    requires Agree(a, b, lo, hi) && lo <= k && k + 4 <= hi && k + 4 <= |a| && k + 4 <= |b|
    ensures BigEndianU32(a, k) == BigEndianU32(b, k)
  {
    AgreeIff(a, b, lo, hi);
    assert a[k] == b[k] && a[k + 1] == b[k + 1] && a[k + 2] == b[k + 2] && a[k + 3] == b[k + 3];
  }

  /**
   * `r'` is what reading a buffer of length `len'` must give when reading the
   * original gave `r` and the two agree on what `r` consumed.
   */
  ghost predicate Stable<T>(r: Decoded<T>, r': Decoded<T>, len': nat)
  {
    r.Ok? ==> if r.value.1 <= len' then r' == r else r'.Err? && r'.error.IncompleteData?
  }

  lemma IntegerLocal(buf: seq<byte>, b: seq<byte>, i: nat)
    requires i < |buf| && i < |b| && b[i] == buf[i] && (buf[i] == TagSmallInt || buf[i] == TagInt)
    requires DecodeInteger(buf, i).Ok? && Agree(buf, b, i, DecodeInteger(buf, i).value.1)
    ensures Stable(DecodeInteger(buf, i), DecodeInteger(b, i), |b|)
  {
    var j := DecodeInteger(buf, i).value.1;
    if buf[i] == TagSmallInt {
      if i + 2 <= |b| {
        ByteAgree(buf, b, i, j, i + 1);
      }
    } else if i + 5 <= |b| {
      U32Agree(buf, b, i, j, i + 1);
    }
  }

  lemma FloatLocal(buf: seq<byte>, b: seq<byte>, i: nat)
    requires i < |buf| && i < |b| && b[i] == buf[i] && buf[i] == TagNewFloatExt
    requires DecodeFloat(buf, i).Ok? && Agree(buf, b, i, DecodeFloat(buf, i).value.1)
    ensures Stable(DecodeFloat(buf, i), DecodeFloat(b, i), |b|)
  {
    if i + 9 <= |b| {
      U32Agree(buf, b, i, i + 9, i + 1);
      U32Agree(buf, b, i, i + 9, i + 5);
      assert BigEndianU64(b, i + 1) == BigEndianU64(buf, i + 1);
      assert DecodeFloat(b, i) == DecodeFloat(buf, i);
    } else {
      assert DecodeFloat(b, i) == Err(IncompleteData("decoding a float"));
    }
  }

  lemma AtomLocal(buf: seq<byte>, b: seq<byte>, i: nat, opts: DecodeOptions)
    requires i < |buf| && i < |b| && b[i] == buf[i]
    requires buf[i] in {TagAtomExt, TagAtomUtf8Ext, TagSmallAtomExt, TagSmallAtomUtf8Ext}
    requires DecodeAtom(buf, i, opts).Ok? && Agree(buf, b, i, DecodeAtom(buf, i, opts).value.1)
    ensures Stable(DecodeAtom(buf, i, opts), DecodeAtom(b, i, opts), |b|)
  {
    if DecodeAtom(buf, i, opts).value.1 <= |b| {
      AtomWhole(buf, b, i, opts);
    } else {
      AtomShort(buf, b, i, opts);
    }
  }

  lemma AtomShort(buf: seq<byte>, b: seq<byte>, i: nat, opts: DecodeOptions)
    requires i < |buf| && i < |b| && b[i] == buf[i]
    requires buf[i] in {TagAtomExt, TagAtomUtf8Ext, TagSmallAtomExt, TagSmallAtomUtf8Ext}
    requires DecodeAtom(buf, i, opts).Ok? && Agree(buf, b, i, DecodeAtom(buf, i, opts).value.1)
    requires DecodeAtom(buf, i, opts).value.1 > |b|
    ensures DecodeAtom(b, i, opts).Err? && DecodeAtom(b, i, opts).error.IncompleteData?
  {
    var j := DecodeAtom(buf, i, opts).value.1;
    var header := AtomHeader(buf[i]);
    if i + header <= |b| {
      if header == 3 {
        U16Agree(buf, b, i, j, i + 1);
      } else {
        ByteAgree(buf, b, i, j, i + 1);
      }
    }
  }

  lemma AtomWhole(buf: seq<byte>, b: seq<byte>, i: nat, opts: DecodeOptions)
    requires i < |buf| && i < |b| && b[i] == buf[i]
    requires buf[i] in {TagAtomExt, TagAtomUtf8Ext, TagSmallAtomExt, TagSmallAtomUtf8Ext}
    requires DecodeAtom(buf, i, opts).Ok? && Agree(buf, b, i, DecodeAtom(buf, i, opts).value.1)
    requires DecodeAtom(buf, i, opts).value.1 <= |b|
    ensures DecodeAtom(b, i, opts) == DecodeAtom(buf, i, opts)
  {
    var j := DecodeAtom(buf, i, opts).value.1;
    var header := AtomHeader(buf[i]);
    if header == 3 {
      U16Agree(buf, b, i, j, i + 1);
    } else {
      ByteAgree(buf, b, i, j, i + 1);
    }
    SliceAgree(buf, b, i, j, i + header, j);
    AtomSame(buf, b, i, opts);
  }

  lemma AtomSame(buf: seq<byte>, b: seq<byte>, i: nat, opts: DecodeOptions)
    requires i < |buf| && i < |b| && b[i] == buf[i]
    requires buf[i] in {TagAtomExt, TagAtomUtf8Ext, TagSmallAtomExt, TagSmallAtomUtf8Ext}
    requires DecodeAtom(buf, i, opts).Ok?
    requires var h := AtomHeader(buf[i]);
      i + h <= |b| && (if h == 3 then BigEndianU16(b, i + 1) == BigEndianU16(buf, i + 1) else b[i + 1] == buf[i + 1])
    requires var h := AtomHeader(buf[i]); var j := DecodeAtom(buf, i, opts).value.1;
      j <= |b| && b[i + h..j] == buf[i + h..j]
    ensures DecodeAtom(b, i, opts) == DecodeAtom(buf, i, opts)
  {
  }

  lemma StringLocal(buf: seq<byte>, b: seq<byte>, i: nat)
    requires i < |buf| && i < |b| && b[i] == buf[i] && buf[i] == TagStringExt
    requires DecodeString(buf, i).Ok? && Agree(buf, b, i, DecodeString(buf, i).value.1)
    ensures Stable(DecodeString(buf, i), DecodeString(b, i), |b|)
  {
    if DecodeString(buf, i).value.1 <= |b| {
      StringWhole(buf, b, i);
    } else {
      StringShort(buf, b, i);
    }
  }

  lemma StringShort(buf: seq<byte>, b: seq<byte>, i: nat)
    requires i < |buf| && i < |b| && b[i] == buf[i] && buf[i] == TagStringExt
    requires DecodeString(buf, i).Ok? && Agree(buf, b, i, DecodeString(buf, i).value.1)
    requires DecodeString(buf, i).value.1 > |b|
    ensures DecodeString(b, i).Err? && DecodeString(b, i).error.IncompleteData?
  {
    var j := DecodeString(buf, i).value.1;
    var header := 3;
    if i + header <= |b| {
      U16Agree(buf, b, i, j, i + 1);
    }
  }

  lemma StringWhole(buf: seq<byte>, b: seq<byte>, i: nat)
    requires i < |buf| && i < |b| && b[i] == buf[i] && buf[i] == TagStringExt
    requires DecodeString(buf, i).Ok? && Agree(buf, b, i, DecodeString(buf, i).value.1)
    requires DecodeString(buf, i).value.1 <= |b|
    ensures DecodeString(b, i) == DecodeString(buf, i)
  {
    var j := DecodeString(buf, i).value.1;
    U16Agree(buf, b, i, j, i + 1);
    SliceAgree(buf, b, i, j, i + 3, j);
    StringSame(buf, b, i);
  }

  lemma StringSame(buf: seq<byte>, b: seq<byte>, i: nat)
    requires i + 3 <= |buf| && i + 3 <= |b| && b[i] == buf[i] && buf[i] == TagStringExt
    requires BigEndianU16(b, i + 1) == BigEndianU16(buf, i + 1)
    requires i + 3 + BigEndianU16(buf, i + 1) <= |buf| && i + 3 + BigEndianU16(buf, i + 1) <= |b|
    requires b[i + 3..i + 3 + BigEndianU16(buf, i + 1)] == buf[i + 3..i + 3 + BigEndianU16(buf, i + 1)]
    ensures DecodeString(b, i) == DecodeString(buf, i)
  {
  }

  lemma BinaryLocal(buf: seq<byte>, b: seq<byte>, i: nat, opts: DecodeOptions)
    requires i < |buf| && i < |b| && b[i] == buf[i] && (buf[i] == TagBinaryExt || buf[i] == TagBitBinaryExt)
    requires DecodeBinary(buf, i, opts).Ok? && Agree(buf, b, i, DecodeBinary(buf, i, opts).value.1)
    ensures Stable(DecodeBinary(buf, i, opts), DecodeBinary(b, i, opts), |b|)
  {
    if DecodeBinary(buf, i, opts).value.1 <= |b| {
      BinaryWhole(buf, b, i, opts);
    } else {
      BinaryShort(buf, b, i, opts);
    }
  }

  lemma BinaryShort(buf: seq<byte>, b: seq<byte>, i: nat, opts: DecodeOptions)
    requires i < |buf| && i < |b| && b[i] == buf[i] && (buf[i] == TagBinaryExt || buf[i] == TagBitBinaryExt)
    requires DecodeBinary(buf, i, opts).Ok? && Agree(buf, b, i, DecodeBinary(buf, i, opts).value.1)
    requires DecodeBinary(buf, i, opts).value.1 > |b|
    ensures DecodeBinary(b, i, opts).Err? && DecodeBinary(b, i, opts).error.IncompleteData?
  {
    var j := DecodeBinary(buf, i, opts).value.1;
    var header := if buf[i] == TagBinaryExt then 5 else 6;
    if i + header <= |b| {
      U32Agree(buf, b, i, j, i + 1);
    }
  }

  lemma BinaryWhole(buf: seq<byte>, b: seq<byte>, i: nat, opts: DecodeOptions)
    requires i < |buf| && i < |b| && b[i] == buf[i] && (buf[i] == TagBinaryExt || buf[i] == TagBitBinaryExt)
    requires DecodeBinary(buf, i, opts).Ok? && Agree(buf, b, i, DecodeBinary(buf, i, opts).value.1)
    requires DecodeBinary(buf, i, opts).value.1 <= |b|
    ensures DecodeBinary(b, i, opts) == DecodeBinary(buf, i, opts)
  {
    var j := DecodeBinary(buf, i, opts).value.1;
    U32Agree(buf, b, i, j, i + 1);
    if buf[i] == TagBinaryExt {
      SliceAgree(buf, b, i, j, i + 5, j);
    } else {
      BitBinaryWhole(buf, b, i, opts);
    }
    BinarySame(buf, b, i, opts);
  }

  lemma BitBinaryWhole(buf: seq<byte>, b: seq<byte>, i: nat, opts: DecodeOptions)
    requires i < |buf| && i < |b| && b[i] == buf[i] && buf[i] == TagBitBinaryExt
    requires DecodeBinary(buf, i, opts).Ok? && Agree(buf, b, i, DecodeBinary(buf, i, opts).value.1)
    requires DecodeBinary(buf, i, opts).value.1 <= |b|
    ensures b[i + 5] == buf[i + 5]
    ensures b[i + 6..DecodeBinary(buf, i, opts).value.1] == buf[i + 6..DecodeBinary(buf, i, opts).value.1]
  {
    var j := DecodeBinary(buf, i, opts).value.1;
    ByteAgree(buf, b, i, j, i + 5);
    SliceAgree(buf, b, i, j, i + 6, j);
  }

  lemma BinarySame(buf: seq<byte>, b: seq<byte>, i: nat, opts: DecodeOptions)
    requires i < |buf| && i < |b| && b[i] == buf[i] && (buf[i] == TagBinaryExt || buf[i] == TagBitBinaryExt)
    requires DecodeBinary(buf, i, opts).Ok?
    requires var h := if buf[i] == TagBinaryExt then 5 else 6;
      i + h <= |b| && BigEndianU32(b, i + 1) == BigEndianU32(buf, i + 1) && (h == 6 ==> b[i + 5] == buf[i + 5])
    requires var h := if buf[i] == TagBinaryExt then 5 else 6; var j := DecodeBinary(buf, i, opts).value.1;
      j <= |b| && b[i + h..j] == buf[i + h..j]
    ensures DecodeBinary(b, i, opts) == DecodeBinary(buf, i, opts)
  {
  }

  /** The locality property of `Decode`, by induction together with the compound routines. */
  lemma {:induction false} DecodeLocal(buf: seq<byte>, b: seq<byte>, i: nat, opts: DecodeOptions)
    requires Decode(buf, i, opts).Ok? && Agree(buf, b, i, Decode(buf, i, opts).value.1)
    ensures Stable(Decode(buf, i, opts), Decode(b, i, opts), |b|)
    decreases |buf| - i, 1, 1
  {
    if i < |b| {
      TaggedLocal(buf, b, i, opts);
    }
  }

  lemma {:induction false} TaggedLocal(buf: seq<byte>, b: seq<byte>, i: nat, opts: DecodeOptions)
    requires i < |buf| && i < |b|
    requires DecodeTagged(buf, i, opts).Ok? && Agree(buf, b, i, DecodeTagged(buf, i, opts).value.1)
    ensures Stable(DecodeTagged(buf, i, opts), DecodeTagged(b, i, opts), |b|)
    decreases |buf| - i, 1, 0
  {
    ByteAgree(buf, b, i, DecodeTagged(buf, i, opts).value.1, i);
    var tag := buf[i];
    if tag == TagSmallInt || tag == TagInt {
      IntegerLocal(buf, b, i);
    } else if tag == TagNewFloatExt {
      FloatLocal(buf, b, i);
    } else if tag in {TagAtomExt, TagAtomUtf8Ext, TagSmallAtomExt, TagSmallAtomUtf8Ext} {
      AtomLocal(buf, b, i, opts);
    } else if tag == TagStringExt {
      StringLocal(buf, b, i);
    } else if tag == TagBinaryExt || tag == TagBitBinaryExt {
      BinaryLocal(buf, b, i, opts);
    } else if tag == TagListExt {
      ListLocal(buf, b, i, opts);
    } else if tag == TagMapExt {
      MapLocal(buf, b, i, opts);
    } else if tag == TagSmallTupleExt || tag == TagLargeTupleExt {
      TupleLocal(buf, b, i, opts);
    } else if tag == TagPidExt {
      PidLocal(buf, b, i, opts);
    } else if tag == TagNewRefExt {
      RefLocal(buf, b, i, opts);
    }
  }

  lemma {:induction false} SeqLocal(buf: seq<byte>, b: seq<byte>, i: nat, n: nat, opts: DecodeOptions)
    requires i <= |buf| && i <= |b|
    requires DecodeSeq(buf, i, n, opts).Ok? && Agree(buf, b, i, DecodeSeq(buf, i, n, opts).value.1)
    ensures Stable(DecodeSeq(buf, i, n, opts), DecodeSeq(b, i, n, opts), |b|)
    decreases |buf| - i, 2, n
  {
    if n > 0 {
      var end := DecodeSeq(buf, i, n, opts).value.1;
      var head := Decode(buf, i, opts).value;
      AgreeWithin(buf, b, i, end, i, head.1);
      DecodeLocal(buf, b, i, opts);
      if head.1 <= |b| {
        AgreeWithin(buf, b, i, end, head.1, end);
        SeqLocal(buf, b, head.1, n - 1, opts);
      }
      SeqStep(buf, b, i, n, opts);
    }
  }

  /** A run is stable once its first term and the rest of the run are. */
  lemma SeqStep(buf: seq<byte>, b: seq<byte>, i: nat, n: nat, opts: DecodeOptions)
    requires i <= |buf| && i <= |b| && n > 0 && DecodeSeq(buf, i, n, opts).Ok?
    requires Stable(Decode(buf, i, opts), Decode(b, i, opts), |b|)
    requires var k := Decode(buf, i, opts).value.1;
      k <= |b| ==> Stable(DecodeSeq(buf, k, n - 1, opts), DecodeSeq(b, k, n - 1, opts), |b|)
    ensures Stable(DecodeSeq(buf, i, n, opts), DecodeSeq(b, i, n, opts), |b|)
  {
  }

  lemma {:induction false} PairsLocal(buf: seq<byte>, b: seq<byte>, i: nat, n: nat, opts: DecodeOptions)
    requires i <= |buf| && i <= |b|
    requires DecodePairs(buf, i, n, opts).Ok? && Agree(buf, b, i, DecodePairs(buf, i, n, opts).value.1)
    ensures Stable(DecodePairs(buf, i, n, opts), DecodePairs(b, i, n, opts), |b|)
    decreases |buf| - i, 2, n
  {
    if n > 0 {
      var end := DecodePairs(buf, i, n, opts).value.1;
      var key := Decode(buf, i, opts).value;
      var value := Decode(buf, key.1, opts).value;
      AgreeWithin(buf, b, i, end, i, key.1);
      DecodeLocal(buf, b, i, opts);
      if key.1 <= |b| {
        AgreeWithin(buf, b, i, end, key.1, value.1);
        DecodeLocal(buf, b, key.1, opts);
        if value.1 <= |b| {
          AgreeWithin(buf, b, i, end, value.1, end);
          PairsLocal(buf, b, value.1, n - 1, opts);
        }
      }
      PairsStep(buf, b, i, n, opts);
    }
  }

  /** A run of pairs is stable once its first key, its first value and the rest of the run are. */
  lemma PairsStep(buf: seq<byte>, b: seq<byte>, i: nat, n: nat, opts: DecodeOptions)
    requires i <= |buf| && i <= |b| && n > 0 && DecodePairs(buf, i, n, opts).Ok?
    requires Stable(Decode(buf, i, opts), Decode(b, i, opts), |b|)
    requires var k := Decode(buf, i, opts).value.1;
      k <= |b| ==> Stable(Decode(buf, k, opts), Decode(b, k, opts), |b|)
    requires var k := Decode(buf, i, opts).value.1; var v := Decode(buf, k, opts).value.1;
      k <= |b| && v <= |b| ==> Stable(DecodePairs(buf, v, n - 1, opts), DecodePairs(b, v, n - 1, opts), |b|)
    ensures Stable(DecodePairs(buf, i, n, opts), DecodePairs(b, i, n, opts), |b|)
  {
  }

  lemma {:induction false} ListLocal(buf: seq<byte>, b: seq<byte>, i: nat, opts: DecodeOptions)
    requires i < |buf| && i < |b| && b[i] == buf[i] && buf[i] == TagListExt
    requires DecodeList(buf, i, opts).Ok? && Agree(buf, b, i, DecodeList(buf, i, opts).value.1)
    ensures Stable(DecodeList(buf, i, opts), DecodeList(b, i, opts), |b|)
    decreases |buf| - i, 0, 0
  {
    var end := DecodeList(buf, i, opts).value.1;
    if i + 5 <= |b| {
      U32Agree(buf, b, i, end, i + 1);
      var n := BigEndianU32(buf, i + 1);
      var items := DecodeSeq(buf, i + 5, n, opts).value;
      AgreeWithin(buf, b, i, end, i + 5, items.1);
      SeqLocal(buf, b, i + 5, n, opts);
      if items.1 <= |b| {
        AgreeWithin(buf, b, i, end, items.1, end);
        DecodeLocal(buf, b, items.1, opts);
      }
    }
  }

  lemma {:induction false} MapLocal(buf: seq<byte>, b: seq<byte>, i: nat, opts: DecodeOptions)
    requires i < |buf| && i < |b| && b[i] == buf[i] && buf[i] == TagMapExt
    requires DecodeMap(buf, i, opts).Ok? && Agree(buf, b, i, DecodeMap(buf, i, opts).value.1)
    ensures Stable(DecodeMap(buf, i, opts), DecodeMap(b, i, opts), |b|)
    decreases |buf| - i, 0, 0
  {
    var end := DecodeMap(buf, i, opts).value.1;
    if i + 5 <= |b| {
      U32Agree(buf, b, i, end, i + 1);
      AgreeWithin(buf, b, i, end, i + 5, end);
      PairsLocal(buf, b, i + 5, BigEndianU32(buf, i + 1), opts);
    }
  }

  lemma {:induction false} TupleLocal(buf: seq<byte>, b: seq<byte>, i: nat, opts: DecodeOptions)
    requires i < |buf| && i < |b| && b[i] == buf[i] && (buf[i] == TagSmallTupleExt || buf[i] == TagLargeTupleExt)
    requires DecodeTuple(buf, i, opts).Ok? && Agree(buf, b, i, DecodeTuple(buf, i, opts).value.1)
    ensures Stable(DecodeTuple(buf, i, opts), DecodeTuple(b, i, opts), |b|)
    decreases |buf| - i, 0, 0
  {
    var end := DecodeTuple(buf, i, opts).value.1;
    var header := if buf[i] == TagSmallTupleExt then 2 else 5;
    if i + header <= |b| {
      if header == 2 {
        ByteAgree(buf, b, i, end, i + 1);
      } else {
        U32Agree(buf, b, i, end, i + 1);
      }
      var arity := if header == 2 then buf[i + 1] else BigEndianU32(buf, i + 1);
      AgreeWithin(buf, b, i, end, i + header, end);
      SeqLocal(buf, b, i + header, arity, opts);
    }
  }

  lemma {:induction false} PidLocal(buf: seq<byte>, b: seq<byte>, i: nat, opts: DecodeOptions)
    requires i < |buf| && i < |b| && b[i] == buf[i] && buf[i] == TagPidExt
    requires DecodePid(buf, i, opts).Ok? && Agree(buf, b, i, DecodePid(buf, i, opts).value.1)
    ensures Stable(DecodePid(buf, i, opts), DecodePid(b, i, opts), |b|)
    decreases |buf| - i, 0, 0
  {
    var node := Decode(buf, i + 1, opts).value;
    var k := node.1;
    var end := k + 9;
    assert DecodePid(buf, i, opts).value.1 == end;
    AgreeWithin(buf, b, i, end, i + 1, k);
    DecodeLocal(buf, b, i + 1, opts);
    if end <= |b| {
      U32Agree(buf, b, i, end, k);
      U32Agree(buf, b, i, end, k + 4);
      ByteAgree(buf, b, i, end, k + 8);
    }
  }

  lemma {:induction false} RefLocal(buf: seq<byte>, b: seq<byte>, i: nat, opts: DecodeOptions)
    requires i < |buf| && i < |b| && b[i] == buf[i] && buf[i] == TagNewRefExt
    requires DecodeRef(buf, i, opts).Ok? && Agree(buf, b, i, DecodeRef(buf, i, opts).value.1)
    ensures Stable(DecodeRef(buf, i, opts), DecodeRef(b, i, opts), |b|)
    decreases |buf| - i, 0, 0
  {
    var words := BigEndianU16(buf, i + 1);
    var node := Decode(buf, i + 3, opts).value;
    var k := node.1;
    var end := k + 1 + 4 * words;
    assert DecodeRef(buf, i, opts).value.1 == end;
    if i + 3 <= |b| {
      U16Agree(buf, b, i, end, i + 1);
      AgreeWithin(buf, b, i, end, i + 3, k);
      DecodeLocal(buf, b, i + 3, opts);
      if end <= |b| {
        ByteAgree(buf, b, i, end, k);
        SliceAgree(buf, b, i, end, k + 1, end);
      }
    }
  }

  /** Bytes after a decoded term never change it: a term decodes the same with anything appended. */
  lemma DecodeIgnoresTrailingBytes(buf: seq<byte>, more: seq<byte>, i: nat, opts: DecodeOptions)
    requires Decode(buf, i, opts).Ok?
    ensures Decode(buf + more, i, opts) == Decode(buf, i, opts)
  {
    AgreeIff(buf, buf + more, i, Decode(buf, i, opts).value.1);
    DecodeLocal(buf, buf + more, i, opts);
  }

  /**
   * Cutting the buffer anywhere inside a term that decodes gives IncompleteData,
   * so that error may be read as "wait for more input".
   */
  lemma DecodeTruncatedIsIncomplete(buf: seq<byte>, i: nat, cut: nat, opts: DecodeOptions)
    requires Decode(buf, i, opts).Ok? && cut < Decode(buf, i, opts).value.1
    ensures Decode(buf[..cut], i, opts).Err? && Decode(buf[..cut], i, opts).error.IncompleteData?
  {
    AgreeIff(buf, buf[..cut], i, Decode(buf, i, opts).value.1);
    DecodeLocal(buf, buf[..cut], i, opts);
  }

  /** The tail `wrap_bin_to_term` returns is exactly what follows the first term. */
  lemma WrapReturnsFollowingBytes(first: seq<byte>, rest: seq<byte>, t: Term, opts: DecodeOptions)
    requires Decode(first, 0, opts) == Ok((t, |first|))
    ensures WrapBinToTerm(first + rest, opts) == Ok((t, rest))
  {
    DecodeIgnoresTrailingBytes(first, rest, 0, opts);
    assert (first + rest)[|first|..] == rest;
  }
}
