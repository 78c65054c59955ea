/**
 * What the compound routines of the decoder read.  A run of terms is
 * described independently of `DecodeSeq` and `DecodePairs`: as a chain of
 * offsets where each term starts where the previous one ended.  The lemmas
 * show that the runs the decoder reads are exactly those chains, and state
 * the lists, maps and tuples it builds through them.
 */
module DecoderContents {
  import opened Wrappers
  import opened ByteCodec
  import opened Tags
  import opened Terms
  import opened Options
  import opened Decoder

  /** `ts` lie one after another in `buf`: term `k` starts at `at[k]` and ends at `at[k + 1]`. */
  ghost predicate TermChain(buf: seq<byte>, at: seq<nat>, ts: seq<Term>, opts: DecodeOptions)
  {
    && |at| == |ts| + 1
    && forall k :: 0 <= k < |ts| ==> Decode(buf, at[k], opts) == Ok((ts[k], at[k + 1]))
  }

  /**
   * `ps` lie one after another in `buf`: key `k` starts at `keyAt[k]` and
   * ends at `valueAt[k]`, where its value starts; the value ends at `keyAt[k + 1]`.
   */
  ghost predicate PairChain(buf: seq<byte>, keyAt: seq<nat>, valueAt: seq<nat>, ps: seq<(Term, Term)>, opts: DecodeOptions)
  {
    && |keyAt| == |ps| + 1
    && |valueAt| == |ps|
    && forall k :: 0 <= k < |ps| ==>
         && Decode(buf, keyAt[k], opts) == Ok((ps[k].0, valueAt[k]))
         && Decode(buf, valueAt[k], opts) == Ok((ps[k].1, keyAt[k + 1]))
  }

  /** `DecodeSeq` reads `n` terms from `i` to `j` exactly when they form a chain from `i` to `j`. */
  lemma SeqIsChain(buf: seq<byte>, i: nat, n: nat, opts: DecodeOptions, ts: seq<Term>, j: nat)
    requires i <= |buf|
    ensures DecodeSeq(buf, i, n, opts) == Ok((ts, j)) <==>
      && |ts| == n
      && exists at: seq<nat> :: |at| == n + 1 && at[0] == i && at[n] == j && TermChain(buf, at, ts, opts)
  {
    if DecodeSeq(buf, i, n, opts) == Ok((ts, j)) {
      var at := ChainOfSeq(buf, i, n, opts);
    }
    if |ts| == n && exists at: seq<nat> :: |at| == n + 1 && at[0] == i && at[n] == j && TermChain(buf, at, ts, opts) {
      var at: seq<nat> :| |at| == n + 1 && at[0] == i && at[n] == j && TermChain(buf, at, ts, opts);
      SeqOfChain(buf, at, ts, opts);
    }
  }

  /** The chain of offsets along which `DecodeSeq` read its terms. */
  lemma {:induction false} ChainOfSeq(buf: seq<byte>, i: nat, n: nat, opts: DecodeOptions) returns (at: seq<nat>)
    requires i <= |buf| && DecodeSeq(buf, i, n, opts).Ok?
    ensures var r := DecodeSeq(buf, i, n, opts).value;
      |at| == n + 1 && at[0] == i && at[n] == r.1 && TermChain(buf, at, r.0, opts)
    decreases n
  {
    var r := DecodeSeq(buf, i, n, opts).value;
    if n == 0 {
      at := [i];
      assert TermChain(buf, at, r.0, opts);
    } else {
      var head := Decode(buf, i, opts).value;
      var rest := DecodeSeq(buf, head.1, n - 1, opts).value;
      assert r.0 == [head.0] + rest.0;
      var at' := ChainOfSeq(buf, head.1, n - 1, opts);
      ChainCons(buf, i, head.0, at', rest.0, opts);
      at := [i] + at';
      assert at[n] == rest.1;
    }
  }

  /** A term followed by a chain that starts where it ends is a longer chain. */
  lemma ChainCons(buf: seq<byte>, i: nat, t: Term, at: seq<nat>, ts: seq<Term>, opts: DecodeOptions)
    requires TermChain(buf, at, ts, opts) && Decode(buf, i, opts) == Ok((t, at[0]))
    ensures TermChain(buf, [i] + at, [t] + ts, opts)
  {
    var at', ts' := [i] + at, [t] + ts;
    forall k | 0 <= k < |ts'|
      ensures Decode(buf, at'[k], opts) == Ok((ts'[k], at'[k + 1]))
    {
      if k > 0 {
        assert ts'[k] == ts[k - 1] && at'[k] == at[k - 1] && at'[k + 1] == at[k];
      }
    }
  }

  lemma {:induction false} SeqOfChain(buf: seq<byte>, at: seq<nat>, ts: seq<Term>, opts: DecodeOptions)
    requires TermChain(buf, at, ts, opts) && at[0] <= |buf|
    ensures DecodeSeq(buf, at[0], |ts|, opts) == Ok((ts, at[|ts|]))
    decreases |ts|
  {
    if |ts| > 0 {
      assert Decode(buf, at[0], opts) == Ok((ts[0], at[1]));
      forall k | 0 <= k < |ts| - 1
        ensures Decode(buf, at[1..][k], opts) == Ok((ts[1..][k], at[1..][k + 1]))
      {
        assert Decode(buf, at[k + 1], opts) == Ok((ts[k + 1], at[k + 2]));
      }
      assert TermChain(buf, at[1..], ts[1..], opts);
      SeqOfChain(buf, at[1..], ts[1..], opts);
      assert [ts[0]] + ts[1..] == ts;
    }
  }

  /** `DecodePairs` reads `n` pairs from `i` to `j` exactly when they form a chain of keys and values from `i` to `j`. */
  lemma PairsIsChain(buf: seq<byte>, i: nat, n: nat, opts: DecodeOptions, ps: seq<(Term, Term)>, j: nat)
    requires i <= |buf|
    ensures DecodePairs(buf, i, n, opts) == Ok((ps, j)) <==>
      && |ps| == n
      && exists keyAt: seq<nat>, valueAt: seq<nat> ::
           |keyAt| == n + 1 && keyAt[0] == i && keyAt[n] == j && PairChain(buf, keyAt, valueAt, ps, opts)
  {
    if DecodePairs(buf, i, n, opts) == Ok((ps, j)) {
      var keyAt, valueAt := ChainOfPairs(buf, i, n, opts);
    }
    if |ps| == n && exists keyAt: seq<nat>, valueAt: seq<nat> ::
         |keyAt| == n + 1 && keyAt[0] == i && keyAt[n] == j && PairChain(buf, keyAt, valueAt, ps, opts) {
      var keyAt: seq<nat>, valueAt: seq<nat> :|
        |keyAt| == n + 1 && keyAt[0] == i && keyAt[n] == j && PairChain(buf, keyAt, valueAt, ps, opts);
      PairsOfChain(buf, keyAt, valueAt, ps, opts);
    }
  }

  /** The chains of key and value offsets along which `DecodePairs` read its pairs. */
  lemma {:induction false} ChainOfPairs(buf: seq<byte>, i: nat, n: nat, opts: DecodeOptions)
    returns (keyAt: seq<nat>, valueAt: seq<nat>)
    requires i <= |buf| && DecodePairs(buf, i, n, opts).Ok?
    ensures var r := DecodePairs(buf, i, n, opts).value;
      |keyAt| == n + 1 && keyAt[0] == i && keyAt[n] == r.1 && PairChain(buf, keyAt, valueAt, r.0, opts)
    decreases n
  {
    var r := DecodePairs(buf, i, n, opts).value;
    if n == 0 {
      keyAt, valueAt := [i], [];
      assert PairChain(buf, keyAt, valueAt, r.0, opts);
    } else {
      var key := Decode(buf, i, opts).value;
      var value := Decode(buf, key.1, opts).value;
      var rest := DecodePairs(buf, value.1, n - 1, opts).value;
      assert r.0 == [(key.0, value.0)] + rest.0;
      var keyAt', valueAt' := ChainOfPairs(buf, value.1, n - 1, opts);
      PairChainCons(buf, i, key.1, (key.0, value.0), keyAt', valueAt', rest.0, opts);
      keyAt, valueAt := [i] + keyAt', [key.1] + valueAt';
      assert keyAt[n] == rest.1;
    }
  }

  /** A key and value followed by a pair chain that starts where the value ends is a longer pair chain. */
  lemma PairChainCons(buf: seq<byte>, i: nat, v: nat, p: (Term, Term), keyAt: seq<nat>, valueAt: seq<nat>,
                      ps: seq<(Term, Term)>, opts: DecodeOptions)
    requires PairChain(buf, keyAt, valueAt, ps, opts)
    requires Decode(buf, i, opts) == Ok((p.0, v)) && Decode(buf, v, opts) == Ok((p.1, keyAt[0]))
    ensures PairChain(buf, [i] + keyAt, [v] + valueAt, [p] + ps, opts)
  {
    var keyAt', valueAt', ps' := [i] + keyAt, [v] + valueAt, [p] + ps;
    forall k | 0 <= k < |ps'|
      ensures Decode(buf, keyAt'[k], opts) == Ok((ps'[k].0, valueAt'[k]))
      ensures Decode(buf, valueAt'[k], opts) == Ok((ps'[k].1, keyAt'[k + 1]))
    {
      if k > 0 {
        assert ps'[k] == ps[k - 1] && keyAt'[k] == keyAt[k - 1] && valueAt'[k] == valueAt[k - 1] && keyAt'[k + 1] == keyAt[k];
      }
    }
  }

  lemma {:induction false} PairsOfChain(buf: seq<byte>, keyAt: seq<nat>, valueAt: seq<nat>, ps: seq<(Term, Term)>, opts: DecodeOptions)
    requires PairChain(buf, keyAt, valueAt, ps, opts) && keyAt[0] <= |buf|
    ensures DecodePairs(buf, keyAt[0], |ps|, opts) == Ok((ps, keyAt[|ps|]))
    decreases |ps|
  {
    if |ps| > 0 {
      assert Decode(buf, keyAt[0], opts) == Ok((ps[0].0, valueAt[0]));
      assert Decode(buf, valueAt[0], opts) == Ok((ps[0].1, keyAt[1]));
      forall k | 0 <= k < |ps| - 1
        ensures Decode(buf, keyAt[1..][k], opts) == Ok((ps[1..][k].0, valueAt[1..][k]))
        ensures Decode(buf, valueAt[1..][k], opts) == Ok((ps[1..][k].1, keyAt[1..][k + 1]))
      {
        assert Decode(buf, keyAt[k + 1], opts) == Ok((ps[k + 1].0, valueAt[k + 1]));
        assert Decode(buf, valueAt[k + 1], opts) == Ok((ps[k + 1].1, keyAt[k + 2]));
      }
      assert PairChain(buf, keyAt[1..], valueAt[1..], ps[1..], opts);
      PairsOfChain(buf, keyAt[1..], valueAt[1..], ps[1..], opts);
      assert [ps[0]] + ps[1..] == ps;
    }
  }

  /**
   * LIST_EXT at `i` reads as `t` ending at `j` exactly when the header fits,
   * the elements form a chain of the declared count from `i + 5`, and the
   * tail term follows them and ends at `j`.
   */
  lemma ListContents(buf: seq<byte>, i: nat, opts: DecodeOptions, t: Term, j: nat)
    requires i < |buf| && buf[i] == TagListExt
    ensures DecodeList(buf, i, opts) == Ok((t, j)) <==>
      && i + 5 <= |buf|
      && t.List?
      && exists at: seq<nat> ::
           && |at| == BigEndianU32(buf, i + 1) + 1
           && at[0] == i + 5
           && TermChain(buf, at, t.items, opts)
           && Decode(buf, at[|at| - 1], opts) == Ok((t.tail, j))
  {
    if i + 5 <= |buf| {
      var n := BigEndianU32(buf, i + 1);
      if DecodeList(buf, i, opts) == Ok((t, j)) {
        var items := DecodeSeq(buf, i + 5, n, opts).value;
        SeqIsChain(buf, i + 5, n, opts, items.0, items.1);
        var at: seq<nat> :| |at| == n + 1 && at[0] == i + 5 && at[n] == items.1 && TermChain(buf, at, items.0, opts);
        assert Decode(buf, at[|at| - 1], opts) == Ok((t.tail, j));
      }
      if t.List? && exists at: seq<nat> ::
           |at| == n + 1 && at[0] == i + 5 && TermChain(buf, at, t.items, opts) && Decode(buf, at[|at| - 1], opts) == Ok((t.tail, j)) {
        var at: seq<nat> :|
          |at| == n + 1 && at[0] == i + 5 && TermChain(buf, at, t.items, opts) && Decode(buf, at[|at| - 1], opts) == Ok((t.tail, j));
        SeqOfChain(buf, at, t.items, opts);
        assert DecodeSeq(buf, i + 5, n, opts) == Ok((t.items, at[n]));
      }
    }
  }

  /**
   * MAP_EXT at `i` reads as `t` ending at `j` exactly when the header fits and
   * the pairs form a chain of the declared count from `i + 5` to `j`.
   */
  lemma MapContents(buf: seq<byte>, i: nat, opts: DecodeOptions, t: Term, j: nat)
    requires i < |buf| && buf[i] == TagMapExt
    ensures DecodeMap(buf, i, opts) == Ok((t, j)) <==>
      && i + 5 <= |buf|
      && t.Map?
      && |t.pairs| == BigEndianU32(buf, i + 1)
      && exists keyAt: seq<nat>, valueAt: seq<nat> ::
           && |keyAt| == |t.pairs| + 1
           && keyAt[0] == i + 5
           && keyAt[|t.pairs|] == j
           && PairChain(buf, keyAt, valueAt, t.pairs, opts)
  {
    if i + 5 <= |buf| {
      var n := BigEndianU32(buf, i + 1);
      if t.Map? {
        PairsIsChain(buf, i + 5, n, opts, t.pairs, j);
      }
      if DecodeMap(buf, i, opts) == Ok((t, j)) {
        PairsIsChain(buf, i + 5, n, opts, t.pairs, j);
      }
    }
  }

  /**
   * SMALL_TUPLE_EXT or LARGE_TUPLE_EXT at `i` reads as `t` ending at `j`
   * exactly when the header fits and the elements form a chain of the declared
   * arity from just past the header to `j`.
   */
  lemma TupleContents(buf: seq<byte>, i: nat, opts: DecodeOptions, t: Term, j: nat)
    requires i < |buf| && (buf[i] == TagSmallTupleExt || buf[i] == TagLargeTupleExt)
    ensures var header := if buf[i] == TagSmallTupleExt then 2 else 5;
      DecodeTuple(buf, i, opts) == Ok((t, j)) <==>
        && i + header <= |buf|
        && t.Tuple?
        && |t.elements| == (if header == 2 then buf[i + 1] else BigEndianU32(buf, i + 1))
        && exists at: seq<nat> ::
             |at| == |t.elements| + 1 && at[0] == i + header && at[|t.elements|] == j && TermChain(buf, at, t.elements, opts)
  {
    var header := if buf[i] == TagSmallTupleExt then 2 else 5;
    if i + header <= |buf| {
      var n := if header == 2 then buf[i + 1] else BigEndianU32(buf, i + 1);
      if t.Tuple? {
        SeqIsChain(buf, i + header, n, opts, t.elements, j);
      }
      if DecodeTuple(buf, i, opts) == Ok((t, j)) {
        SeqIsChain(buf, i + header, n, opts, t.elements, j);
      }
    }
  }
}
