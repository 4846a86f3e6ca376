/** The fold inside crc32_combine_multi (src/crc32.cc:152-176): the chunks
    of one stream are decoded in order, the first seeds (crc, len), and
    every later one is combined onto it with crc32_combine while the
    lengths are summed.  A chunk that does not decode aborts the whole
    fold. */
module Batch {
  import opened Words
  import opened Wrappers
  import opened Trailer
  import opened Crc32

  /** arr->Get(n): the element at n, or `undefined` (not a Buffer) past
      the end of the array. */
  function Get(es: seq<Element>, n: nat): Element
  {
    if n < |es| then es[n] else NotBuffer
  }

  /** The (crc, len) of a stream followed by one more chunk. */
  function Join(acc: Meta, next: Meta): Meta
  {
    Meta(Combined(acc.crc, next.crc, next.len), acc.len + next.len)
  }

  /** The left fold of Join over decoded chunks. */
  function Fold(ms: seq<Meta>): Meta
    requires |ms| > 0
    decreases |ms|
  {
    if |ms| == 1 then ms[0] else Join(Fold(ms[..|ms| - 1]), ms[|ms| - 1])
  }

  /** The outcome of get_buffer_meta for every chunk, in order. */
  function Decoded(es: seq<Element>): (os: seq<Option<Meta>>)
  {
    seq(|es|, i requires 0 <= i < |es| => GetBufferMeta(es[i]))
  }

  /** The values of all the outcomes, or None if any of them failed. */
  function AllSome(os: seq<Option<Meta>>): (r: Option<seq<Meta>>)
    ensures r.Some? ==> |r.value| == |os|
    decreases |os|
  {
    if |os| == 0 then Some([])
    else
      match (AllSome(os[..|os| - 1]), os[|os| - 1])
      case (Some(ms), Some(m)) => Some(ms + [m])
      case _ => None
  }

  /** The decoded trailers of all chunks, or None if any fails to decode. */
  function DecodeAll(es: seq<Element>): (r: Option<seq<Meta>>)
  {
    AllSome(Decoded(es))
  }

  /** Collecting the outcomes fails exactly when one of them failed. */
  lemma {:induction false} AllSomeFails(os: seq<Option<Meta>>)
    ensures AllSome(os).None? <==> exists i :: 0 <= i < |os| && os[i].None?
    decreases |os|
  {
    if |os| > 0 {
      var init := os[..|os| - 1];
      AllSomeFails(init);
      if AllSome(init).None? {
        var i :| 0 <= i < |init| && init[i].None?;
        assert init[i] == os[i];
      } else if os[|os| - 1].Some? {
        forall i | 0 <= i < |os|
          ensures os[i].Some?
        {
          if i < |init| {
            assert init[i] == os[i] && init[i].Some?;
          }
        }
      }
    }
  }

  /** When collecting succeeds, each outcome is the value in its place. */
  lemma {:induction false} AllSomeValues(os: seq<Option<Meta>>)
    requires AllSome(os).Some?
    ensures forall i :: 0 <= i < |os| ==> os[i] == Some(AllSome(os).value[i])
    decreases |os|
  {
    if |os| > 0 {
      var init := os[..|os| - 1];
      AllSomeValues(init);
      var ms := AllSome(os).value;
      var prev := AllSome(init).value;
      assert ms == prev + [os[|os| - 1].value];
      forall i | 0 <= i < |os|
        ensures os[i] == Some(ms[i])
      {
        if i < |init| {
          assert init[i] == os[i] && ms[i] == prev[i];
        }
      }
    }
  }

  /** One more outcome that succeeds extends the collected prefix by its
      value. */
  lemma AllSomeSnoc(os: seq<Option<Meta>>, n: nat, ms: seq<Meta>, m: Meta)
    requires n < |os| && AllSome(os[..n]) == Some(ms) && os[n] == Some(m)
    ensures AllSome(os[..n + 1]) == Some(ms + [m])
  {
    assert os[..n + 1][..n] == os[..n];
  }

  /** Decoding all chunks fails exactly when one of them fails. */
  lemma DecodeAllFails(es: seq<Element>)
    ensures DecodeAll(es).None? <==> exists i :: 0 <= i < |es| && GetBufferMeta(es[i]).None?
  {
    var os := Decoded(es);
    AllSomeFails(os);
    if AllSome(os).None? {
      var i :| 0 <= i < |os| && os[i].None?;
      assert GetBufferMeta(es[i]).None?;
    } else {
      forall i | 0 <= i < |es|
        ensures GetBufferMeta(es[i]).Some?
      {
        assert os[i] == GetBufferMeta(es[i]);
      }
    }
  }

  /** When decoding all chunks succeeds, each one is decoded in its place. */
  lemma DecodeAllValues(es: seq<Element>)
    requires DecodeAll(es).Some?
    ensures |DecodeAll(es).value| == |es|
    ensures forall i :: 0 <= i < |es| ==> GetBufferMeta(es[i]) == Some(DecodeAll(es).value[i])
  {
    var os := Decoded(es);
    AllSomeValues(os);
    forall i | 0 <= i < |es|
      ensures GetBufferMeta(es[i]) == Some(DecodeAll(es).value[i])
    {
      assert os[i] == GetBufferMeta(es[i]);
    }
  }

  lemma FoldSnoc(ms: seq<Meta>, m: Meta)
    requires |ms| > 0
    ensures Fold(ms + [m]) == Join(Fold(ms), m)
  {
    assert (ms + [m])[..|ms|] == ms;
  }

  /** One step of the loop in crc32_combine_multi: the outcomes so far
      and their fold, extended by the next decoded chunk. */
  lemma Extend(os: seq<Option<Meta>>, n: nat, ms: seq<Meta>, m: Meta)
    requires 0 < n < |os| && |ms| == n && AllSome(os[..n]) == Some(ms) && os[n] == Some(m)
    ensures AllSome(os[..n + 1]) == Some(ms + [m])
    ensures Fold(ms + [m]) == Join(Fold(ms), m)
  {
    AllSomeSnoc(os, n, ms, m);
    FoldSnoc(ms, m);
  }

  /** What crc32_combine_multi returns for the array es: no result for an
      empty array or one with a chunk that does not decode, otherwise the
      fold of the decoded chunks. */
  function CombineMultiSpec(es: seq<Element>): (r: Option<Meta>)
    ensures r.None? <==> |es| == 0 || exists i :: 0 <= i < |es| && GetBufferMeta(es[i]).None?
  {
    DecodeAllFails(es);
    if |es| == 0 then None
    else
      match DecodeAll(es)
      case None => None
      case Some(ms) => Some(Fold(ms))
  }

  /** A first element that does not decode, or none at all, leaves no
      result. */
  lemma FirstFails(es: seq<Element>)
    requires GetBufferMeta(Get(es, 0)).None?
    ensures CombineMultiSpec(es) == None
  {
    if |es| > 0 {
      assert GetBufferMeta(es[0]).None?;
    }
  }

  /** A later element that does not decode leaves no result. */
  lemma LaterFails(es: seq<Element>, n: nat)
    requires n < |es| && GetBufferMeta(es[n]).None?
    ensures CombineMultiSpec(es) == None
  {
  }

  /** When every element decodes, the result is the fold of the decoded
      pairs. */
  lemma AllDecoded(es: seq<Element>, ms: seq<Meta>)
    requires |es| > 0 && AllSome(Decoded(es)) == Some(ms)
    ensures |ms| > 0 && CombineMultiSpec(es) == Some(Fold(ms))
  {
  }

  /** The fold of crc32_combine_multi: element 0 seeds retCrc and retLen,
      elements 1.. are decoded and combined in order. */
  method CombineMulti(es: seq<Element>) returns (r: Option<Meta>)
    ensures r == CombineMultiSpec(es)
  {
    var meta := GetBufferMeta(Get(es, 0));
    if meta.None? {
      FirstFails(es);
      return None;
    }
    ghost var os := Decoded(es);
    assert |es| > 0 && os[0] == meta;
    var retCrc: Word, retLen: nat := meta.value.crc, meta.value.len;
    ghost var ms: seq<Meta> := [];
    AllSomeSnoc(os, 0, ms, meta.value);
    ms := ms + [meta.value];
    assert Fold(ms) == meta.value;
    for n := 1 to |es|
      invariant AllSome(os[..n]) == Some(ms)
      invariant |ms| == n
      invariant Fold(ms) == Meta(retCrc, retLen)
    {
      var next := GetBufferMeta(es[n]);
      if next.None? {
        LaterFails(es, n);
        return None;
      }
      ghost var halvings;
      retCrc, halvings := Combine(retCrc, next.value.crc, next.value.len);
      retLen := retLen + next.value.len;
      Extend(os, n, ms, next.value);
      ms := ms + [next.value];
    }
    assert os[..|es|] == os;
    AllDecoded(es, ms);
    return Some(Meta(retCrc, retLen));
  }

  // ---------------------------------------------------------------------
  // The combined length

  /** l0 + l1 + ... + l(n-1) */
  function TotalLength(ms: seq<Meta>): nat
    decreases |ms|
  {
    if |ms| == 0 then 0 else TotalLength(ms[..|ms| - 1]) + ms[|ms| - 1].len
  }

  /** The combined length is the sum of the chunk lengths. */
  lemma {:induction false} FoldLength(ms: seq<Meta>)
    requires |ms| > 0
    ensures Fold(ms).len == TotalLength(ms)
    decreases |ms|
  {
    if |ms| > 1 {
      FoldLength(ms[..|ms| - 1]);
    } else {
      assert ms[..0] == [];
    }
  }

  lemma {:induction false} TotalLengthBound(ms: seq<Meta>)
    requires forall i :: 0 <= i < |ms| ==> ms[i].len < TwoTo32
    ensures TotalLength(ms) <= |ms| * (TwoTo32 - 1)
    decreases |ms|
  {
    if |ms| > 0 {
      var init := ms[..|ms| - 1];
      assert forall i :: 0 <= i < |init| ==> init[i] == ms[i];
      TotalLengthBound(init);
    }
  }

  /** The array length is a uint32 and every decoded length is below 2^32,
      so `retLen += len2` on a 64-bit unsigned long never wraps. */
  lemma LengthFits(es: seq<Element>)
    requires |es| < TwoTo32
    requires CombineMultiSpec(es).Some?
    ensures CombineMultiSpec(es).value.len < TwoTo64
  {
    var ms := DecodeAll(es).value;
    DecodeAllValues(es);
    forall i | 0 <= i < |ms|
      ensures ms[i].len < TwoTo32
    {
      assert GetBufferMeta(es[i]) == Some(ms[i]);
    }
    FoldLength(ms);
    TotalLengthBound(ms);
  }

  // ---------------------------------------------------------------------
  // Grouping chunks

  /** What the CRC of data of length zero always is: zero. */
  predicate Consistent(m: Meta)
  {
    m.len == 0 ==> m.crc == Zero()
  }

  lemma JoinConsistent(x: Meta, y: Meta)
    requires Consistent(x) && Consistent(y)
    ensures Consistent(Join(x, y))
  {
  }

  lemma {:induction false} FoldConsistent(ms: seq<Meta>)
    requires |ms| > 0 && forall i :: 0 <= i < |ms| ==> Consistent(ms[i])
    ensures Consistent(Fold(ms))
    decreases |ms|
  {
    if |ms| > 1 {
      var init := ms[..|ms| - 1];
      assert forall i :: 0 <= i < |init| ==> init[i] == ms[i];
      FoldConsistent(init);
      JoinConsistent(Fold(init), ms[|ms| - 1]);
    }
  }

  /** Joining is associative when the middle piece is consistent. */
  lemma JoinAssoc(x: Meta, y: Meta, z: Meta)
    requires Consistent(y)
    ensures Join(Join(x, y), z) == Join(x, Join(y, z))
  {
    CombinedAssoc(x.crc, y.crc, z.crc, y.len, z.len);
  }

  /** Folding a + b is joining the folds of a and of b, provided every
      chunk of b is Consistent (a chunk of length 0 has CRC 0, as the CRC
      of empty data does): then the chunks of a stream may be combined in
      groups, say in parallel, and the groups combined afterwards, with
      the same result.  Without it the split can differ, since Combined
      drops a crc2 whose length is 0. */
  lemma {:induction false} FoldSplit(a: seq<Meta>, b: seq<Meta>)
    requires |a| > 0 && |b| > 0
    requires forall i :: 0 <= i < |b| ==> Consistent(b[i])
    ensures Fold(a + b) == Join(Fold(a), Fold(b))
    decreases |b|
  {
    var ab := a + b;
    if |b| == 1 {
      assert ab[..|ab| - 1] == a;
    } else {
      var init := b[..|b| - 1];
      var last := b[|b| - 1];
      assert ab[..|ab| - 1] == a + init;
      assert forall i :: 0 <= i < |init| ==> init[i] == b[i];
      FoldSplit(a, init);
      FoldConsistent(init);
      JoinAssoc(Fold(a), Fold(init), last);
    }
  }
}
