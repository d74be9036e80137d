/**
  The deterministic part of the two retrieval paths in retriever.py.

  TF-IDF path: the cosine-similarity vector `sims` (one entry per corpus row) and numpy's
  `argsort` of it are foreign; both arrive as inputs. numpy's default sort is not stable,
  so an argsort is modelled as ANY permutation of the positions that is ascending by score
  (`IsArgsort`), and no property below depends on how ties are ordered.

  FAISS path: the search output (scores and ids, one row) is foreign and arrives as input.
 */
module Ranking {

  import opened Wrappers
  import opened Records
  import opened Text

  /** `order` is a result numpy's `argsort` may return for `sims`: a permutation of the
      positions of `sims`, ascending by score, ties in any order. */
  predicate IsArgsort(sims: seq<real>, order: seq<nat>) {
    && |order| == |sims|
    && (forall i :: 0 <= i < |order| ==> order[i] < |sims|)
    && (forall x :: 0 <= x < |sims| ==> x in order)
    && (forall i, j :: 0 <= i < j < |order| ==> order[i] != order[j])
    && (forall i, j :: 0 <= i < j < |order| ==> sims[order[i]] <= sims[order[j]])
  }

  /** The start position Python computes for the slice `a[-k:]` of a length-`n` sequence:
      `-k`, made relative to the end when negative, then clamped to `[0, n]`. For `k = 0`
      this is `a[0:]`, the whole sequence. */
  function SliceStart(k: int, n: nat): (s: nat)
    ensures s <= n
  {
    SliceIndex(-k, n)
  }

  /** Python's `s[::-1]`. */
  function Reverse<T>(s: seq<T>): (r: seq<T>)
    ensures |r| == |s|
    ensures forall i :: 0 <= i < |s| ==> r[i] == s[|s| - 1 - i]
  {
    if s == [] then [] else Reverse(s[1..]) + [s[0]]
  }

  /** `similarities.argsort()[-top_k:][::-1]` (retriever.py:151), with `order` the argsort:
      the last `n - s` positions of the argsort, highest score first. */
  function TopIndices(sims: seq<real>, order: seq<nat>, topK: int): (c: seq<nat>)
    requires IsArgsort(sims, order)
    ensures |c| == |sims| - SliceStart(topK, |sims|)
    ensures forall i :: 0 <= i < |c| ==> c[i] == order[|sims| - 1 - i]
  {
    Reverse(order[SliceStart(topK, |sims|)..])
  }

  predicate InRange(sims: seq<real>, c: seq<nat>) {
    forall k :: 0 <= k < |c| ==> c[k] < |sims|
  }

  /** What the top indices are, independently of any particular argsort: `n - s` distinct
      positions in non-increasing score order, every position left out scores no higher
      than any position kept, and nothing is left out when the slice starts at 0. */
  predicate IsTopSlice(sims: seq<real>, topK: int, c: seq<nat>) {
    && |c| == |sims| - SliceStart(topK, |sims|)
    && InRange(sims, c)
    && (forall i, j :: 0 <= i < j < |c| ==> c[i] != c[j])
    && (forall i, j :: 0 <= i < j < |c| ==> sims[c[i]] >= sims[c[j]])
    && (forall x, k :: 0 <= x < |sims| && x !in c && 0 <= k < |c| ==> sims[x] <= sims[c[k]])
    && (SliceStart(topK, |sims|) == 0 ==> forall x :: 0 <= x < |sims| ==> x in c)
  }

  lemma Members<T>(c: seq<T>)
    ensures forall k :: 0 <= k < |c| ==> c[k] in c
  {
  }

  lemma TopIndicesOrdered(sims: seq<real>, order: seq<nat>, topK: int, c: seq<nat>)
    requires IsArgsort(sims, order) && c == TopIndices(sims, order, topK)
    ensures InRange(sims, c)
    ensures forall i, j :: 0 <= i < j < |c| ==> c[i] != c[j] && sims[c[i]] >= sims[c[j]]
  {
    var n := |sims|;
    forall i, j | 0 <= i < j < |c| ensures c[i] != c[j] && sims[c[i]] >= sims[c[j]] {
      assert c[i] == order[n - 1 - i] && c[j] == order[n - 1 - j];
    }
  }

  lemma TopIndicesKeepTail(sims: seq<real>, order: seq<nat>, topK: int, c: seq<nat>)
    requires IsArgsort(sims, order) && c == TopIndices(sims, order, topK)
    ensures forall p :: SliceStart(topK, |sims|) <= p < |sims| ==> order[p] in c
  {
    var n := |sims|;
    forall p | SliceStart(topK, n) <= p < n ensures order[p] in c {
      assert c[n - 1 - p] == order[p];
    }
  }

  lemma TopIndicesCutOff(sims: seq<real>, order: seq<nat>, topK: int, c: seq<nat>)
    requires IsArgsort(sims, order) && c == TopIndices(sims, order, topK)
    ensures forall x, k :: 0 <= x < |sims| && x !in c && 0 <= k < |c| ==> sims[x] <= sims[c[k]]
  {
    var n, start := |sims|, SliceStart(topK, |sims|);
    TopIndicesKeepTail(sims, order, topK, c);
    assert |c| == n - start;
    forall x, k | 0 <= x < n && x !in c && 0 <= k < |c| ensures sims[x] <= sims[c[k]] {
      assert x in order;
      var p :| 0 <= p < n && order[p] == x;
      assert p < start;
      assert c[k] == order[n - 1 - k] && p < n - 1 - k;
    }
  }

  /** Whatever argsort numpy returns, the reversed tail slice is a top slice. */
  lemma TopIndicesAreTopSlice(sims: seq<real>, order: seq<nat>, topK: int)
    requires IsArgsort(sims, order)
    ensures IsTopSlice(sims, topK, TopIndices(sims, order, topK))
  {
    var c := TopIndices(sims, order, topK);
    TopIndicesOrdered(sims, order, topK, c);
    TopIndicesCutOff(sims, order, topK, c);
    TopIndicesKeepTail(sims, order, topK, c);
    if SliceStart(topK, |sims|) == 0 {
      forall x | 0 <= x < |sims| ensures x in c {
        assert x in order;
      }
    }
  }

  /** The number of leading candidates, from position `i`, whose score is positive. */
  function LeadingPositive(sims: seq<real>, c: seq<nat>, i: nat): (m: nat)
    requires i <= |c| && InRange(sims, c)
    ensures i <= m <= |c|
    ensures forall k :: i <= k < m ==> sims[c[k]] > 0.0
    ensures m < |c| ==> sims[c[m]] <= 0.0
    decreases |c| - i
  {
    if i < |c| && sims[c[i]] > 0.0 then LeadingPositive(sims, c, i + 1) else i
  }

  /** The loop of retriever.py:153-163 from enumeration position `i` on: a candidate with a
      positive score becomes a result ranked by its position among ALL candidates. */
  function Collect(corpus: seq<Record>, sims: seq<real>, c: seq<nat>, i: nat): (rs: seq<SearchResult>)
    requires |corpus| == |sims| && i <= |c| && InRange(sims, c)
    ensures |rs| <= |c| - i
    ensures forall j :: 0 <= j < |rs| ==> rs[j].score > 0.0 && i < rs[j].rank <= |c|
    decreases |c| - i
  {
    if i == |c| then []
    else
      var idx := c[i];
      (if sims[idx] > 0.0 then [ResultFor(corpus[idx], sims[idx], i + 1)] else [])
      + Collect(corpus, sims, c, i + 1)
  }

  lemma {:induction false} CollectNone(corpus: seq<Record>, sims: seq<real>, c: seq<nat>, i: nat)
    requires |corpus| == |sims| && i <= |c| && InRange(sims, c)
    requires forall k :: i <= k < |c| ==> sims[c[k]] <= 0.0
    ensures Collect(corpus, sims, c, i) == []
    decreases |c| - i
  {
    if i < |c| {
      CollectNone(corpus, sims, c, i + 1);
    }
  }

  /** When the positive candidates are exactly a prefix, the loop keeps that prefix and the
      rank of the j-th kept candidate is j + 1. */
  lemma {:induction false} CollectPrefix(corpus: seq<Record>, sims: seq<real>, c: seq<nat>, i: nat, m: nat)
    requires |corpus| == |sims| && i <= m <= |c| && InRange(sims, c)
    requires forall k :: i <= k < m ==> sims[c[k]] > 0.0
    requires forall k :: m <= k < |c| ==> sims[c[k]] <= 0.0
    ensures var rs := Collect(corpus, sims, c, i);
      && |rs| == m - i
      && forall j :: 0 <= j < |rs| ==> rs[j] == ResultFor(corpus[c[i + j]], sims[c[i + j]], i + j + 1)
    decreases |c| - i
  {
    if i == m {
      CollectNone(corpus, sims, c, i);
    } else {
      CollectPrefix(corpus, sims, c, i + 1, m);
    }
  }

  /** In a non-increasing candidate list, everything from the first non-positive score on
      is non-positive. */
  lemma NonPositiveTail(sims: seq<real>, c: seq<nat>, m: nat)
    requires InRange(sims, c) && m <= |c|
    requires forall i, j :: 0 <= i < j < |c| ==> sims[c[i]] >= sims[c[j]]
    requires m < |c| ==> sims[c[m]] <= 0.0
    ensures forall k :: m <= k < |c| ==> sims[c[k]] <= 0.0
  {
    forall k | m <= k < |c| ensures sims[c[k]] <= 0.0 {
      if k > m {
        assert sims[c[m]] >= sims[c[k]];
      }
    }
  }

  lemma PrefixMembers<T>(c: seq<T>, m: nat)
    requires m <= |c|
    ensures forall k :: 0 <= k < m ==> c[k] in c[..m]
  {
    forall k | 0 <= k < m ensures c[k] in c[..m] {
      assert c[..m][k] == c[k];
    }
  }

  /** A slice `a[-k:]` that starts after position 0 has `k` non-zero, and keeps exactly `k`
      elements when `k` is positive. */
  lemma SliceStartCut(k: int, n: nat)
    requires SliceStart(k, n) > 0
    ensures k != 0 && (k >= 1 ==> n - SliceStart(k, n) == k)
  {
  }

  /** A record left out of the kept prefix `c[..m]` of a top slice scores no higher than
      the last kept one, and if it scores positive then the slice cut it off: `top_k` is
      not 0, and when it is positive exactly `top_k` records were kept. */
  lemma OmittedRecord(sims: seq<real>, topK: int, c: seq<nat>, m: nat, x: nat)
    requires IsTopSlice(sims, topK, c) && m == LeadingPositive(sims, c, 0)
    requires x < |sims| && x !in c[..m]
    ensures m > 0 ==> sims[x] <= sims[c[m - 1]]
    ensures sims[x] > 0.0 ==> topK != 0 && (topK >= 1 ==> m == topK)
  {
    NonPositiveTail(sims, c, m);
    PrefixMembers(c, m);
    Members(c);
    if sims[x] > 0.0 {
      assert x !in c;
      assert m == |c|;
      SliceStartCut(topK, |sims|);
    }
  }

  /** The kept prefix `c[..m]` of a top slice has the order-statistics `TfidfHits`
      promises. */
  lemma KeptPrefix(sims: seq<real>, topK: int, c: seq<nat>, m: nat)
    requires IsTopSlice(sims, topK, c) && m == LeadingPositive(sims, c, 0)
    ensures var hits := c[..m];
      && (forall x :: 0 <= x < |sims| && x !in hits && |hits| > 0 ==> sims[x] <= sims[hits[|hits| - 1]])
      && (topK == 0 ==> forall x :: 0 <= x < |sims| && sims[x] > 0.0 ==> x in hits)
      && (topK >= 1 ==> forall x :: 0 <= x < |sims| && sims[x] > 0.0 && x !in hits ==> |hits| == topK)
  {
    forall x: nat | x < |sims| && x !in c[..m]
      ensures m > 0 ==> sims[x] <= sims[c[m - 1]]
      ensures sims[x] > 0.0 ==> topK != 0 && (topK >= 1 ==> m == topK)
    {
      OmittedRecord(sims, topK, c, m, x);
    }
  }

  /** The record positions the TF-IDF path reports, in order: distinct, in range, positive
      and non-increasing, at most `top_k` of them. */
  function TfidfHits(sims: seq<real>, order: seq<nat>, topK: int): (hits: seq<nat>)
    requires IsArgsort(sims, order)
    ensures forall j :: 0 <= j < |hits| ==> hits[j] < |sims| && sims[hits[j]] > 0.0
    ensures forall i, j :: 0 <= i < j < |hits| ==> hits[i] != hits[j]
    ensures forall i, j :: 0 <= i < j < |hits| ==> sims[hits[i]] >= sims[hits[j]]
    ensures topK >= 1 ==> |hits| <= topK
  {
    var c := TopIndices(sims, order, topK);
    TopIndicesAreTopSlice(sims, order, topK);
    c[..LeadingPositive(sims, c, 0)]
  }

  /** Top-k: no record left out scores above the lowest reported one; with `top_k = 0`
      every positive record is reported; with `top_k >= 1` a positive record is left out
      only when `top_k` records were reported. */
  lemma TfidfHitsAreTopK(sims: seq<real>, order: seq<nat>, topK: int)
    requires IsArgsort(sims, order)
    ensures var hits := TfidfHits(sims, order, topK);
      && (forall x :: 0 <= x < |sims| && x !in hits && |hits| > 0 ==> sims[x] <= sims[hits[|hits| - 1]])
      && (topK == 0 ==> forall x :: 0 <= x < |sims| && sims[x] > 0.0 ==> x in hits)
      && (topK >= 1 ==> forall x :: 0 <= x < |sims| && sims[x] > 0.0 && x !in hits ==> |hits| == topK)
  {
    var c := TopIndices(sims, order, topK);
    TopIndicesAreTopSlice(sims, order, topK);
    KeptPrefix(sims, topK, c, LeadingPositive(sims, c, 0));
  }

  /** With `top_k = 1` the single reported position is a most similar record, and nothing
      is reported only when no record is positively similar. */
  lemma TopHitIsMaximum(sims: seq<real>, order: seq<nat>)
    requires IsArgsort(sims, order)
    ensures var hits := TfidfHits(sims, order, 1);
      && (|hits| > 0 ==> forall y :: 0 <= y < |sims| ==> sims[y] <= sims[hits[0]])
      && (|hits| == 0 ==> forall y :: 0 <= y < |sims| ==> sims[y] <= 0.0)
  {
    var hits := TfidfHits(sims, order, 1);
    TfidfHitsAreTopK(sims, order, 1);
    forall y | 0 <= y < |sims| && |hits| > 0 ensures sims[y] <= sims[hits[0]] {
      if y in hits {
        var j :| 0 <= j < |hits| && hits[j] == y;
        assert j == 0;
      }
    }
  }

  /** `_retrieve_tfidf` over a given similarity vector and argsort: the j-th result is the
      record at the j-th reported position, with that record's similarity as score and
      rank j + 1 (ranks are consecutive because only a suffix of the candidates is
      dropped). */
  function RetrieveTfidf(corpus: seq<Record>, sims: seq<real>, order: seq<nat>, topK: int): (rs: seq<SearchResult>)
    requires |corpus| == |sims| && IsArgsort(sims, order)
    ensures var hits := TfidfHits(sims, order, topK);
      && |rs| == |hits|
      && forall j :: 0 <= j < |rs| ==> rs[j] == ResultFor(corpus[hits[j]], sims[hits[j]], j + 1)
  {
    var c := TopIndices(sims, order, topK);
    TopIndicesOrdered(sims, order, topK, c);
    var m := LeadingPositive(sims, c, 0);
    NonPositiveTail(sims, c, m);
    CollectPrefix(corpus, sims, c, 0, m);
    Collect(corpus, sims, c, 0)
  }

  /** The TF-IDF results as the caller sees them: at most `top_k` (for `top_k >= 1`),
      positive scores in non-increasing order, ranks exactly 1, 2, ..., n. */
  lemma RetrieveTfidfRanked(corpus: seq<Record>, sims: seq<real>, order: seq<nat>, topK: int)
    requires |corpus| == |sims| && IsArgsort(sims, order)
    ensures var rs := RetrieveTfidf(corpus, sims, order, topK);
      && (topK >= 1 ==> |rs| <= topK)
      && (forall j :: 0 <= j < |rs| ==> rs[j].score > 0.0 && rs[j].rank == j + 1)
      && (forall i, j :: 0 <= i < j < |rs| ==> rs[i].score >= rs[j].score)
  {
    var rs := RetrieveTfidf(corpus, sims, order, topK);
    var hits := TfidfHits(sims, order, topK);
    forall i, j | 0 <= i < j < |rs| ensures rs[i].score >= rs[j].score {
      assert rs[i].score == sims[hits[i]] && rs[j].score == sims[hits[j]];
    }
  }

  // ---------------------------------------------------------------------------------
  // A witness that an argsort exists for every score vector (insertion sort on positions)

  predicate Ascending(sims: seq<real>, xs: seq<nat>)
    requires InRange(sims, xs)
  {
    forall i, j :: 0 <= i < j < |xs| ==> sims[xs[i]] <= sims[xs[j]]
  }

  predicate Distinct(xs: seq<nat>) {
    forall i, j :: 0 <= i < j < |xs| ==> xs[i] != xs[j]
  }

  function InsertAscending(sims: seq<real>, x: nat, xs: seq<nat>): (r: seq<nat>)
    requires x < |sims| && InRange(sims, xs)
    ensures |r| == |xs| + 1 && InRange(sims, r)
    ensures forall y :: y in r <==> y == x || y in xs
  {
    if xs == [] || sims[x] <= sims[xs[0]] then [x] + xs
    else [xs[0]] + InsertAscending(sims, x, xs[1..])
  }

  lemma {:induction false} InsertKeepsAscending(sims: seq<real>, x: nat, xs: seq<nat>)
    requires x < |sims| && InRange(sims, xs) && Ascending(sims, xs)
    ensures Ascending(sims, InsertAscending(sims, x, xs))
    decreases |xs|
  {
    var r := InsertAscending(sims, x, xs);
    if xs == [] || sims[x] <= sims[xs[0]] {
      forall i, j | 0 <= i < j < |r| ensures sims[r[i]] <= sims[r[j]] {
        if i == 0 && j > 1 {
          assert sims[xs[0]] <= sims[xs[j - 1]];
        }
      }
    } else {
      var rest := InsertAscending(sims, x, xs[1..]);
      InsertKeepsAscending(sims, x, xs[1..]);
      forall j | 0 <= j < |rest| ensures sims[xs[0]] <= sims[rest[j]] {
        assert rest[j] in rest;
        if rest[j] != x {
          var k :| 0 <= k < |xs[1..]| && xs[1..][k] == rest[j];
          assert xs[k + 1] == rest[j];
        }
      }
      forall i, j | 0 <= i < j < |r| ensures sims[r[i]] <= sims[r[j]] {
        if i > 0 {
          assert r[i] == rest[i - 1] && r[j] == rest[j - 1];
        } else {
          assert r[j] == rest[j - 1];
        }
      }
    }
  }

  lemma {:induction false} InsertKeepsDistinct(sims: seq<real>, x: nat, xs: seq<nat>)
    requires x < |sims| && InRange(sims, xs) && Distinct(xs) && x !in xs
    ensures Distinct(InsertAscending(sims, x, xs))
    decreases |xs|
  {
    var r := InsertAscending(sims, x, xs);
    if xs == [] || sims[x] <= sims[xs[0]] {
      forall i, j | 0 <= i < j < |r| ensures r[i] != r[j] {
        if i == 0 {
          assert r[j] in xs;
        }
      }
    } else {
      var rest := InsertAscending(sims, x, xs[1..]);
      assert x !in xs[1..];
      assert Distinct(xs[1..]) by {
        forall i, j | 0 <= i < j < |xs[1..]| ensures xs[1..][i] != xs[1..][j] {
          assert xs[1..][i] == xs[i + 1] && xs[1..][j] == xs[j + 1];
        }
      }
      InsertKeepsDistinct(sims, x, xs[1..]);
      assert xs[0] !in xs[1..];
      forall i, j | 0 <= i < j < |r| ensures r[i] != r[j] {
        assert r[j] == rest[j - 1];
        if i == 0 {
          assert r[j] in rest;
        } else {
          assert r[i] == rest[i - 1];
        }
      }
    }
  }

  function SortPositions(sims: seq<real>, xs: seq<nat>): (r: seq<nat>)
    requires InRange(sims, xs) && Distinct(xs)
    ensures |r| == |xs| && InRange(sims, r) && Ascending(sims, r) && Distinct(r)
    ensures forall y :: y in r <==> y in xs
  {
    if xs == [] then []
    else
      var tail := xs[1..];
      assert Distinct(tail) by {
        forall i, j | 0 <= i < j < |tail| ensures tail[i] != tail[j] {
          assert tail[i] == xs[i + 1] && tail[j] == xs[j + 1];
        }
      }
      var sorted := SortPositions(sims, tail);
      assert xs[0] !in tail;
      InsertKeepsAscending(sims, xs[0], sorted);
      InsertKeepsDistinct(sims, xs[0], sorted);
      InsertAscending(sims, xs[0], sorted)
  }

  /** Some valid argsort of `sims` always exists. */
  function SomeArgsort(sims: seq<real>): (order: seq<nat>)
    ensures IsArgsort(sims, order)
  {
    var positions: seq<nat> := seq(|sims|, i requires 0 <= i < |sims| => i);
    forall x | 0 <= x < |sims| ensures x in positions {
      assert positions[x] == x;
    }
    SortPositions(sims, positions)
  }

  // ---------------------------------------------------------------------------------
  // FAISS path

  /** One row of `index.search(query, top_k)`: scores and ids, where FAISS pads with id -1
      when fewer than `top_k` vectors are stored. */
  datatype FaissHits = FaissHits(scores: seq<real>, ids: seq<int>)

  /** How far `zip(scores, ids)` runs. */
  function ZipLength(h: FaissHits): nat {
    if |h.scores| <= |h.ids| then |h.scores| else |h.ids|
  }

  /** The loop of retriever.py:132-144 as written: the guard is `idx < len(qa_data)`, and
      pandas' `iloc` counts a negative position from the end (raising IndexError, here
      `None`, below `-len`). */
  function CollectFaissAsWritten(corpus: seq<Record>, h: FaissHits, i: nat): Option<seq<SearchResult>>
    requires i <= ZipLength(h)
    decreases ZipLength(h) - i
  {
    if i == ZipLength(h) then Some([])
    else
      var idx := h.ids[i];
      if idx < |corpus| then
        if idx < -|corpus| then None
        else
          var rec := corpus[if idx < 0 then idx + |corpus| else idx];
          match CollectFaissAsWritten(corpus, h, i + 1)
          case None => None
          case Some(rest) => Some([ResultFor(rec, h.scores[i], i + 1)] + rest)
      else CollectFaissAsWritten(corpus, h, i + 1)
  }

  /** The largest finite 32-bit float, negated: the score FAISS pairs with padding ids in
      an inner-product index. */
  const NegFloatMax: real := -340282346638528859811704183484516925440.0

  /** A two-record index asked for three neighbours: the padding id -1 passes the guard
      and the last record is reported a second time, with the padding score. */
  lemma FaissPaddingReportsLastRecord()
    ensures var a := Record("What is diabetes?", "A", "sample", "sample.xml");
      var b := Record("How is asthma treated?", "B", "sample", "sample.xml");
      var h := FaissHits([0.9, 0.4, NegFloatMax], [0, 1, -1]);
      && CollectFaissAsWritten([a, b], h, 0)
         == Some([ResultFor(a, 0.9, 1), ResultFor(b, 0.4, 2), ResultFor(b, NegFloatMax, 3)])
      && CollectFaiss([a, b], h, 0) == [ResultFor(a, 0.9, 1), ResultFor(b, 0.4, 2)]
  {
    var a := Record("What is diabetes?", "A", "sample", "sample.xml");
    var b := Record("How is asthma treated?", "B", "sample", "sample.xml");
    var h := FaissHits([0.9, 0.4, NegFloatMax], [0, 1, -1]);
    var corpus := [a, b];
    assert ZipLength(h) == 3 && corpus[1] == b && corpus[0] == a;
    assert CollectFaissAsWritten(corpus, h, 3) == Some([]);
    var r2 := CollectFaissAsWritten(corpus, h, 2).value;
    assert r2[0] == ResultFor(b, NegFloatMax, 3);
    assert r2 == [ResultFor(b, NegFloatMax, 3)];
    var r1 := CollectFaissAsWritten(corpus, h, 1).value;
    assert r1 == [ResultFor(b, 0.4, 2)] + r2;
    var r0 := CollectFaissAsWritten(corpus, h, 0).value;
    assert r0 == [ResultFor(a, 0.9, 1)] + r1;
    assert r0 == [ResultFor(a, 0.9, 1), ResultFor(b, 0.4, 2), ResultFor(b, NegFloatMax, 3)];
    assert CollectFaiss([a, b], h, 2) == [];
  }

  /** `res` reports the search row `rank - 1`, at or after row `i`, whose id is a genuine
      corpus position: that record with the row's score. */
  predicate ReportsRow(corpus: seq<Record>, h: FaissHits, i: nat, res: SearchResult) {
    var k := res.rank - 1;
    && i <= k < ZipLength(h) && 0 <= h.ids[k] < |corpus|
    && res == ResultFor(corpus[h.ids[k]], h.scores[k], k + 1)
  }

  /** Ranks strictly increase along `rs`. */
  predicate RanksAscend(rs: seq<SearchResult>) {
    forall j1, j2 :: 0 <= j1 < j2 < |rs| ==> rs[j1].rank < rs[j2].rank
  }

  /** Some result in `rs` carries search position `k`, as rank `k + 1`. */
  predicate RanksRow(rs: seq<SearchResult>, k: int) {
    exists j :: 0 <= j < |rs| && rs[j].rank == k + 1
  }

  /** The FAISS loop with the guard the padding calls for, `0 <= idx < len(qa_data)`:
      every result is the record of a genuine search hit, ranked by its search position. */
  function CollectFaiss(corpus: seq<Record>, h: FaissHits, i: nat): (rs: seq<SearchResult>)
    requires i <= ZipLength(h)
    ensures |rs| <= ZipLength(h) - i
    ensures forall j :: 0 <= j < |rs| ==> ReportsRow(corpus, h, i, rs[j])
    decreases ZipLength(h) - i
  {
    if i == ZipLength(h) then []
    else
      var idx := h.ids[i];
      var rest := CollectFaiss(corpus, h, i + 1);
      if 0 <= idx < |corpus| then
        var r := [ResultFor(corpus[idx], h.scores[i], i + 1)] + rest;
        assert ReportsRow(corpus, h, i, r[0]);
        assert forall j :: 1 <= j < |r| ==> r[j] == rest[j - 1];
        r
      else rest
  }

  /** Order of the corrected loop: ranks strictly increase along the results. */
  lemma {:induction false} CollectFaissAscending(corpus: seq<Record>, h: FaissHits, i: nat)
    requires i <= ZipLength(h)
    ensures RanksAscend(CollectFaiss(corpus, h, i))
    decreases ZipLength(h) - i
  {
    if i < ZipLength(h) {
      CollectFaissAscending(corpus, h, i + 1);
      var rest := CollectFaiss(corpus, h, i + 1);
      var rs := CollectFaiss(corpus, h, i);
      if 0 <= h.ids[i] < |corpus| {
        assert rs == [ResultFor(corpus[h.ids[i]], h.scores[i], i + 1)] + rest;
        forall j | 0 <= j < |rest| ensures i + 1 < rest[j].rank {
          assert ReportsRow(corpus, h, i + 1, rest[j]);
        }
        forall j1, j2 | 0 <= j1 < j2 < |rs| ensures rs[j1].rank < rs[j2].rank {
          assert rs[j2] == rest[j2 - 1];
          if j1 == 0 {
            assert rs[0].rank == i + 1;
          } else {
            assert rs[j1] == rest[j1 - 1];
          }
        }
      }
    }
  }

  /** Completeness of the corrected loop: every genuine hit from position `i` on is
      reported. */
  lemma {:induction false} CollectFaissComplete(corpus: seq<Record>, h: FaissHits, i: nat)
    requires i <= ZipLength(h)
    ensures forall k :: i <= k < ZipLength(h) && 0 <= h.ids[k] < |corpus| ==>
      RanksRow(CollectFaiss(corpus, h, i), k)
    decreases ZipLength(h) - i
  {
    if i < ZipLength(h) {
      CollectFaissComplete(corpus, h, i + 1);
      var rest := CollectFaiss(corpus, h, i + 1);
      var rs := CollectFaiss(corpus, h, i);
      if 0 <= h.ids[i] < |corpus| {
        var head := ResultFor(corpus[h.ids[i]], h.scores[i], i + 1);
        assert rs == [head] + rest;
        assert RanksRow(rs, i) by { assert rs[0].rank == i + 1; }
        forall k | i < k < ZipLength(h) && 0 <= h.ids[k] < |corpus|
          ensures RanksRow(rs, k)
        {
          RanksRowCons(head, rest, k);
        }
      } else {
        assert rs == rest;
      }
    }
  }

  lemma RanksRowCons(head: SearchResult, rest: seq<SearchResult>, k: int)
    requires RanksRow(rest, k)
    ensures RanksRow([head] + rest, k)
  {
    var j :| 0 <= j < |rest| && rest[j].rank == k + 1;
    assert ([head] + rest)[j + 1] == rest[j];
  }
}
