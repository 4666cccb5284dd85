/**
  Ranking of search hits: `results.sort(key=score, reverse=True)` followed by
  `results[:limit]`. Python's sort is stable, so hits with equal scores keep
  the order in which the scan found them.
*/
module Ranking {
  import opened Common
  import opened Storage

  /** What the cosine similarity of two vectors evaluates to. */
  datatype Similarity =
    | Score(value: real)   // a number
    | NaN                  // a zero-norm vector: every comparison with it is false
    | Incompatible         // numpy raised (vectors of different lengths)

  /** One element of the result list: `{"id", "score", "payload"}`. */
  datatype Hit = Hit(id: string, score: real, payload: Payload)

  predicate SortedDesc(hs: seq<Hit>) {
    forall i, j :: 0 <= i < j < |hs| ==> hs[i].score >= hs[j].score
  }

  /** Places `h` after every hit scoring at least as much, before the first scoring less. */
  function Insert(hs: seq<Hit>, h: Hit): (r: seq<Hit>)
    ensures |r| == |hs| + 1
  {
    if hs == [] then [h]
    else if hs[0].score >= h.score then [hs[0]] + Insert(hs[1..], h)
    else [h] + hs
  }

  /** Stable sort by descending score, as an insertion sort from the front. */
  function SortDesc(hs: seq<Hit>): (r: seq<Hit>)
    ensures |r| == |hs|
  {
    if hs == [] then [] else Insert(SortDesc(hs[..|hs| - 1]), hs[|hs| - 1])
  }

  lemma {:induction false} InsertPermutes(hs: seq<Hit>, h: Hit)
    ensures multiset(Insert(hs, h)) == multiset(hs) + multiset{h}
  {
    if hs != [] && hs[0].score >= h.score {
      var t := Insert(hs[1..], h);
      InsertPermutes(hs[1..], h);
      assert Insert(hs, h) == [hs[0]] + t;
      assert multiset([hs[0]] + t) == multiset{hs[0]} + multiset(t);
      assert hs == [hs[0]] + hs[1..];
      assert multiset(hs) == multiset{hs[0]} + multiset(hs[1..]);
    }
  }

  /** Every hit of `Insert(hs, h)` is `h` or one of `hs`. */
  lemma {:induction false} InsertMembers(hs: seq<Hit>, h: Hit)
    ensures forall x :: x in Insert(hs, h) ==> x in hs || x == h
  {
    if hs != [] && hs[0].score >= h.score {
      InsertMembers(hs[1..], h);
      assert Insert(hs, h) == [hs[0]] + Insert(hs[1..], h);
    }
  }

  /** The sort neither loses nor invents hits. */
  lemma {:induction false} SortDescPermutes(hs: seq<Hit>)
    ensures multiset(SortDesc(hs)) == multiset(hs)
  {
    if hs != [] {
      SortDescPermutes(hs[..|hs| - 1]);
      SortDescPermutesStep(hs);
    }
  }

  /** The inductive step of `SortDescPermutes`: inserting the last hit adds it once. */
  lemma SortDescPermutesStep(hs: seq<Hit>)
    requires hs != [] && multiset(SortDesc(hs[..|hs| - 1])) == multiset(hs[..|hs| - 1])
    ensures multiset(SortDesc(hs)) == multiset(hs)
  {
    var init, last := hs[..|hs| - 1], hs[|hs| - 1];
    InsertPermutes(SortDesc(init), last);
    assert SortDesc(hs) == Insert(SortDesc(init), last);
    InitLast(hs);
  }

  /** The hits with score exactly `k`, in order. */
  function WithScore(hs: seq<Hit>, k: real): seq<Hit> {
    if hs == [] then [] else (if hs[0].score == k then [hs[0]] else []) + WithScore(hs[1..], k)
  }

  /** Python's `hs[:limit]`: a negative limit drops that many hits from the end. */
  function Truncate(hs: seq<Hit>, limit: int): (r: seq<Hit>)
    ensures limit >= 0 ==> |r| == Min(limit, |hs|)
    ensures limit < 0 ==> |r| == if |hs| + limit < 0 then 0 else |hs| + limit
    ensures r == hs[..|r|]
  {
    if limit >= 0 then hs[..Min(limit, |hs|)]
    else if |hs| + limit < 0 then []
    else hs[..|hs| + limit]
  }

  lemma {:induction false} InsertSorted(hs: seq<Hit>, h: Hit)
    requires SortedDesc(hs)
    ensures SortedDesc(Insert(hs, h))
  {
    if hs != [] && hs[0].score >= h.score {
      InsertSorted(hs[1..], h);
      var r := Insert(hs, h);
      var t := Insert(hs[1..], h);
      assert r == [hs[0]] + t;
      InsertMembers(hs[1..], h);
      forall i, j | 0 <= i < j < |r| ensures r[i].score >= r[j].score {
        if i == 0 {
          assert r[j] == t[j - 1];
          assert r[j] in t;
          assert r[j] in hs[1..] || r[j] == h;
        } else {
          assert r[i] == t[i - 1] && r[j] == t[j - 1];
        }
      }
    }
  }

  /** The sort's output is in non-increasing score order. */
  lemma {:induction false} SortDescSorted(hs: seq<Hit>)
    ensures SortedDesc(SortDesc(hs))
  {
    if hs != [] {
      SortDescSorted(hs[..|hs| - 1]);
      InsertSorted(SortDesc(hs[..|hs| - 1]), hs[|hs| - 1]);
    }
  }

  lemma {:induction false} WithScoreAppend(a: seq<Hit>, b: seq<Hit>, k: real)
    ensures WithScore(a + b, k) == WithScore(a, k) + WithScore(b, k)
  {
    if a != [] {
      assert (a + b)[0] == a[0];
      assert (a + b)[1..] == a[1..] + b;
      WithScoreAppend(a[1..], b, k);
      assert WithScore(a + b, k) == (if a[0].score == k then [a[0]] else []) + WithScore(a[1..] + b, k);
    } else {
      assert a + b == b;
    }
  }

  lemma {:induction false} InsertWithScore(hs: seq<Hit>, h: Hit, k: real)
    requires SortedDesc(hs)
    ensures WithScore(Insert(hs, h), k) == WithScore(hs, k) + (if h.score == k then [h] else [])
  {
    if hs == [] {
    } else if hs[0].score >= h.score {
      InsertWithScore(hs[1..], h, k);
      assert Insert(hs, h) == [hs[0]] + Insert(hs[1..], h);
      assert WithScore(Insert(hs, h), k) == (if hs[0].score == k then [hs[0]] else []) + WithScore(Insert(hs[1..], h), k);
    } else {
      // every remaining hit scores less than h, so none of them scores k when h does
      if h.score == k {
        NoneWithScore(hs, k);
      }
      assert Insert(hs, h) == [h] + hs;
    }
  }

  lemma {:induction false} NoneWithScore(hs: seq<Hit>, k: real)
    requires forall i :: 0 <= i < |hs| ==> hs[i].score < k
    ensures WithScore(hs, k) == []
  {
    if hs != [] {
      NoneWithScore(hs[1..], k);
    }
  }

  /** Stability: for every score, the hits with that score appear in the order the scan found them. */
  lemma {:induction false} SortDescStable(hs: seq<Hit>, k: real)
    ensures WithScore(SortDesc(hs), k) == WithScore(hs, k)
  {
    if hs != [] {
      var init, last := hs[..|hs| - 1], hs[|hs| - 1];
      SortDescStable(init, k);
      SortDescSorted(init);
      InsertWithScore(SortDesc(init), last, k);
      assert SortDesc(hs) == Insert(SortDesc(init), last);
      assert hs == init + [last];
      WithScoreAppend(init, [last], k);
      assert WithScore([last], k) == (if last.score == k then [last] else []);
    }
  }

  lemma {:induction false} WithScorePrefix(hs: seq<Hit>, n: nat, k: real)
    requires n <= |hs|
    ensures |WithScore(hs[..n], k)| <= |WithScore(hs, k)|
    ensures WithScore(hs[..n], k) == WithScore(hs, k)[..|WithScore(hs[..n], k)|]
  {
    assert hs == hs[..n] + hs[n..];
    WithScoreAppend(hs[..n], hs[n..], k);
  }

  /**
    The ranked page: hits in non-increasing score order; for a non-negative limit,
    `min(limit, len(hits))` of them; taken from the input without repetition; no
    hit left out scores more than one returned; and for every score a prefix of
    the input's hits with that score (ties keep scan order).
  */
  lemma RankedPage(hs: seq<Hit>, limit: int)
    ensures var r := Truncate(SortDesc(hs), limit);
      && SortedDesc(r)
      && (limit >= 0 ==> |r| == Min(limit, |hs|))
      && (forall h :: h in r ==> h in hs)
      && multiset(r) <= multiset(hs)
      && (forall h, x :: h in multiset(hs) - multiset(r) && x in r ==> h.score <= x.score)
      && (forall k :: |WithScore(r, k)| <= |WithScore(hs, k)| && WithScore(r, k) == WithScore(hs, k)[..|WithScore(r, k)|])
  {
    var s := SortDesc(hs);
    var r := Truncate(s, limit);
    SortDescSorted(hs);
    SortDescPermutes(hs);
    PageDominates(s, |r|);
    forall h | h in r ensures h in hs {
      assert h in multiset(s);
    }
    forall k ensures |WithScore(r, k)| <= |WithScore(hs, k)| && WithScore(r, k) == WithScore(hs, k)[..|WithScore(r, k)|] {
      WithScorePrefix(s, |r|, k);
      SortDescStable(hs, k);
    }
  }

  /** Cutting a sorted list after `n` hits leaves out only hits scoring at most as much as every kept one. */
  lemma PageDominates(s: seq<Hit>, n: nat)
    requires SortedDesc(s) && n <= |s|
    ensures multiset(s[..n]) <= multiset(s)
    ensures forall h, x :: h in multiset(s) - multiset(s[..n]) && x in s[..n] ==> h.score <= x.score
  {
    assert s == s[..n] + s[n..];
    assert multiset(s) == multiset(s[..n]) + multiset(s[n..]);
    forall h, x | h in multiset(s) - multiset(s[..n]) && x in s[..n] ensures h.score <= x.score {
      assert h in multiset(s[n..]);
      var j :| 0 <= j < |s[n..]| && s[n..][j] == h;
      var i :| 0 <= i < n && s[..n][i] == x;
      assert s[i] == x && s[n + j] == h;
    }
  }

  /** Inserting after a run of hits that score at least as much and before one that scores less. */
  lemma {:induction false} InsertAt(hs: seq<Hit>, h: Hit, j: nat)
    requires j <= |hs|
    requires forall m :: 0 <= m < j ==> hs[m].score >= h.score
    requires j < |hs| ==> hs[j].score < h.score
    ensures Insert(hs, h) == hs[..j] + [h] + hs[j..]
  {
    if j > 0 {
      InsertAt(hs[1..], h, j - 1);
      assert hs[..j] == [hs[0]] + hs[1..][..j - 1];
      assert hs[j..] == hs[1..][j - 1..];
    }
  }

  /** The first position whose hit scores less than `h`, or the end. */
  method InsertionPoint(sorted: seq<Hit>, h: Hit) returns (j: nat)
    ensures j <= |sorted|
    ensures forall m :: 0 <= m < j ==> sorted[m].score >= h.score
    ensures j < |sorted| ==> sorted[j].score < h.score
  {
    j := 0;
    while j < |sorted| && sorted[j].score >= h.score
      invariant 0 <= j <= |sorted|
      invariant forall m :: 0 <= m < j ==> sorted[m].score >= h.score
    {
      j := j + 1;
    }
  }

  /** `results.sort(key=lambda x: x["score"], reverse=True)`, as an insertion sort on a local list. */
  method SortByScore(hits: seq<Hit>) returns (sorted: seq<Hit>)
    ensures sorted == SortDesc(hits)
  {
    sorted := [];
    var i := 0;
    while i < |hits|
      invariant 0 <= i <= |hits|
      invariant sorted == SortDesc(hits[..i])
    {
      var h := hits[i];
      var j := InsertionPoint(sorted, h);
      InsertAt(sorted, h, j);
      assert hits[..i + 1] == hits[..i] + [h];
      assert hits[..i + 1][..i] == hits[..i];
      sorted := sorted[..j] + [h] + sorted[j..];
      i := i + 1;
    }
    assert hits[..i] == hits;
  }
}
