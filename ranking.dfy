/**
 * `heapq.nlargest(n, iterable, key=...)`: the `n` best items, best first.
 * The library documents it as equivalent to
 * `sorted(iterable, key=key, reverse=True)[:n]`, a stable sort, so among items
 * with equal keys the one met first in the iterable comes first. Items here
 * are sentence indices offered in increasing order, so "met first" is
 * "smaller index".
 */
module Ranking {

  /** `a` ranks above `b`: a larger key, or an equal key and an earlier position. */
  predicate Outranks(key: map<nat, real>, a: nat, b: nat)
  {
    a in key && b in key && (key[a] > key[b] || (key[a] == key[b] && a < b))
  }

  predicate StrictlyIncreasing(s: seq<nat>)
  {
    forall i, j :: 0 <= i < j < |s| ==> s[i] < s[j]
  }

  /** Every candidate has a key. */
  predicate Keyed(cands: seq<nat>, key: map<nat, real>)
  {
    forall i :: 0 <= i < |cands| ==> cands[i] in key
  }

  /** The position of the first candidate with the largest key. */
  function Best(cands: seq<nat>, key: map<nat, real>): (b: nat)
    requires |cands| > 0 && Keyed(cands, key)
    ensures b < |cands|
    ensures forall j :: 0 <= j < |cands| ==> key[cands[j]] <= key[cands[b]]
    ensures forall j :: 0 <= j < b ==> key[cands[j]] < key[cands[b]]
    decreases |cands|
  {
    if |cands| == 1 then 0
    else
      var b := Best(cands[..|cands| - 1], key);
      if key[cands[|cands| - 1]] > key[cands[b]] then |cands| - 1 else b
  }

  /** `s` without its element at position `i`. */
  function RemoveAt(s: seq<nat>, i: nat): (r: seq<nat>)
    requires i < |s|
    ensures |r| == |s| - 1
    ensures forall k :: 0 <= k < i ==> r[k] == s[k]
    ensures forall k :: i <= k < |r| ==> r[k] == s[k + 1]
  {
    s[..i] + s[i + 1..]
  }

  /** The `n` best candidates, best first: repeatedly take the best and drop it. */
  function NLargest(n: nat, cands: seq<nat>, key: map<nat, real>): (r: seq<nat>)
    requires Keyed(cands, key)
    ensures |r| <= n && |r| <= |cands|
    decreases n
  {
    if n == 0 || |cands| == 0 then []
    else
      var b := Best(cands, key);
      var rest := RemoveAt(cands, b);
      [cands[b]] + NLargest(n - 1, rest, key)
  }

  /** Removing an element keeps a sequence increasing. */
  lemma RemoveAtIncreasing(s: seq<nat>, i: nat)
    requires i < |s| && StrictlyIncreasing(s)
    ensures StrictlyIncreasing(RemoveAt(s, i))
  {
    var r := RemoveAt(s, i);
    forall p, q | 0 <= p < q < |r| ensures r[p] < r[q] {
      assert r[p] == s[if p < i then p else p + 1];
      assert r[q] == s[if q < i then q else q + 1];
    }
  }

  /** Each chosen candidate ranks above every one chosen after it. */
  predicate Ranked(r: seq<nat>, key: map<nat, real>)
  {
    forall i, j :: 0 <= i < j < |r| ==> Outranks(key, r[i], r[j])
  }

  /** Every chosen candidate ranks above every candidate left out. */
  predicate Dominates(r: seq<nat>, cands: seq<nat>, key: map<nat, real>)
  {
    forall k, i :: 0 <= k < |cands| && cands[k] !in r && 0 <= i < |r| ==> Outranks(key, r[i], cands[k])
  }

  /** The best candidate ranks above each candidate that remains once it is removed. */
  lemma BestOutranksRemaining(cands: seq<nat>, key: map<nat, real>, k: nat)
    requires |cands| > 0 && Keyed(cands, key) && StrictlyIncreasing(cands)
    requires k < |cands| - 1
    ensures Outranks(key, cands[Best(cands, key)], RemoveAt(cands, Best(cands, key))[k])
  {
    var b := Best(cands, key);
    var p := if k < b then k else k + 1;
    assert RemoveAt(cands, b)[k] == cands[p];
  }

  /** The selection has `min(n, |cands|)` elements, all of them candidates. */
  lemma {:induction false} NLargestPicks(n: nat, cands: seq<nat>, key: map<nat, real>)
    requires Keyed(cands, key) && StrictlyIncreasing(cands)
    ensures |NLargest(n, cands, key)| == (if n < |cands| then n else |cands|)
    ensures forall i :: 0 <= i < |NLargest(n, cands, key)| ==> NLargest(n, cands, key)[i] in cands
    decreases n
  {
    if n > 0 && |cands| > 0 {
      var b := Best(cands, key);
      var rest := RemoveAt(cands, b);
      RemoveAtIncreasing(cands, b);
      NLargestPicks(n - 1, rest, key);
      var r', r := NLargest(n - 1, rest, key), NLargest(n, cands, key);
      assert r == [cands[b]] + r';
      forall i | 0 <= i < |r| ensures r[i] in cands {
        if i > 0 {
          var k :| 0 <= k < |rest| && rest[k] == r'[i - 1];
          assert r[i] == cands[if k < b then k else k + 1];
        }
      }
    }
  }

  lemma RankedCons(x: nat, r: seq<nat>, key: map<nat, real>)
    requires Ranked(r, key)
    requires forall i :: 0 <= i < |r| ==> Outranks(key, x, r[i])
    ensures Ranked([x] + r, key)
  {
    var s := [x] + r;
    forall i, j | 0 <= i < j < |s| ensures Outranks(key, s[i], s[j]) {
      assert s[j] == r[j - 1];
      if i > 0 { assert s[i] == r[i - 1]; }
    }
  }

  /** The best candidate ranks above everything selected from the candidates that remain. */
  lemma BestOutranksSelection(m: nat, cands: seq<nat>, key: map<nat, real>)
    requires |cands| > 0 && Keyed(cands, key) && StrictlyIncreasing(cands)
    ensures forall i :: 0 <= i < |NLargest(m, RemoveAt(cands, Best(cands, key)), key)| ==>
      Outranks(key, cands[Best(cands, key)], NLargest(m, RemoveAt(cands, Best(cands, key)), key)[i])
  {
    var b := Best(cands, key);
    var rest := RemoveAt(cands, b);
    RemoveAtIncreasing(cands, b);
    NLargestPicks(m, rest, key);
    var r := NLargest(m, rest, key);
    forall i | 0 <= i < |r| ensures Outranks(key, cands[b], r[i]) {
      var k :| 0 <= k < |rest| && rest[k] == r[i];
      BestOutranksRemaining(cands, key, k);
    }
  }

  /** The selection comes out best first, ties in candidate order. */
  lemma {:induction false} NLargestRanked(n: nat, cands: seq<nat>, key: map<nat, real>)
    requires Keyed(cands, key) && StrictlyIncreasing(cands)
    ensures Ranked(NLargest(n, cands, key), key)
    decreases n
  {
    if n > 0 && |cands| > 0 {
      var b := Best(cands, key);
      var rest := RemoveAt(cands, b);
      RemoveAtIncreasing(cands, b);
      NLargestRanked(n - 1, rest, key);
      BestOutranksSelection(n - 1, cands, key);
      RankedCons(cands[b], NLargest(n - 1, rest, key), key);
    }
  }

  lemma DominatesCons(b: nat, r: seq<nat>, cands: seq<nat>, key: map<nat, real>)
    requires b < |cands|
    requires Dominates(r, RemoveAt(cands, b), key)
    requires forall p :: 0 <= p < |cands| - 1 ==> Outranks(key, cands[b], RemoveAt(cands, b)[p])
    ensures Dominates([cands[b]] + r, cands, key)
  {
    var s := [cands[b]] + r;
    var rest := RemoveAt(cands, b);
    forall k, i | 0 <= k < |cands| && cands[k] !in s && 0 <= i < |s| ensures Outranks(key, s[i], cands[k]) {
      assert k != b by { assert s[0] == cands[b]; }
      var p := if k < b then k else k - 1;
      assert rest[p] == cands[k];
      if i > 0 {
        assert s[i] == r[i - 1];
      }
    }
  }

  /** No candidate left out of the selection ranks above a chosen one. */
  lemma {:induction false} NLargestComplete(n: nat, cands: seq<nat>, key: map<nat, real>)
    requires Keyed(cands, key) && StrictlyIncreasing(cands)
    ensures Dominates(NLargest(n, cands, key), cands, key)
    decreases n
  {
    if n > 0 && |cands| > 0 {
      var b := Best(cands, key);
      var rest := RemoveAt(cands, b);
      RemoveAtIncreasing(cands, b);
      NLargestComplete(n - 1, rest, key);
      forall p | 0 <= p < |rest| ensures Outranks(key, cands[b], rest[p]) {
        BestOutranksRemaining(cands, key, p);
      }
      DominatesCons(b, NLargest(n - 1, rest, key), cands, key);
    }
  }

  /** When there are no more candidates than places, every candidate is chosen. */
  lemma {:induction false} NLargestTakesAll(n: nat, cands: seq<nat>, key: map<nat, real>)
    requires Keyed(cands, key) && StrictlyIncreasing(cands) && |cands| <= n
    ensures forall k :: 0 <= k < |cands| ==> cands[k] in NLargest(n, cands, key)
    decreases n
  {
    if n > 0 && |cands| > 0 {
      var b := Best(cands, key);
      var rest := RemoveAt(cands, b);
      RemoveAtIncreasing(cands, b);
      NLargestTakesAll(n - 1, rest, key);
      var r', r := NLargest(n - 1, rest, key), NLargest(n, cands, key);
      assert r == [cands[b]] + r';
      forall k | 0 <= k < |cands| ensures cands[k] in r {
        if k != b {
          var p := if k < b then k else k - 1;
          assert rest[p] == cands[k];
          assert rest[p] in r';
        }
      }
    }
  }
}
