/**
 An insertion-ordered counter: the default-zero dictionary the analysis bumps
 by one per item. Entries appear in the order their keys were first seen, as
 in a Python dict.
 */
module Tally {
  import opened Seqs

  datatype Entry<K> = Entry(key: K, count: nat)

  type Counter<K> = seq<Entry<K>>

  /** Whether some entry has key `k`. */
  predicate Contains<K(==)>(c: Counter<K>, k: K) {
    |c| > 0 && (c[0].key == k || Contains(c[1..], k))
  }

  /** Every key occurs in one entry only, as in a dict. */
  predicate DistinctKeys<K(==)>(c: Counter<K>) {
    |c| == 0 || (!Contains(c[1..], c[0].key) && DistinctKeys(c[1..]))
  }

  /** Every entry was created by an increment, so holds at least 1. */
  predicate Positive<K>(c: Counter<K>) {
    forall i :: 0 <= i < |c| ==> c[i].count > 0
  }

  /** The count of the first entry for `k`, or 0 when there is none. */
  function Get<K(==)>(c: Counter<K>, k: K): (r: nat)
    ensures !Contains(c, k) ==> r == 0
    ensures Positive(c) && Contains(c, k) ==> r > 0
  {
    if |c| == 0 then 0
    else if c[0].key == k then c[0].count
    else Get(c[1..], k)
  }

  /** Sum of all counts. */
  function Total<K>(c: Counter<K>): nat {
    if |c| == 0 then 0 else c[0].count + Total(c[1..])
  }

  /** Adds one to the count for `k`, starting a new entry at 1 when `k` is new. */
  function Increment<K(==,!new)>(c: Counter<K>, k: K): (r: Counter<K>)
    ensures Get(r, k) == Get(c, k) + 1
    ensures forall k' :: k' != k ==> Get(r, k') == Get(c, k')
    ensures forall k' :: Contains(r, k') <==> Contains(c, k') || k' == k
    ensures Total(r) == Total(c) + 1
    ensures DistinctKeys(c) ==> DistinctKeys(r)
    ensures Positive(c) ==> Positive(r)
  {
    if |c| == 0 then [Entry(k, 1)]
    else if c[0].key == k then [Entry(k, c[0].count + 1)] + c[1..]
    else
      var rest := Increment(c[1..], k);
      var r := [c[0]] + rest;
      assert r[1..] == rest;
      r
  }

  /** The counter after adding one for each key of `ks` in turn, starting empty. */
  function TallyOf<K(==,!new)>(ks: seq<K>): (r: Counter<K>)
    ensures DistinctKeys(r) && Positive(r)
    ensures forall k :: Get(r, k) == multiset(ks)[k]
    ensures forall k :: Contains(r, k) <==> k in ks
    ensures Total(r) == |ks|
  {
    if |ks| == 0 then []
    else
      var init, last := ks[..|ks| - 1], ks[|ks| - 1];
      assert ks == init + [last];
      Increment(TallyOf(init), last)
  }

  /** The key of every element, in order. */
  function KeysOf<T, K>(s: seq<T>, key: T -> K): (r: seq<K>)
    ensures |r| == |s|
  {
    if |s| == 0 then [] else [key(s[0])] + KeysOf(s[1..], key)
  }

  /** The elements whose key is `k`. */
  function HasKey<T, K(==)>(key: T -> K, k: K): T -> bool {
    x => key(x) == k
  }

  /** Reference count: how many elements of `s` have key `k`. */
  function CountKey<T, K(==)>(s: seq<T>, key: T -> K, k: K): nat {
    Count(s, HasKey(key, k))
  }

  lemma {:induction false} KeysOfMultiplicity<T, K>(s: seq<T>, key: T -> K, k: K)
    ensures multiset(KeysOf(s, key))[k] == CountKey(s, key, k)
  {
    if |s| > 0 {
      KeysOfMultiplicity(s[1..], key, k);
      assert multiset(KeysOf(s, key)) == multiset{key(s[0])} + multiset(KeysOf(s[1..], key));
    }
  }

  /** The counter after adding one for the key of each element of `s` in turn. */
  function TallyBy<T, K(==,!new)>(s: seq<T>, key: T -> K): (r: Counter<K>)
    ensures DistinctKeys(r) && Positive(r)
    ensures forall k :: Get(r, k) == CountKey(s, key, k)
    ensures forall i :: 0 <= i < |s| ==> Contains(r, key(s[i]))
    ensures Total(r) == |s|
  {
    var ks := KeysOf(s, key);
    assert forall k :: Get(TallyOf(ks), k) == CountKey(s, key, k) by {
      forall k ensures multiset(ks)[k] == CountKey(s, key, k) {
        KeysOfMultiplicity(s, key, k);
      }
    }
    assert forall i :: 0 <= i < |s| ==> ks[i] == key(s[i]) by {
      KeysOfIndex(s, key);
    }
    TallyOf(ks)
  }

  lemma {:induction false} KeysOfIndex<T, K>(s: seq<T>, key: T -> K)
    ensures forall i :: 0 <= i < |s| ==> KeysOf(s, key)[i] == key(s[i])
  {
    if |s| > 0 {
      KeysOfIndex(s[1..], key);
    }
  }

  /** Sum of the counts read back for the keys `ks`, absent keys reading 0. */
  function SumAt<K(==)>(c: Counter<K>, ks: seq<K>): nat {
    if |ks| == 0 then 0 else Get(c, ks[0]) + SumAt(c, ks[1..])
  }

  /** The elements whose key is among `ks`. */
  function KeyIn<T, K(==)>(key: T -> K, ks: seq<K>): T -> bool {
    x => key(x) in ks
  }

  /** Reference count: how many elements of `s` have a key among `ks`. */
  function CountKeyIn<T, K(==)>(s: seq<T>, key: T -> K, ks: seq<K>): nat {
    Count(s, KeyIn(key, ks))
  }

  /** Summing the reference counts over distinct keys counts every element whose key is among them. */
  lemma {:induction false} SumOfCountKey<T, K>(s: seq<T>, key: T -> K, ks: seq<K>)
    requires Distinct(ks)
    ensures SumCountKey(s, key, ks) == CountKeyIn(s, key, ks)
  {
    if |s| > 0 {
      SumOfCountKey(s[1..], key, ks);
      SumCountKeyHead(s, key, ks);
    } else {
      SumCountKeyEmpty(s, key, ks);
    }
  }

  lemma {:induction false} SumCountKeyEmpty<T, K>(s: seq<T>, key: T -> K, ks: seq<K>)
    requires |s| == 0
    ensures SumCountKey(s, key, ks) == 0
  {
    if |ks| > 0 {
      SumCountKeyEmpty(s, key, ks[1..]);
    }
  }

  function SumCountKey<T, K(==)>(s: seq<T>, key: T -> K, ks: seq<K>): nat {
    if |ks| == 0 then 0 else CountKey(s, key, ks[0]) + SumCountKey(s, key, ks[1..])
  }

  lemma {:induction false} SumCountKeyHead<T, K>(s: seq<T>, key: T -> K, ks: seq<K>)
    requires |s| > 0 && Distinct(ks)
    ensures SumCountKey(s, key, ks) == (if key(s[0]) in ks then 1 else 0) + SumCountKey(s[1..], key, ks)
  {
    if |ks| > 0 {
      assert Distinct(ks[1..]);
      SumCountKeyHead(s, key, ks[1..]);
      if key(s[0]) == ks[0] {
        assert key(s[0]) !in ks[1..];
      }
    }
  }

  lemma {:induction false} SumAtTallyBy<T, K(!new)>(s: seq<T>, key: T -> K, ks: seq<K>)
    ensures SumAt(TallyBy(s, key), ks) == SumCountKey(s, key, ks)
  {
    if |ks| > 0 {
      SumAtTallyBy(s, key, ks[1..]);
    }
  }

  /**
   Reading the counts back for a list of distinct keys adds up to the number of
   elements whose key is in the list; so it reaches `|s|` exactly when every
   element's key is listed.
   */
  lemma ReadBackTotal<T, K(!new)>(s: seq<T>, key: T -> K, ks: seq<K>)
    requires Distinct(ks)
    ensures SumAt(TallyBy(s, key), ks) == CountKeyIn(s, key, ks)
    ensures SumAt(TallyBy(s, key), ks) == |s| <==> forall i :: 0 <= i < |s| ==> key(s[i]) in ks
  {
    SumAtTallyBy(s, key, ks);
    SumOfCountKey(s, key, ks);
    CountKeyInBound(s, key, ks);
  }

  lemma {:induction false} CountKeyInBound<T, K>(s: seq<T>, key: T -> K, ks: seq<K>)
    ensures CountKeyIn(s, key, ks) <= |s|
    ensures CountKeyIn(s, key, ks) == |s| <==> forall i :: 0 <= i < |s| ==> key(s[i]) in ks
  {
    if |s| > 0 {
      CountKeyInBound(s[1..], key, ks);
      assert forall i :: 1 <= i < |s| ==> s[i] == s[1..][i - 1];
    }
  }

  /** The largest count. */
  function MaxCount<K(==,!new)>(c: Counter<K>): (m: nat)
    ensures forall k :: Get(c, k) <= m
  {
    if |c| == 0 then 0
    else
      var rest := MaxCount(c[1..]);
      if c[0].count >= rest then c[0].count else rest
  }

  /** A key holding the largest count. */
  function MaxKey<K(==,!new)>(c: Counter<K>): (k: K)
    requires |c| > 0
    ensures Contains(c, k)
    ensures DistinctKeys(c) ==> Get(c, k) == MaxCount(c)
  {
    if |c| == 1 || c[0].count >= MaxCount(c[1..]) then c[0].key
    else
      var k := MaxKey(c[1..]);
      assert DistinctKeys(c) ==> k != c[0].key;
      k
  }
}
