/** Listing the entries of a dictionary and ordering them by a count, descending.

    Both halves of the index rank by count: the tokenizer sorts the items of its
    frequency dictionary (`sorted(..., key=count, reverse=True)`), and the listing
    of the store asks the database for its rows `ORDER BY word_count DESC`. In both
    places the order in which entries reach the sort is unspecified (a Python 2
    dictionary, a table scan), so `Entries` picks them in an arbitrary order and
    `SortDesc` is a stable sort: entries with equal counts end up in whatever
    order they arrived, and nothing is promised about that order. */
module Ranking {

  /** `s` lists every entry of `m` exactly once, as a (key, value) pair. */
  ghost predicate ListsMap<K, V>(s: seq<(K, V)>, m: map<K, V>)
  {
    && |s| == |m|
    && (forall i :: 0 <= i < |s| ==> s[i].0 in m && s[i].1 == m[s[i].0])
    && (forall i, j :: 0 <= i < j < |s| ==> s[i].0 != s[j].0)
    && (forall k :: k in m ==> exists i :: 0 <= i < |s| && s[i].0 == k)
  }

  /** The entries of `m`, one pair per key, in an order the caller cannot rely on
      (`dict.items()`, or the rows a table scan returns). */
  method Entries<K, V>(m: map<K, V>) returns (s: seq<(K, V)>)
    ensures ListsMap(s, m)
  {
    var rest := m.Keys;
    s := [];
    while rest != {}
      invariant rest <= m.Keys
      invariant |s| + |rest| == |m|
      invariant forall i :: 0 <= i < |s| ==> s[i].0 in m && s[i].0 !in rest && s[i].1 == m[s[i].0]
      invariant forall i, j :: 0 <= i < j < |s| ==> s[i].0 != s[j].0
      invariant forall k :: k in m && k !in rest ==> exists i :: 0 <= i < |s| && s[i].0 == k
      decreases rest
    {
      var k :| k in rest;
      ghost var before := s;
      s := s + [(k, m[k])];
      rest := rest - {k};
      forall k' | k' in m && k' !in rest
        ensures exists i :: 0 <= i < |s| && s[i].0 == k'
      {
        if k' == k {
          assert s[|before|].0 == k';
        } else {
          var i :| 0 <= i < |before| && before[i].0 == k';
          assert s[i].0 == k';
        }
      }
    }
  }

  /** Keys never increase along `s`. */
  ghost predicate NonIncreasing<T>(s: seq<T>, key: T -> int)
  {
    forall i, j :: 0 <= i < j < |s| ==> key(s[i]) >= key(s[j])
  }

  /** Places `e` in front of the first element whose key is not larger than its own. */
  function Insert<T>(e: T, s: seq<T>, key: T -> int): (r: seq<T>)
    ensures multiset(r) == multiset(s) + multiset{e}
  {
    if s == [] then [e]
    else if key(s[0]) > key(e) then
      assert s == [s[0]] + s[1..];
      [s[0]] + Insert(e, s[1..], key)
    else
      [e] + s
  }

  /** Inserting into a sequence ordered by descending key keeps it ordered. */
  lemma {:induction false} InsertKeepsOrder<T>(e: T, s: seq<T>, key: T -> int)
    requires NonIncreasing(s, key)
    ensures NonIncreasing(Insert(e, s, key), key)
  {
    if s != [] && key(s[0]) > key(e) {
      var tail := Insert(e, s[1..], key);
      InsertKeepsOrder(e, s[1..], key);
      forall j | 0 <= j < |tail|
        ensures key(s[0]) >= key(tail[j])
      {
        assert tail[j] in multiset(s[1..]) + multiset{e};
        if tail[j] != e {
          var k :| 0 <= k < |s[1..]| && s[1..][k] == tail[j];
          assert s[k + 1] == tail[j];
        }
      }
      var r := [s[0]] + tail;
      forall i, j | 0 <= i < j < |r|
        ensures key(r[i]) >= key(r[j])
      {
        if i > 0 {
          assert r[i] == tail[i - 1] && r[j] == tail[j - 1];
        } else {
          assert r[j] == tail[j - 1];
        }
      }
    }
  }

  /** Stable sort by descending key: the result is a permutation of `s` whose
      keys never increase. */
  function SortDesc<T>(s: seq<T>, key: T -> int): (r: seq<T>)
    ensures multiset(r) == multiset(s)
    ensures NonIncreasing(r, key)
  {
    if s == [] then []
    else
      assert s == [s[0]] + s[1..];
      InsertKeepsOrder(s[0], SortDesc(s[1..], key), key);
      Insert(s[0], SortDesc(s[1..], key), key)
  }

  /** A sequence without repetitions holds each value at most once. */
  lemma {:induction false} DistinctOccursOnce<T>(s: seq<T>, x: T)
    requires forall i, j :: 0 <= i < j < |s| ==> s[i] != s[j]
    ensures multiset(s)[x] <= 1
  {
    if s != [] {
      assert s == [s[0]] + s[1..];
      DistinctOccursOnce(s[1..], x);
      if x == s[0] {
        assert x !in s[1..];
      }
    }
  }

  /** A value found at two positions occurs at least twice. */
  lemma RepeatOccursTwice<T>(s: seq<T>, i: nat, j: nat)
    requires i < j < |s| && s[i] == s[j]
    ensures multiset(s)[s[i]] >= 2
  {
    assert s == s[..j] + s[j..];
    assert s[i] in s[..j];
    assert s[j..][0] == s[j];
  }

  /** Sorting the listing of a dictionary, by any key, still lists the dictionary. */
  lemma SortingKeepsListing<K, V>(s: seq<(K, V)>, m: map<K, V>, key: ((K, V)) -> int)
    requires ListsMap(s, m)
    ensures ListsMap(SortDesc(s, key), m)
  {
    PermutationKeepsListing(s, SortDesc(s, key), m);
  }

  /** Any reordering of a listing of `m` lists `m`. */
  lemma PermutationKeepsListing<K, V>(s: seq<(K, V)>, r: seq<(K, V)>, m: map<K, V>)
    requires ListsMap(s, m) && multiset(r) == multiset(s)
    ensures ListsMap(r, m)
  {
    assert |r| == |multiset(r)| == |multiset(s)| == |s|;
    PermutationKeepsEntries(s, r, m);
    PermutationKeepsDistinctKeys(s, r, m);
    PermutationKeepsKeys(s, r, m);
  }

  lemma PermutationKeepsEntries<K, V>(s: seq<(K, V)>, r: seq<(K, V)>, m: map<K, V>)
    requires multiset(r) == multiset(s)
    requires forall i :: 0 <= i < |s| ==> s[i].0 in m && s[i].1 == m[s[i].0]
    ensures forall i :: 0 <= i < |r| ==> r[i].0 in m && r[i].1 == m[r[i].0]
  {
    forall i | 0 <= i < |r|
      ensures r[i].0 in m && r[i].1 == m[r[i].0]
    {
      assert r[i] in multiset(s);
    }
  }

  lemma PermutationKeepsDistinctKeys<K, V>(s: seq<(K, V)>, r: seq<(K, V)>, m: map<K, V>)
    requires multiset(r) == multiset(s)
    requires forall i, j :: 0 <= i < j < |s| ==> s[i].0 != s[j].0
    requires forall i :: 0 <= i < |r| ==> r[i].0 in m && r[i].1 == m[r[i].0]
    ensures forall i, j :: 0 <= i < j < |r| ==> r[i].0 != r[j].0
  {
    forall i, j | 0 <= i < j < |r|
      ensures r[i].0 != r[j].0
    {
      if r[i].0 == r[j].0 {
        RepeatOccursTwice(r, i, j);
        DistinctOccursOnce(s, r[i]);
        assert false;
      }
    }
  }

  lemma PermutationKeepsKeys<K, V>(s: seq<(K, V)>, r: seq<(K, V)>, m: map<K, V>)
    requires multiset(r) == multiset(s)
    requires forall k :: k in m ==> exists i :: 0 <= i < |s| && s[i].0 == k
    ensures forall k :: k in m ==> exists i :: 0 <= i < |r| && r[i].0 == k
  {
    forall k | k in m
      ensures exists i :: 0 <= i < |r| && r[i].0 == k
    {
      var i :| 0 <= i < |s| && s[i].0 == k;
      assert s[i] in multiset(r);
      var j :| 0 <= j < |r| && r[j] == s[i];
    }
  }
}
