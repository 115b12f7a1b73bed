/** Choosing the oldest keys of a cache: collect, sort by timestamp, take a prefix. */
module Eviction {
  import opened Base

  datatype Candidate = Candidate(key: Key, timestamp: int)

  function Min(a: int, b: int): int {
    if a < b then a else b
  }

  /**
   `gone` is what one eviction of `count` entries may remove: that many keys
   (or all of them), none strictly newer than a survivor.
   */
  ghost predicate OldestFirst(times: map<Key, int>, gone: set<Key>, count: nat) {
    && gone <= times.Keys
    && |gone| == Min(count, |times|)
    && forall g, k | g in gone && k in times.Keys - gone :: times[g] <= times[k]
  }

  /** A strictly newest key is evicted only together with everything else. */
  lemma NewestSurvives(times: map<Key, int>, gone: set<Key>, count: nat, newest: Key)
    requires OldestFirst(times, gone, count) && newest in times && count < |times|
    requires forall k | k in times && k != newest :: times[k] < times[newest]
    ensures newest !in gone
  {
    assert times.Keys - gone != {} by {
      assert |times.Keys - gone| == |times.Keys| - |gone|;
    }
    var k :| k in times.Keys - gone;
  }

  ghost predicate Ordered(cs: seq<Candidate>) {
    forall i, j | 0 <= i < j < |cs| :: cs[i].timestamp <= cs[j].timestamp
  }

  ghost predicate DistinctKeys(cs: seq<Candidate>) {
    forall i, j | 0 <= i < j < |cs| :: cs[i].key != cs[j].key
  }

  ghost function KeysOf(cs: seq<Candidate>): set<Key> {
    set c | c in cs :: c.key
  }

  ghost function KeySet(keys: seq<Key>): set<Key> {
    set k | k in keys
  }

  lemma KeySetStep(keys: seq<Key>, i: nat)
    requires i < |keys|
    ensures KeySet(keys[..i + 1]) == KeySet(keys[..i]) + {keys[i]}
  {
    assert keys[..i + 1] == keys[..i] + [keys[i]];
  }

  ghost predicate Lists(cs: seq<Candidate>, times: map<Key, int>) {
    && DistinctKeys(cs)
    && KeysOf(cs) == times.Keys
    && forall c | c in cs :: c.key in times && c.timestamp == times[c.key]
  }

  lemma {:induction false} DistinctCount(cs: seq<Candidate>)
    requires DistinctKeys(cs)
    ensures |KeysOf(cs)| == |cs|
  {
    if cs != [] {
      var n := |cs| - 1;
      DistinctCount(cs[..n]);
      assert KeysOf(cs) == KeysOf(cs[..n]) + {cs[n].key};
      forall c | c in cs[..n]
        ensures c.key != cs[n].key
      {
      }
    }
  }

  ghost predicate AbsentKey(cs: seq<Candidate>, key: Key) {
    forall i | 0 <= i < |cs| :: cs[i].key != key
  }

  function InsertAt(sorted: seq<Candidate>, c: Candidate, i: nat): (r: seq<Candidate>)
    requires i <= |sorted|
    ensures |r| == |sorted| + 1
    ensures forall j | 0 <= j < |r| :: r[j] == if j < i then sorted[j] else if j == i then c else sorted[j - 1]
    ensures multiset(r) == multiset(sorted) + multiset{c}
  {
    assert sorted == sorted[..i] + sorted[i..];
    sorted[..i] + [c] + sorted[i..]
  }

  lemma InsertedInOrder(sorted: seq<Candidate>, c: Candidate, i: nat)
    requires Ordered(sorted) && i <= |sorted|
    requires i > 0 ==> sorted[i - 1].timestamp <= c.timestamp
    requires i < |sorted| ==> c.timestamp <= sorted[i].timestamp
    ensures Ordered(InsertAt(sorted, c, i))
  {
    assert forall j | 0 <= j < i :: sorted[j].timestamp <= c.timestamp;
    assert forall j | i <= j < |sorted| :: c.timestamp <= sorted[j].timestamp;
  }

  lemma InsertedDistinct(sorted: seq<Candidate>, c: Candidate, i: nat)
    requires DistinctKeys(sorted) && AbsentKey(sorted, c.key) && i <= |sorted|
    ensures DistinctKeys(InsertAt(sorted, c, i))
  {
  }

  method Insert(sorted: seq<Candidate>, c: Candidate) returns (r: seq<Candidate>)
    requires Ordered(sorted) && DistinctKeys(sorted) && AbsentKey(sorted, c.key)
    ensures Ordered(r) && DistinctKeys(r)
    ensures multiset(r) == multiset(sorted) + multiset{c}
  {
    var i := |sorted|;
    while i > 0 && c.timestamp < sorted[i - 1].timestamp
      invariant 0 <= i <= |sorted|
      invariant i < |sorted| ==> c.timestamp < sorted[i].timestamp
    {
      i := i - 1;
    }
    InsertedInOrder(sorted, c, i);
    InsertedDistinct(sorted, c, i);
    r := InsertAt(sorted, c, i);
  }

  method SortByTimestamp(cs: seq<Candidate>) returns (r: seq<Candidate>)
    requires DistinctKeys(cs)
    ensures Ordered(r) && DistinctKeys(r)
    ensures multiset(r) == multiset(cs)
  {
    r := [];
    for i := 0 to |cs|
      invariant Ordered(r) && DistinctKeys(r)
      invariant multiset(r) == multiset(cs[..i])
    {
      forall j | 0 <= j < |r|
        ensures r[j].key != cs[i].key
      {
        assert r[j] in multiset(cs[..i]);
      }
      r := Insert(r, cs[i]);
      assert cs[..i + 1] == cs[..i] + [cs[i]];
    }
    assert cs[..|cs|] == cs;
  }

  lemma Appended(cs: seq<Candidate>, c: Candidate)
    requires DistinctKeys(cs) && c.key !in KeysOf(cs)
    ensures DistinctKeys(cs + [c]) && KeysOf(cs + [c]) == KeysOf(cs) + {c.key}
  {
    assert forall j | 0 <= j < |cs| :: cs[j].key in KeysOf(cs);
    assert forall x | x in cs :: x in cs + [c];
    assert c == (cs + [c])[|cs|];
  }

  method Collect(times: map<Key, int>) returns (candidates: seq<Candidate>)
    ensures Lists(candidates, times)
  {
    candidates := [];
    var rest := times.Keys;
    while rest != {}
      invariant rest <= times.Keys
      invariant DistinctKeys(candidates)
      invariant KeysOf(candidates) == times.Keys - rest
      invariant forall c | c in candidates :: c.key in times && c.timestamp == times[c.key]
      decreases rest
    {
      var k :| k in rest;
      Appended(candidates, Candidate(k, times[k]));
      candidates := candidates + [Candidate(k, times[k])];
      rest := rest - {k};
    }
  }

  lemma SameKeys(cs: seq<Candidate>, sorted: seq<Candidate>)
    requires multiset(sorted) == multiset(cs)
    ensures KeysOf(sorted) == KeysOf(cs) && forall c :: c in sorted <==> c in cs
  {
    assert forall c :: c in sorted <==> c in multiset(sorted);
    assert forall c :: c in cs <==> c in multiset(cs);
  }

  /** The keys one eviction of `count` entries removes, oldest first. */
  method OldestKeys(times: map<Key, int>, count: nat) returns (victims: seq<Key>)
    ensures OldestFirst(times, KeySet(victims), count)
    ensures |victims| == Min(count, |times|)
    ensures forall i, j | 0 <= i < j < |victims| :: victims[i] != victims[j]
  {
    var candidates := Collect(times);
    var sorted := SortByTimestamp(candidates);
    SameKeys(candidates, sorted);
    var n := if count > |sorted| then |sorted| else count;
    victims := seq(n, i requires 0 <= i < |sorted| => sorted[i].key);
    PrefixIsOldest(times, sorted, n, victims);
  }

  lemma PrefixIsOldest(times: map<Key, int>, sorted: seq<Candidate>, n: nat, victims: seq<Key>)
    requires Lists(sorted, times) && Ordered(sorted) && n <= |sorted|
    requires |victims| == n && forall i | 0 <= i < n :: victims[i] == sorted[i].key
    ensures var gone := KeySet(victims);
      && gone <= times.Keys && |gone| == n
      && (forall g, k | g in gone && k in times.Keys - gone :: times[g] <= times[k])
    ensures |times| == |sorted|
  {
    var gone := KeySet(victims);
    DistinctCount(sorted);
    DistinctCount(sorted[..n]);
    assert gone == KeysOf(sorted[..n]) by {
      forall k | k in gone
        ensures k in KeysOf(sorted[..n])
      {
        var i :| 0 <= i < n && victims[i] == k;
        assert sorted[..n][i].key == k;
      }
    }
    assert forall j | 0 <= j < n :: sorted[j].key == victims[j] && victims[j] in gone;
    forall g, k | g in gone && k in times.Keys - gone
      ensures times[g] <= times[k]
    {
      var i :| 0 <= i < n && victims[i] == g;
      assert k in KeysOf(sorted);
      var j :| 0 <= j < |sorted| && sorted[j].key == k;
      assert sorted[i] in sorted && sorted[j] in sorted;
    }
  }
}
