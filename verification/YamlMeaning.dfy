/**
 The meaning of the generated tree survives the merge: whatever the user's
 document looked like, it represents the generated one afterwards.
 */
module YamlMeaning {
  import opened YamlTree
  import opened YamlMerge

  /** A value that a mapping may leave out because it reads as a default. */
  predicate Omissible(path: Path, v: Tree) {
    IsKnownDefault(path, Prune(path, v))
  }

  /**
   `d` says what `s` says. `exact` marks mappings without stale keys, from
   which blank keys are removed as well.
   */
  ghost predicate Represents(d: Tree, s: Tree, path: Path, exact: bool)
    decreases s, 0
  {
    && d != Nil && s != Nil
    && match s.kind
       case Scalar => d.kind == Scalar && d.tag == s.tag && d.value == s.value
       case Sequence =>
         || (IsNull(d) && s.content == [])
         || (d.kind == Sequence && |d.content| == |s.content|
             && forall i | 0 <= i < |s.content| :: Represents(d.content[i], s.content[i], path, true))
       case Mapping =>
         && d.kind == Mapping
         && forall i | 0 <= i < |s.content| - 1 && i % 2 == 0 ::
              Carries(d, s.content[i], s.content[i + 1], path, exact || ShouldPrune(path))
       case Document => CopyShallow(d, s) == d
       case Empty => true
  }

  ghost predicate Carries(d: Tree, k: Tree, v: Tree, path: Path, exact: bool)
    decreases v, 1
  {
    && IsKind(d, Mapping) && k != Nil
    && var at, p := FindKey(d, k.value), path + [k.value];
    if at >= 0 then Represents(d.content[at + 1], v, p, false)
    else Omissible(p, v) || (exact && IsBlank(k.value))
  }

  lemma ExactIsWeaker(d: Tree, s: Tree, path: Path)
    requires Represents(d, s, path, false)
    ensures Represents(d, s, path, true)
  {
    if IsKind(s, Mapping) {
      forall i | 0 <= i < |s.content| - 1 && i % 2 == 0
        ensures Carries(d, s.content[i], s.content[i + 1], path, true)
      {
        assert Carries(d, s.content[i], s.content[i + 1], path, false || ShouldPrune(path));
      }
    }
  }

  // ------------------------------------------------------------- finding keys

  lemma FoundAt(n: Tree, key: string, at: nat)
    requires IsKind(n, Mapping) && at < |n.content| - 1 && at % 2 == 0 && HasKey(n.content[at], key)
    requires forall j | 0 <= j < at && j % 2 == 0 :: !HasKey(n.content[j], key)
    ensures FindKey(n, key) == at
  {
    var r := FindKey(n, key);
    assert HasKey(n.content[at], key);
  }

  lemma NotFound(n: Tree, key: string)
    requires IsKind(n, Mapping)
    requires forall j | 0 <= j < |n.content| - 1 && j % 2 == 0 :: !HasKey(n.content[j], key)
    ensures FindKey(n, key) == -1
  {
  }

  /** The search through a mapping that starts with the pair `k`, `v`. */
  lemma FindInTail(n: Tree, rest: Tree, k: Tree, v: Tree, key: string)
    requires IsKind(n, Mapping) && IsKind(rest, Mapping) && n.content == [k, v] + rest.content
    ensures HasKey(k, key) ==> FindKey(n, key) == 0 && n.content[FindKey(n, key) + 1] == v
    ensures !HasKey(k, key) && FindKey(rest, key) < 0 ==> FindKey(n, key) == -1
    ensures !HasKey(k, key) && FindKey(rest, key) >= 0 ==>
      FindKey(n, key) == FindKey(rest, key) + 2 && n.content[FindKey(n, key) + 1] == rest.content[FindKey(rest, key) + 1]
  {
    assert n.content[0] == k;
    assert forall j | 2 <= j < |n.content| :: n.content[j] == rest.content[j - 2];
    if HasKey(k, key) {
      FoundAt(n, key, 0);
    } else if FindKey(rest, key) < 0 {
      forall j | 0 <= j < |n.content| - 1 && j % 2 == 0
        ensures !HasKey(n.content[j], key)
      {
        if j >= 2 { assert !HasKey(rest.content[j - 2], key); }
      }
      NotFound(n, key);
    } else {
      var at := FindKey(rest, key);
      forall j | 0 <= j < at + 2 && j % 2 == 0
        ensures !HasKey(n.content[j], key)
      {
        if j >= 2 { assert !HasKey(rest.content[j - 2], key); }
      }
      FoundAt(n, key, at + 2);
    }
  }

  // ---------------------------------------------------------- copies and pruned copies

  lemma {:induction false} CopyRepresents(d: Tree, s: Tree, path: Path, exact: bool)
    requires Shaped(s) && UniqueKeys(s) && d != Nil && CopyShallow(d, s) == d
    ensures Represents(d, s, path, exact)
    decreases s
  {
    if s.kind == Sequence {
      forall i | 0 <= i < |s.content|
        ensures Represents(d.content[i], s.content[i], path, true)
      {
        assert Shaped(s.content[i]) && UniqueKeys(s.content[i]);
        CopyRepresents(d.content[i], s.content[i], path, true);
      }
    } else if s.kind == Mapping {
      forall i | 0 <= i < |s.content| - 1 && i % 2 == 0
        ensures Carries(d, s.content[i], s.content[i + 1], path, exact || ShouldPrune(path))
      {
        assert Shaped(s.content[i]) && Shaped(s.content[i + 1]) && UniqueKeys(s.content[i + 1]);
        FoundAt(d, s.content[i].value, i);
        CopyRepresents(d.content[i + 1], s.content[i + 1], path + [s.content[i].value], false);
      }
    }
  }

  lemma {:induction false} PruneShaped(path: Path, s: Tree)
    requires Shaped(s)
    ensures Shaped(Prune(path, s))
    decreases s, |s.content| + 1
  {
    if s.kind == Sequence {
      forall i | 0 <= i < |s.content|
        ensures Shaped(Prune(path, s).content[i])
      {
        PruneShaped(path, s.content[i]);
      }
    } else if s.kind == Mapping {
      PrunedPairsShaped(path, s, 0);
    }
  }

  lemma {:induction false} PrunedPairsShaped(path: Path, s: Tree, i: nat)
    requires Shaped(s) && s.kind == Mapping && i % 2 == 0
    ensures forall j | 0 <= j < |PrunedPairs(path, s, i)| :: Shaped(PrunedPairs(path, s, i)[j])
    decreases s, |s.content| - i
  {
    if i + 1 < |s.content| {
      PrunedPairsShaped(path, s, i + 2);
      assert Shaped(s.content[i]) && Shaped(s.content[i + 1]);
      PruneShaped(path + [s.content[i].value], s.content[i + 1]);
    }
  }

  /** Pruning leaves nothing but defaults in a value that was a default. */
  lemma {:induction false} PruneKeepsZero(path: Path, v: Tree)
    requires IsZero(v)
    ensures IsZero(Prune(path, v))
    decreases v, Len(v) + 1
  {
    if IsKind(v, Sequence) {
      forall i | 0 <= i < |v.content|
        ensures IsZero(Prune(path, v).content[i])
      {
        PruneKeepsZero(path, v.content[i]);
      }
    } else if IsKind(v, Mapping) {
      PrunedPairsAreZero(path, v, 0);
    }
  }

  lemma {:induction false} PrunedPairsAreZero(path: Path, v: Tree, i: nat)
    requires IsKind(v, Mapping) && IsZero(v) && i % 2 == 0
    ensures forall j | 0 <= j < |PrunedPairs(path, v, i)| && j % 2 == 1 :: IsZero(PrunedPairs(path, v, i)[j])
    decreases v, |v.content| - i
  {
    if i + 1 < |v.content| {
      PrunedPairsAreZero(path, v, i + 2);
      if v.content[i] != Nil {
        PruneKeepsZero(path + [v.content[i].value], v.content[i + 1]);
      }
    }
  }

  /** Whatever pruning drops would not have been written anyway. */
  lemma DroppedIsOmissible(path: Path, k: Tree, v: Tree)
    requires k != Nil && v != Nil && DropsPair(path, k, v)
    ensures Omissible(path + [k.value], v)
  {
    var p := path + [k.value];
    if IsKnownDefault(p, v) && IsZero(v) { PruneKeepsZero(p, v); }
  }

  lemma {:induction false} PruneRepresents(path: Path, s: Tree, exact: bool)
    requires Shaped(s) && UniqueKeys(s)
    ensures Represents(Prune(path, s), s, path, exact)
    decreases s, |s.content| + 1
  {
    if s.kind == Sequence {
      forall i | 0 <= i < |s.content|
        ensures Represents(Prune(path, s).content[i], s.content[i], path, true)
      {
        assert Shaped(s.content[i]) && UniqueKeys(s.content[i]);
        PruneRepresents(path, s.content[i], true);
      }
    } else if s.kind == Mapping {
      forall i | 0 <= i < |s.content| - 1 && i % 2 == 0
        ensures Carries(Prune(path, s), s.content[i], s.content[i + 1], path, exact || ShouldPrune(path))
      {
        PrunedPairsCarry(path, s, 0, i, exact || ShouldPrune(path));
      }
    }
  }

  lemma CarriesInTail(n: Tree, rest: Tree, k: Tree, v: Tree, key: Tree, value: Tree, path: Path, exact: bool)
    requires IsKind(n, Mapping) && IsKind(rest, Mapping) && n.content == [k, v] + rest.content
    requires key != Nil && !HasKey(k, key.value) && Carries(rest, key, value, path, exact)
    ensures Carries(n, key, value, path, exact)
  {
    FindInTail(n, rest, k, v, key.value);
  }

  lemma CarriesAtHead(n: Tree, rest: Tree, k: Tree, kept: Tree, v: Tree, path: Path, exact: bool)
    requires IsKind(n, Mapping) && IsKind(rest, Mapping) && n.content == [k, kept] + rest.content
    requires k != Nil && Represents(kept, v, path + [k.value], false)
    ensures Carries(n, k, v, path, exact)
  {
    FindInTail(n, rest, k, kept, k.value);
  }

  lemma CarriesByAbsence(n: Tree, k: Tree, v: Tree, path: Path, exact: bool)
    requires IsKind(n, Mapping) && k != Nil && FindKey(n, k.value) < 0 && Omissible(path + [k.value], v)
    ensures Carries(n, k, v, path, exact)
  {
  }

  function Pruned(path: Path, s: Tree, i: nat): Tree
    requires s != Nil
  {
    s.(content := PrunedPairs(path, s, i))
  }

  lemma {:induction false} PrunedPairsForget(path: Path, s: Tree, i: nat, key: string)
    requires IsKind(s, Mapping) && i % 2 == 0
    requires forall j | i <= j < |s.content| - 1 && j % 2 == 0 :: !HasKey(s.content[j], key)
    ensures FindKey(Pruned(path, s, i), key) < 0
    decreases |s.content| - i
  {
    if i + 1 < |s.content| {
      var k, v := s.content[i], s.content[i + 1];
      PrunedPairsForget(path, s, i + 2, key);
      if !DropsPair(path, k, v) {
        FindInTail(Pruned(path, s, i), Pruned(path, s, i + 2), k, Prune(path + [k.value], v), key);
      }
    }
  }

  /** The pair at `at` among the pairs kept from `i` on. */
  lemma {:induction false} PrunedPairsCarry(path: Path, s: Tree, i: nat, at: nat, exact: bool)
    requires Shaped(s) && UniqueKeys(s) && s.kind == Mapping && i % 2 == 0 && at % 2 == 0 && i <= at < |s.content| - 1
    ensures Carries(Pruned(path, s, i), s.content[at], s.content[at + 1], path, exact)
    decreases s, |s.content| - i
  {
    var k, v := s.content[i], s.content[i + 1];
    assert Shaped(k) && Shaped(v) && UniqueKeys(v);
    if i == at {
      PrunedHeadCarries(path, s, i, exact);
    } else {
      PrunedPairsCarry(path, s, i + 2, at, exact);
      if DropsPair(path, k, v) {
        assert Pruned(path, s, i) == Pruned(path, s, i + 2);
      } else {
        assert Shaped(s.content[at]);
        CarriesInTail(Pruned(path, s, i), Pruned(path, s, i + 2), k, Prune(path + [k.value], v),
                      s.content[at], s.content[at + 1], path, exact);
      }
    }
  }

  lemma {:induction false} PrunedHeadCarries(path: Path, s: Tree, i: nat, exact: bool)
    requires Shaped(s) && UniqueKeys(s) && s.kind == Mapping && i % 2 == 0 && i < |s.content| - 1
    ensures Carries(Pruned(path, s, i), s.content[i], s.content[i + 1], path, exact)
    decreases s, |s.content| - i, 0
  {
    var k, v := s.content[i], s.content[i + 1];
    assert Shaped(k) && Shaped(v) && UniqueKeys(v);
    PrunedPairsForget(path, s, i + 2, k.value);
    if DropsPair(path, k, v) {
      DroppedIsOmissible(path, k, v);
      CarriesByAbsence(Pruned(path, s, i), k, v, path, exact);
    } else {
      PruneRepresents(path + [k.value], v, false);
      CarriesAtHead(Pruned(path, s, i), Pruned(path, s, i + 2), k, Prune(path + [k.value], v), v, path, exact);
    }
  }

  // ---------------------------------------------------------------- one pair

  /** A pair written over the first entry for its key, or appended when there is none. */
  predicate PairPut(d: Tree, r: Tree, k: Tree, v: Tree) {
    && IsKind(d, Mapping) && IsKind(r, Mapping) && k != Nil && |d.content| % 2 == 0
    && var at := FindKey(d, k.value);
    if at >= 0 then r.content == d.content[at + 1 := v] else r.content == d.content + [k, v]
  }

  /** Both mappings have the same entry for `key`, in the same place, or none. */
  predicate SameEntry(d: Tree, r: Tree, key: string) {
    && FindKey(r, key) == FindKey(d, key)
    && (FindKey(r, key) >= 0 ==> r.content[FindKey(r, key) + 1] == d.content[FindKey(d, key) + 1])
  }

  /** Reads of a mapping that one pair was put into. */
  lemma PutThenFind(d: Tree, r: Tree, k: Tree, v: Tree, key: string)
    requires PairPut(d, r, k, v)
    ensures key == k.value ==> FindKey(r, key) >= 0 && r.content[FindKey(r, key) + 1] == v
    ensures key != k.value ==> SameEntry(d, r, key)
  {
    var at, n := FindKey(d, k.value), |d.content|;
    assert forall j | 0 <= j < n && j % 2 == 0 :: r.content[j] == d.content[j];
    var was := FindKey(d, key);
    forall j | 0 <= j < n - 1 && j % 2 == 0 && (was < 0 || j < was)
      ensures !HasKey(r.content[j], key)
    {
      assert !HasKey(d.content[j], key);
    }
    if was >= 0 {
      FoundAt(r, key, was);
    } else if key == k.value {
      FoundAt(r, key, n);
    } else {
      NotFound(r, key);
    }
  }

  /** Merging one pair keeps the tree well formed and carries that pair. */
  lemma {:induction false} MergePairCarries(d: Tree, k: Tree, v: Tree, path: Path, exact: bool)
    requires Shaped(d) && IsKind(d, Mapping) && Shaped(k) && Shaped(v) && UniqueKeys(v)
    ensures Shaped(MergePair(d, k, v, path))
    ensures Carries(MergePair(d, k, v, path), k, v, path, exact)
    decreases v, |v.content| + 3
  {
    var r, at, p := MergePair(d, k, v, path), FindKey(d, k.value), path + [k.value];
    if at >= 0 {
      assert Shaped(d.content[at + 1]);
      MergeCarries(d.content[at + 1], v, p);
      PutThenFind(d, r, k, MergeNode(d.content[at + 1], v, p), k.value);
    } else if !Omissible(p, v) {
      PruneShaped(p, v);
      PruneRepresents(p, v, false);
      PutThenFind(d, r, k, Prune(p, v), k.value);
    }
  }

  /** Merging one pair changes nothing a reader of another key sees. */
  lemma MergePairKeepsOthers(d: Tree, k: Tree, v: Tree, path: Path, key: string)
    requires IsKind(d, Mapping) && |d.content| % 2 == 0 && Shaped(k) && Shaped(v) && key != k.value
    ensures SameEntry(d, MergePair(d, k, v, path), key)
  {
    var r, at, p := MergePair(d, k, v, path), FindKey(d, k.value), path + [k.value];
    if at >= 0 {
      PutThenFind(d, r, k, MergeNode(d.content[at + 1], v, p), key);
    } else if !Omissible(p, v) {
      PutThenFind(d, r, k, Prune(p, v), key);
    }
  }

  // --------------------------------------------------------------- all the pairs

  lemma {:induction false} MergePairsKeepOthers(d: Tree, s: Tree, path: Path, i: nat, key: string)
    requires IsKind(d, Mapping) && |d.content| % 2 == 0 && IsKind(s, Mapping) && Shaped(s) && i % 2 == 0
    requires forall j | i <= j < |s.content| - 1 && j % 2 == 0 :: !HasKey(s.content[j], key)
    ensures SameEntry(d, MergePairs(d, s, path, i), key)
    decreases |s.content| - i
  {
    if i < |s.content| {
      assert Shaped(s.content[i]) && Shaped(s.content[i + 1]) && !HasKey(s.content[i], key);
      MergePairKeepsOthers(d, s.content[i], s.content[i + 1], path, key);
      MergePairsKeepOthers(MergePair(d, s.content[i], s.content[i + 1], path), s, path, i + 2, key);
    }
  }

  /** The pairs of `s` from `i` on are carried by `d`. */
  ghost predicate CarriesFrom(d: Tree, s: Tree, path: Path, i: nat, exact: bool) {
    s != Nil && forall j | i <= j < |s.content| - 1 && j % 2 == 0 :: Carries(d, s.content[j], s.content[j + 1], path, exact)
  }

  lemma CarriesOne(d: Tree, r: Tree, k: Tree, v: Tree, path: Path, exact: bool)
    requires IsKind(r, Mapping) && Carries(d, k, v, path, exact) && SameEntry(d, r, k.value)
    ensures Carries(r, k, v, path, exact)
  {
  }

  lemma CarriesNext(d: Tree, s: Tree, path: Path, i: nat, exact: bool)
    requires s != Nil && i % 2 == 0 && i < |s.content| - 1 && CarriesFrom(d, s, path, i + 2, exact)
    requires Carries(d, s.content[i], s.content[i + 1], path, exact)
    ensures CarriesFrom(d, s, path, i, exact)
  {
  }

  lemma LaterKeysDiffer(s: Tree, i: nat)
    requires IsKind(s, Mapping) && UniqueKeys(s) && i % 2 == 0 && i < |s.content| - 1 && s.content[i] != Nil
    ensures forall j | i + 2 <= j < |s.content| - 1 && j % 2 == 0 :: !HasKey(s.content[j], s.content[i].value)
  {
    forall j | i + 2 <= j < |s.content| - 1 && j % 2 == 0 && s.content[j] != Nil
      ensures !HasKey(s.content[j], s.content[i].value)
    {
      assert !HasKey(s.content[i], s.content[j].value);
    }
  }

  lemma {:induction false} MergePairsCarry(d: Tree, s: Tree, path: Path, i: nat, exact: bool)
    requires Shaped(d) && IsKind(d, Mapping) && IsKind(s, Mapping) && Shaped(s) && UniqueKeys(s) && i % 2 == 0
    ensures Shaped(MergePairs(d, s, path, i)) && CarriesFrom(MergePairs(d, s, path, i), s, path, i, exact)
    decreases s, |s.content| - i
  {
    if i < |s.content| {
      var k, v := s.content[i], s.content[i + 1];
      assert Shaped(k) && Shaped(v) && UniqueKeys(v);
      MergePairCarries(d, k, v, path, exact);
      var next := MergePair(d, k, v, path);
      MergePairsCarry(next, s, path, i + 2, exact);
      LaterKeysDiffer(s, i);
      MergePairsKeepOthers(next, s, path, i + 2, k.value);
      CarriesOne(next, MergePairs(next, s, path, i + 2), k, v, path, exact);
      CarriesNext(MergePairs(next, s, path, i + 2), s, path, i, exact);
    }
  }

  // ------------------------------------------------------------- dropping stale keys

  lemma KeptPairsStep(content: seq<Tree>, keep: set<string>, i: nat)
    requires i + 1 < |content|
    ensures KeptPairs(content, keep, i) ==
      if Keeps(keep, content[i]) then [content[i], content[i + 1]] + KeptPairs(content, keep, i + 2)
      else KeptPairs(content, keep, i + 2)
  {
    assert content[i..i + 2] == [content[i], content[i + 1]];
  }

  lemma StillAbsent(r: Tree, rest: Tree, k: Tree, v: Tree, key: string)
    requires IsKind(r, Mapping) && IsKind(rest, Mapping) && r.content == [k, v] + rest.content
    requires !HasKey(k, key) && FindKey(rest, key) < 0
    ensures FindKey(r, key) < 0
  {
    FindInTail(r, rest, k, v, key);
  }

  lemma {:induction false} KeptPairsForget(n: Tree, keep: set<string>, i: nat, key: string)
    requires IsKind(n, Mapping) && |n.content| % 2 == 0 && i % 2 == 0 && i <= |n.content| && TrimSpace(key) !in keep
    ensures FindKey(n.(content := KeptPairs(n.content, keep, i)), key) < 0
    decreases |n.content| - i
  {
    if i < |n.content| {
      KeptPairsForget(n, keep, i + 2, key);
      KeptPairsStep(n.content, keep, i);
      if Keeps(keep, n.content[i]) {
        StillAbsent(n.(content := KeptPairs(n.content, keep, i)), n.(content := KeptPairs(n.content, keep, i + 2)),
                    n.content[i], n.content[i + 1], key);
      }
    }
  }

  /** The search looks at kind and children only. */
  lemma SameSearch(a: Tree, b: Tree, key: string)
    requires IsKind(a, Mapping) && IsKind(b, Mapping) && a.content == b.content
    ensures FindKey(a, key) == FindKey(b, key)
  {
  }

  /** Both searches find nothing, or entries with the same value. */
  predicate SameValue(r: Tree, at: int, n: Tree, was: int) {
    if was < 0 then at < 0
    else IsKind(r, Mapping) && IsKind(n, Mapping) && 0 <= at < |r.content| - 1 && was < |n.content| - 1
         && r.content[at + 1] == n.content[was + 1]
  }

  lemma SameValueInTail(r: Tree, rest: Tree, k: Tree, v: Tree, key: string, n: Tree, was: int)
    requires IsKind(r, Mapping) && IsKind(rest, Mapping) && r.content == [k, v] + rest.content && !HasKey(k, key)
    requires SameValue(rest, FindKey(rest, key), n, was)
    ensures SameValue(r, FindKey(r, key), n, was)
  {
    FindInTail(r, rest, k, v, key);
  }

  lemma {:induction false} KeptPairsRemember(n: Tree, r: Tree, keep: set<string>, i: nat, key: string)
    requires IsKind(n, Mapping) && IsKind(r, Mapping) && |n.content| % 2 == 0 && i % 2 == 0 && i <= |n.content|
    requires r.content == KeptPairs(n.content, keep, i) && TrimSpace(key) in keep
    ensures SameValue(r, FindKey(r, key), n, FindKeyFrom(n.content, key, i))
    decreases |n.content| - i
  {
    if i < |n.content| {
      KeptPairsStep(n.content, keep, i);
      var rest := r.(content := KeptPairs(n.content, keep, i + 2));
      if HasKey(n.content[i], key) {
        RememberHead(n, r, rest, i, key);
      } else {
        KeptPairsRemember(n, rest, keep, i + 2, key);
        RememberTail(n, r, rest, keep, i, key);
      }
    }
  }

  lemma RememberHead(n: Tree, r: Tree, rest: Tree, i: nat, key: string)
    requires IsKind(n, Mapping) && IsKind(r, Mapping) && IsKind(rest, Mapping) && i + 1 < |n.content|
    requires HasKey(n.content[i], key) && r.content == [n.content[i], n.content[i + 1]] + rest.content
    ensures SameValue(r, FindKey(r, key), n, FindKeyFrom(n.content, key, i))
  {
    FindInTail(r, rest, n.content[i], n.content[i + 1], key);
  }

  lemma RememberTail(n: Tree, r: Tree, rest: Tree, keep: set<string>, i: nat, key: string)
    requires IsKind(n, Mapping) && IsKind(r, Mapping) && IsKind(rest, Mapping) && i + 1 < |n.content|
    requires !HasKey(n.content[i], key) && SameValue(rest, FindKey(rest, key), n, FindKeyFrom(n.content, key, i + 2))
    requires if Keeps(keep, n.content[i]) then r.content == [n.content[i], n.content[i + 1]] + rest.content else r == rest
    ensures SameValue(r, FindKey(r, key), n, FindKeyFrom(n.content, key, i))
  {
    if Keeps(keep, n.content[i]) {
      SameValueInTail(r, rest, n.content[i], n.content[i + 1], key, n, FindKeyFrom(n.content, key, i + 2));
    }
  }

  lemma KeptPairsFind(n: Tree, r: Tree, keep: set<string>, key: string)
    requires IsKind(n, Mapping) && IsKind(r, Mapping) && |n.content| % 2 == 0 && r.content == KeptPairs(n.content, keep, 0)
    ensures TrimSpace(key) !in keep ==> FindKey(r, key) < 0
    ensures TrimSpace(key) in keep ==> SameValue(r, FindKey(r, key), n, FindKey(n, key))
  {
    if TrimSpace(key) in keep { KeptPairsRemember(n, r, keep, 0, key); } else {
      KeptPairsForget(n, keep, 0, key);
      SameSearch(r, n.(content := KeptPairs(n.content, keep, 0)), key);
    }
  }

  lemma {:induction false} KeptPairsShaped(n: Tree, keep: set<string>, i: nat)
    requires Shaped(n) && n.kind == Mapping && i % 2 == 0 && i <= |n.content|
    ensures forall j | 0 <= j < |KeptPairs(n.content, keep, i)| :: Shaped(KeptPairs(n.content, keep, i)[j])
    decreases |n.content| - i
  {
    if i < |n.content| {
      KeptPairsShaped(n, keep, i + 2);
      assert Shaped(n.content[i]) && Shaped(n.content[i + 1]);
      assert n.content[i..i + 2] == [n.content[i], n.content[i + 1]];
    }
  }

  /** Dropping the keys `s` lacks keeps what is said about the keys it has. */
  lemma PruneMissingCarries(d: Tree, s: Tree, path: Path, exact: bool)
    requires Shaped(d) && Shaped(s) && IsKind(d, Mapping) && IsKind(s, Mapping)
    requires Represents(d, s, path, exact)
    ensures Shaped(PruneMissing(d, s)) && Represents(PruneMissing(d, s), s, path, true)
  {
    var r, keep := PruneMissing(d, s), KeepSet(s.content);
    KeptPairsShaped(d, keep, 0);
    forall i | 0 <= i < |s.content| - 1 && i % 2 == 0
      ensures Carries(r, s.content[i], s.content[i + 1], path, true)
    {
      assert Carries(d, s.content[i], s.content[i + 1], path, exact || ShouldPrune(path));
      KeptPairsFind(d, r, keep, s.content[i].value);
      assert !IsBlank(s.content[i].value) ==> TrimSpace(s.content[i].value) in keep;
    }
  }

  // ------------------------------------------------------------------ the theorem

  lemma {:induction false} MergeItemCarries(o: Tree, s: Tree, path: Path)
    requires Shaped(s) && UniqueKeys(s) && (o == Nil || Shaped(o))
    ensures Shaped(MergeItem(o, s, path)) && Represents(MergeItem(o, s, path), s, path, true)
    decreases s, |s.content| + 3
  {
    if o == Nil {
      CopyRepresents(s, s, path, true);
    } else {
      MergeCarries(o, s, path);
      var merged := MergeNode(o, s, path);
      if s.kind == Mapping {
        PruneMissingCarries(merged, s, path, false);
      } else {
        ExactIsWeaker(merged, s, path);
      }
    }
  }

  lemma {:induction false} MergeItemsCarry(slots: seq<Tree>, s: Tree, path: Path)
    requires Shaped(s) && UniqueKeys(s) && s.kind == Sequence
    requires forall i | 0 <= i < |slots| :: slots[i] == Nil || Shaped(slots[i])
    ensures forall i | 0 <= i < |s.content| :: Shaped(MergeItems(slots, s, path)[i])
    ensures forall i | 0 <= i < |s.content| :: Represents(MergeItems(slots, s, path)[i], s.content[i], path, true)
    decreases s, |s.content| + 1
  {
    forall i | 0 <= i < |s.content|
      ensures Shaped(MergeItems(slots, s, path)[i]) && Represents(MergeItems(slots, s, path)[i], s.content[i], path, true)
    {
      assert Shaped(s.content[i]) && UniqueKeys(s.content[i]);
      if i < |slots| {
        MergeItemCarries(slots[i], s.content[i], path);
      } else {
        CopyRepresents(s.content[i], s.content[i], path, true);
      }
    }
  }

  lemma CopyShaped(d: Tree, s: Tree)
    requires Shaped(s) && d != Nil
    ensures Shaped(CopyShallow(d, s))
  {
  }

  /**
   After merging `s` into any document, the document is well formed and
   represents `s`.
   */
  lemma {:induction false} MergeCarries(d: Tree, s: Tree, path: Path)
    requires Shaped(d) && Shaped(s) && UniqueKeys(s)
    ensures Shaped(MergeNode(d, s, path)) && Represents(MergeNode(d, s, path), s, path, false)
    decreases s, |s.content| + 2
  {
    match s.kind
    case Mapping =>
      var base := if d.kind == Mapping then d else CopyShallow(d, s);
      CopyShaped(d, s);
      MergePairsCarry(base, s, path, 0, ShouldPrune(path));
      var merged := MergePairs(base, s, path, 0);
      if ShouldPrune(path) { PruneMissingCarries(merged, s, path, true); }
    case Sequence =>
      var list := AsSequence(d);
      MergeItemsCarry(Reordered(list.content, s.content), s, path);
    case _ =>
      CopyShaped(d, s);
  }
}
