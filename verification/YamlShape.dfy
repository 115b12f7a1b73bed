/** What the merge keeps of the user's document: its nodes, its key order and its list elements. */
module YamlShape {
  import opened YamlTree
  import opened YamlMerge
  import opened YamlMeaning

  // ------------------------------------------------------------------ mappings

  /** The value at `j + 1` of the original mapping `d` once the pairs of `s` from `i` on are merged. */
  function MergedValue(d: Tree, s: Tree, path: Path, i: nat, j: nat): Tree
    requires IsKind(d, Mapping) && j < |d.content| - 1 && IsKind(s, Mapping) && Shaped(s)
  {
    if d.content[j] == Nil then d.content[j + 1]
    else
      var key := d.content[j].value;
      var at := FindKeyFrom(s.content, key, i);
      if FindKey(d, key) == j && at >= 0 then
        assert Shaped(s.content[at + 1]);
        MergeNode(d.content[j + 1], s.content[at + 1], path + [key])
      else d.content[j + 1]
  }

  /** The pairs of `s` from `i` on that `d` lacks and that are worth writing, pruned. */
  function NewPairs(d: Tree, s: Tree, path: Path, i: nat): (r: seq<Tree>)
    requires IsKind(s, Mapping) && Shaped(s) && i % 2 == 0
    decreases |s.content| - i
  {
    if i >= |s.content| then []
    else
      assert Shaped(s.content[i]);
      var k, v := s.content[i], s.content[i + 1];
      var p := path + [k.value];
      if FindKey(d, k.value) < 0 && !Omissible(p, v) then [k, Prune(p, v)] + NewPairs(d, s, path, i + 2)
      else NewPairs(d, s, path, i + 2)
  }

  /** `r` is the original mapping `d` with the pairs of `s` from `i` on merged in. */
  ghost predicate MergedFrom(d: Tree, r: Tree, s: Tree, path: Path, i: nat)
    requires IsKind(s, Mapping) && Shaped(s) && i % 2 == 0
  {
    && IsKind(d, Mapping) && IsKind(r, Mapping) && |r.content| >= |d.content|
    && r == d.(content := r.content)
    && (forall j | 0 <= j < |d.content| && j % 2 == 0 :: r.content[j] == d.content[j])
    && (forall j | 0 <= j < |d.content| - 1 && j % 2 == 0 :: r.content[j + 1] == MergedValue(d, s, path, i, j))
    && r.content[|d.content|..] == NewPairs(d, s, path, i)
  }

  lemma KeyIsLast(s: Tree, i: nat)
    requires IsKind(s, Mapping) && UniqueKeys(s) && i % 2 == 0 && i < |s.content| - 1 && s.content[i] != Nil
    ensures FindKeyFrom(s.content, s.content[i].value, i) == i
    ensures FindKeyFrom(s.content, s.content[i].value, i + 2) < 0
  {
    LaterKeysDiffer(s, i);
  }

  lemma AppendedStays(d: Tree, next: Tree, s: Tree, path: Path, i: nat)
    requires IsKind(d, Mapping) && |d.content| % 2 == 0 && IsKind(s, Mapping) && Shaped(s) && UniqueKeys(s)
    requires i % 2 == 0 && i < |s.content| && Shaped(s.content[i]) && Shaped(s.content[i + 1])
    requires next == MergePair(d, s.content[i], s.content[i + 1], path) && |next.content| > |d.content|
    ensures MergedValue(next, s, path, i + 2, |d.content|) == next.content[|d.content| + 1]
  {
    KeyIsLast(s, i);
  }

  lemma ValueOfSameKey(d: Tree, next: Tree, s: Tree, path: Path, i: nat, j: nat)
    requires IsKind(d, Mapping) && |d.content| % 2 == 0 && IsKind(s, Mapping) && Shaped(s) && UniqueKeys(s)
    requires i % 2 == 0 && i < |s.content| && Shaped(s.content[i]) && Shaped(s.content[i + 1])
    requires next == MergePair(d, s.content[i], s.content[i + 1], path) && j < |d.content| - 1 && j % 2 == 0
    requires HasKey(d.content[j], s.content[i].value)
    ensures MergedValue(next, s, path, i + 2, j) == MergedValue(d, s, path, i, j)
  {
    KeyIsLast(s, i);
  }

  lemma ValueOfOtherKey(d: Tree, next: Tree, s: Tree, path: Path, i: nat, j: nat)
    requires IsKind(d, Mapping) && |d.content| % 2 == 0 && IsKind(s, Mapping) && Shaped(s)
    requires i % 2 == 0 && i < |s.content| && Shaped(s.content[i]) && Shaped(s.content[i + 1])
    requires next == MergePair(d, s.content[i], s.content[i + 1], path) && j < |d.content| - 1 && j % 2 == 0
    requires d.content[j] != Nil && !HasKey(d.content[j], s.content[i].value)
    ensures MergedValue(next, s, path, i + 2, j) == MergedValue(d, s, path, i, j)
  {
    var key := d.content[j].value;
    MergePairKeepsOthers(d, s.content[i], s.content[i + 1], path, key);
    assert FindKeyFrom(s.content, key, i) == FindKeyFrom(s.content, key, i + 2);
    assert next.content[j] == d.content[j] && next.content[j + 1] == d.content[j + 1];
  }

  lemma ValueOneMore(d: Tree, next: Tree, s: Tree, path: Path, i: nat, j: nat)
    requires IsKind(d, Mapping) && |d.content| % 2 == 0 && IsKind(s, Mapping) && Shaped(s) && UniqueKeys(s)
    requires i % 2 == 0 && i < |s.content| && Shaped(s.content[i]) && Shaped(s.content[i + 1])
    requires next == MergePair(d, s.content[i], s.content[i + 1], path) && j < |d.content| - 1 && j % 2 == 0
    ensures MergedValue(next, s, path, i + 2, j) == MergedValue(d, s, path, i, j)
  {
    if d.content[j] == Nil {
      assert next.content[j] == d.content[j] && next.content[j + 1] == d.content[j + 1];
    } else if HasKey(d.content[j], s.content[i].value) {
      ValueOfSameKey(d, next, s, path, i, j);
    } else {
      ValueOfOtherKey(d, next, s, path, i, j);
    }
  }

  /** Later keys differ from the one just merged, so which of them are new did not change. */
  lemma {:induction false} NewPairsOneMore(d: Tree, next: Tree, s: Tree, path: Path, i: nat, from: nat)
    requires IsKind(d, Mapping) && |d.content| % 2 == 0 && IsKind(s, Mapping) && Shaped(s) && UniqueKeys(s)
    requires i % 2 == 0 && i < |s.content| && Shaped(s.content[i]) && Shaped(s.content[i + 1])
    requires next == MergePair(d, s.content[i], s.content[i + 1], path) && i < from && from % 2 == 0
    ensures NewPairs(next, s, path, from) == NewPairs(d, s, path, from)
    decreases |s.content| - from
  {
    if from < |s.content| {
      assert Shaped(s.content[from]);
      assert !HasKey(s.content[i], s.content[from].value);
      MergePairKeepsOthers(d, s.content[i], s.content[i + 1], path, s.content[from].value);
      NewPairsOneMore(d, next, s, path, i, from + 2);
    }
  }

  /** The pair just merged leaves the old keys alone and appends exactly what it should. */
  lemma StepAppends(d: Tree, next: Tree, s: Tree, path: Path, i: nat)
    requires IsKind(d, Mapping) && |d.content| % 2 == 0 && IsKind(s, Mapping) && Shaped(s)
    requires i % 2 == 0 && i < |s.content| && Shaped(s.content[i]) && Shaped(s.content[i + 1])
    requires next == MergePair(d, s.content[i], s.content[i + 1], path)
    ensures IsKind(next, Mapping) && |next.content| >= |d.content| && |next.content| % 2 == 0
    ensures forall j | 0 <= j < |d.content| && j % 2 == 0 :: next.content[j] == d.content[j]
    ensures next.content[|d.content|..] + NewPairs(d, s, path, i + 2) == NewPairs(d, s, path, i)
  {
    var k, v := s.content[i], s.content[i + 1];
    var p := path + [k.value];
    if FindKey(d, k.value) < 0 && !Omissible(p, v) {
      assert next.content[|d.content|..] == [k, Prune(p, v)];
    } else {
      assert next.content[|d.content|..] == [];
      assert [] + NewPairs(d, s, path, i + 2) == NewPairs(d, s, path, i + 2);
    }
  }

  lemma Stitch(next: seq<Tree>, r: seq<Tree>, n: nat)
    requires n <= |next| <= |r| && forall j | n <= j < |next| :: r[j] == next[j]
    ensures r[n..] == next[n..] + r[|next|..]
  {
  }

  /** What the step appended is still there after the remaining pairs. */
  lemma AppendedIsKept(d: Tree, next: Tree, r: Tree, s: Tree, path: Path, i: nat)
    requires IsKind(d, Mapping) && |d.content| % 2 == 0 && IsKind(s, Mapping) && Shaped(s) && UniqueKeys(s)
    requires i % 2 == 0 && i < |s.content| && Shaped(s.content[i]) && Shaped(s.content[i + 1])
    requires next == MergePair(d, s.content[i], s.content[i + 1], path) && MergedFrom(next, r, s, path, i + 2)
    ensures forall j | |d.content| <= j < |next.content| :: r.content[j] == next.content[j]
  {
    var n := |d.content|;
    if |next.content| > n {
      AppendedStays(d, next, s, path, i);
      assert r.content[n] == next.content[n];
      assert r.content[n + 1] == MergedValue(next, s, path, i + 2, n);
    }
  }

  /** A step that merges the pair at `i`, seen from the mapping before it. */
  lemma MergedOneMore(d: Tree, next: Tree, r: Tree, s: Tree, path: Path, i: nat)
    requires IsKind(d, Mapping) && |d.content| % 2 == 0 && IsKind(s, Mapping) && Shaped(s) && UniqueKeys(s)
    requires i % 2 == 0 && i < |s.content| && Shaped(s.content[i]) && Shaped(s.content[i + 1])
    requires next == MergePair(d, s.content[i], s.content[i + 1], path) && MergedFrom(next, r, s, path, i + 2)
    ensures MergedFrom(d, r, s, path, i)
  {
    StepAppends(d, next, s, path, i);
    NewPairsOneMore(d, next, s, path, i, i + 2);
    AppendedIsKept(d, next, r, s, path, i);
    Stitch(next.content, r.content, |d.content|);
    forall j | 0 <= j < |d.content| - 1 && j % 2 == 0
      ensures r.content[j + 1] == MergedValue(d, s, path, i, j)
    {
      ValueOneMore(d, next, s, path, i, j);
      assert r.content[j + 1] == MergedValue(next, s, path, i + 2, j);
    }
  }

  /**
   The merged mapping has the old keys in the old order, each with its own
   value merged, followed by the missing keys worth writing, in the generated
   order.
   */
  lemma {:induction false} MergedMappingShape(d: Tree, s: Tree, path: Path, i: nat)
    requires IsKind(d, Mapping) && |d.content| % 2 == 0 && IsKind(s, Mapping) && Shaped(s) && UniqueKeys(s) && i % 2 == 0
    ensures MergedFrom(d, MergePairs(d, s, path, i), s, path, i)
    decreases |s.content| - i
  {
    if i < |s.content| {
      assert Shaped(s.content[i]) && Shaped(s.content[i + 1]);
      var next := MergePair(d, s.content[i], s.content[i + 1], path);
      MergedMappingShape(next, s, path, i + 2);
      MergedOneMore(d, next, MergePairs(d, s, path, i), s, path, i);
    }
  }

  // ----------------------------------------------------------------- which keys remain

  /** The mapping has an entry for `key` that the merge of `s` keeps or creates. */
  predicate Written(d: Tree, s: Tree, path: Path, key: string)
    requires IsKind(s, Mapping)
  {
    var at := FindKey(s, key);
    FindKey(d, key) >= 0 || (at >= 0 && !Omissible(path + [key], s.content[at + 1]))
  }

  /** The value under `key`, or `Nil`. */
  function Lookup(n: Tree, key: string): Tree {
    var at := FindKey(n, key);
    if at >= 0 then n.content[at + 1] else Nil
  }

  /** What the mapping `d` has under the key of a generated pair once that pair is merged. */
  function MergedEntry(d: Tree, k: Tree, v: Tree, path: Path): Tree
    requires k != Nil && Shaped(v)
  {
    var p := path + [k.value];
    if FindKey(d, k.value) >= 0 then MergeNode(Lookup(d, k.value), v, p)
    else if Omissible(p, v) then Nil
    else Prune(p, v)
  }

  /** `r` has exactly what merging the pair into `d` puts under its key. */
  predicate Writes(d: Tree, r: Tree, k: Tree, v: Tree, path: Path)
    requires k != Nil && Shaped(v)
  {
    && Lookup(r, k.value) == MergedEntry(d, k, v, path)
    && (FindKey(r, k.value) >= 0 <==> FindKey(d, k.value) >= 0 || !Omissible(path + [k.value], v))
  }

  lemma SameEntryWrites(d: Tree, next: Tree, r: Tree, k: Tree, v: Tree, path: Path)
    requires k != Nil && Shaped(v)
    ensures Writes(d, next, k, v, path) && SameEntry(next, r, k.value) ==> Writes(d, r, k, v, path)
    ensures SameEntry(d, next, k.value) && Writes(next, r, k, v, path) ==> Writes(d, r, k, v, path)
  {
  }

  lemma MergePairWrites(d: Tree, k: Tree, v: Tree, path: Path)
    requires IsKind(d, Mapping) && |d.content| % 2 == 0 && Shaped(k) && Shaped(v)
    ensures Writes(d, MergePair(d, k, v, path), k, v, path)
  {
    var r, p := MergePair(d, k, v, path), path + [k.value];
    if FindKey(d, k.value) >= 0 {
      PutThenFind(d, r, k, MergeNode(Lookup(d, k.value), v, p), k.value);
    } else if !Omissible(p, v) {
      PutThenFind(d, r, k, Prune(p, v), k.value);
    }
  }

  lemma {:induction false} MergePairsWrite(d: Tree, s: Tree, path: Path, from: nat, at: nat)
    requires IsKind(d, Mapping) && |d.content| % 2 == 0 && IsKind(s, Mapping) && Shaped(s) && UniqueKeys(s)
    requires from % 2 == 0 && at % 2 == 0 && from <= at < |s.content| - 1
    requires Shaped(s.content[at]) && Shaped(s.content[at + 1])
    ensures Writes(d, MergePairs(d, s, path, from), s.content[at], s.content[at + 1], path)
    decreases at - from
  {
    if from == at {
      HeadPairWrites(d, s, path, at);
    } else {
      var k, v := s.content[at], s.content[at + 1];
      assert Shaped(s.content[from]) && Shaped(s.content[from + 1]) && !HasKey(s.content[from], k.value);
      var next := MergePair(d, s.content[from], s.content[from + 1], path);
      MergePairKeepsOthers(d, s.content[from], s.content[from + 1], path, k.value);
      MergePairsWrite(next, s, path, from + 2, at);
      SameEntryWrites(d, next, MergePairs(next, s, path, from + 2), k, v, path);
    }
  }

  lemma HeadPairWrites(d: Tree, s: Tree, path: Path, at: nat)
    requires IsKind(d, Mapping) && |d.content| % 2 == 0 && IsKind(s, Mapping) && Shaped(s) && UniqueKeys(s)
    requires at % 2 == 0 && at < |s.content| - 1 && Shaped(s.content[at]) && Shaped(s.content[at + 1])
    ensures Writes(d, MergePairs(d, s, path, at), s.content[at], s.content[at + 1], path)
  {
    var k, v := s.content[at], s.content[at + 1];
    var next := MergePair(d, k, v, path);
    KeyIsLast(s, at);
    MergePairWrites(d, k, v, path);
    MergePairsKeepOthers(next, s, path, at + 2, k.value);
    SameEntryWrites(d, next, MergePairs(next, s, path, at + 2), k, v, path);
  }

  lemma MergedMappingKeys(d: Tree, s: Tree, path: Path, key: string)
    requires IsKind(d, Mapping) && |d.content| % 2 == 0 && IsKind(s, Mapping) && Shaped(s) && UniqueKeys(s)
    ensures FindKey(MergePairs(d, s, path, 0), key) >= 0 <==> Written(d, s, path, key)
  {
    var at := FindKey(s, key);
    if at >= 0 {
      assert Shaped(s.content[at]) && Shaped(s.content[at + 1]);
      MergePairsWrite(d, s, path, 0, at);
    } else {
      MergePairsKeepOthers(d, s, path, 0, key);
    }
  }

  /** Exactly which keys a merged mapping has. */
  lemma KeysAfterMerge(d: Tree, s: Tree, path: Path, key: string)
    requires Shaped(d) && IsKind(d, Mapping) && IsKind(s, Mapping) && Shaped(s) && UniqueKeys(s)
    ensures FindKey(MergeNode(d, s, path), key) >= 0 <==>
      Written(d, s, path, key) && (ShouldPrune(path) ==> TrimSpace(key) in KeepSet(s.content))
  {
    MergedMappingKeys(d, s, path, key);
    var merged := MergePairs(d, s, path, 0);
    if ShouldPrune(path) {
      MergePairsCarry(d, s, path, 0, false);
      KeptPairsFind(merged, PruneMissing(merged, s), KeepSet(s.content), key);
    }
  }

  /** In a list element no key outlives its generated counterpart. */
  lemma KeysAfterItemMerge(o: Tree, s: Tree, path: Path, key: string)
    requires Shaped(o) && IsKind(o, Mapping) && IsKind(s, Mapping) && Shaped(s) && UniqueKeys(s)
    ensures FindKey(MergeItem(o, s, path), key) >= 0 <==> Written(o, s, path, key) && TrimSpace(key) in KeepSet(s.content)
  {
    KeysAfterMerge(o, s, path, key);
    MergeCarries(o, s, path);
    var merged := MergeNode(o, s, path);
    KeptPairsFind(merged, PruneMissing(merged, s), KeepSet(s.content), key);
  }

  /** Where the pairs that survive a pruning stood before it. */
  function KeptAt(content: seq<Tree>, keep: set<string>, i: nat): (at: seq<nat>)
    requires i <= |content| && (|content| - i) % 2 == 0
    ensures forall x | 0 <= x < |at| :: i <= at[x] < |content| - 1 && (at[x] - i) % 2 == 0
    decreases |content| - i
  {
    if i == |content| then []
    else if Keeps(keep, content[i]) then [i] + KeptAt(content, keep, i + 2)
    else KeptAt(content, keep, i + 2)
  }

  predicate Ascending(at: seq<nat>) {
    forall x, y | 0 <= x < y < |at| :: at[x] < at[y]
  }

  lemma {:induction false} KeptAtAscends(content: seq<Tree>, keep: set<string>, i: nat)
    requires i <= |content| && (|content| - i) % 2 == 0
    ensures Ascending(KeptAt(content, keep, i))
    decreases |content| - i
  {
    if i < |content| {
      KeptAtAscends(content, keep, i + 2);
      var later := KeptAt(content, keep, i + 2);
      assert Ascending([i] + later);
    }
  }

  lemma {:induction false} KeptAtIsExact(content: seq<Tree>, keep: set<string>, i: nat, j: nat)
    requires i <= j < |content| && (|content| - i) % 2 == 0 && (j - i) % 2 == 0
    ensures j in KeptAt(content, keep, i) <==> Keeps(keep, content[j])
    decreases |content| - i
  {
    if i < j {
      KeptAtIsExact(content, keep, i + 2, j);
      assert j in KeptAt(content, keep, i) <==> j in KeptAt(content, keep, i + 2);
    }
  }

  predicate SelectedAt(content: seq<Tree>, r: seq<Tree>, at: seq<nat>) {
    && |r| == 2 * |at|
    && forall x | 0 <= x < |at| :: at[x] + 1 < |content| && r[2 * x..2 * x + 2] == content[at[x]..at[x] + 2]
  }

  lemma SelectOneMore(content: seq<Tree>, r: seq<Tree>, at: seq<nat>, i: nat)
    requires SelectedAt(content, r, at) && i + 1 < |content|
    ensures SelectedAt(content, content[i..i + 2] + r, [i] + at)
  {
    var more := content[i..i + 2] + r;
    forall x | 0 <= x < |at| + 1
      ensures more[2 * x..2 * x + 2] == content[([i] + at)[x]..([i] + at)[x] + 2]
    {
      if x > 0 { assert more[2 * x..2 * x + 2] == r[2 * (x - 1)..2 * (x - 1) + 2]; }
    }
  }

  lemma {:induction false} KeptPairsSelected(content: seq<Tree>, keep: set<string>, i: nat)
    requires i <= |content| && (|content| - i) % 2 == 0
    ensures SelectedAt(content, KeptPairs(content, keep, i), KeptAt(content, keep, i))
    decreases |content| - i
  {
    if i < |content| {
      KeptPairsSelected(content, keep, i + 2);
      SelectOneMore(content, KeptPairs(content, keep, i + 2), KeptAt(content, keep, i + 2), i);
    }
  }

  /**
   Pruning keeps exactly the pairs with a key to keep, whole and in their
   order.
   */
  lemma PruningSelects(content: seq<Tree>, keep: set<string>)
    requires |content| % 2 == 0
    ensures SelectedAt(content, KeptPairs(content, keep, 0), KeptAt(content, keep, 0))
    ensures Ascending(KeptAt(content, keep, 0))
    ensures forall j | 0 <= j < |content| && j % 2 == 0 :: j in KeptAt(content, keep, 0) <==> Keeps(keep, content[j])
  {
    KeptPairsSelected(content, keep, 0);
    KeptAtAscends(content, keep, 0);
    forall j | 0 <= j < |content| && j % 2 == 0
      ensures j in KeptAt(content, keep, 0) <==> Keeps(keep, content[j])
    {
      KeptAtIsExact(content, keep, 0, j);
    }
  }

  // --------------------------------------------------------------- list elements

  /** No two generated elements take the same original. */
  predicate Injective(m: seq<int>) {
    forall i, j | 0 <= i < j < |m| && m[i] >= 0 :: m[i] != m[j]
  }

  predicate StandsFor(o: Tree, target: Tree) {
    ByKeyMatch(o, target) || SameStructure(o, target)
  }

  /** The i-th generated element got an original that stands for it, or none was left. */
  predicate Matched(original: seq<Tree>, target: Tree, m: seq<int>, i: nat)
    requires i < |m| && -1 <= m[i] < |original|
  {
    if m[i] >= 0 then StandsFor(original[m[i]], target) else NoneLeft(original, m[..i], target)
  }

  predicate NoneLeft(original: seq<Tree>, taken: seq<int>, target: Tree) {
    forall o | 0 <= o < |original| && o !in taken :: !StandsFor(original[o], target)
  }

  lemma MatchIsSound(original: seq<Tree>, m: seq<int>, target: Tree)
    requires target != Nil
    ensures var r := Match(original, Used(m), target);
      if r >= 0 then r !in m && StandsFor(original[r], target)
      else NoneLeft(original, m, target)
  {
    assert forall x | x >= 0 :: x in m <==> x in Used(m);
  }

  lemma MatchedStays(original: seq<Tree>, target: Tree, m: seq<int>, more: seq<int>, i: nat)
    requires i < |m| <= |more| && m == more[..|m|] && -1 <= m[i] < |original| && Matched(original, target, m, i)
    ensures Matched(original, target, more, i)
  {
    assert m[..i] == more[..i];
  }

  /** Each of the targets has its match among the originals, or none was left for it. */
  ghost predicate AllMatched(original: seq<Tree>, targets: seq<Tree>, m: seq<int>) {
    |m| <= |targets| && forall i | 0 <= i < |m| :: -1 <= m[i] < |original| && Matched(original, targets[i], m, i)
  }

  /**
   Re-matching a list is a sound partial injection: each original stands for at
   most one generated element, every match agrees on identity, scalar text or
   structure, and an element without a match had none to take.
   */
  lemma {:induction false} AssignmentIsSound(original: seq<Tree>, targets: seq<Tree>, n: nat)
    requires n <= |targets| && Nil !in targets
    ensures Injective(Assignment(original, targets, n)) && AllMatched(original, targets, Assignment(original, targets, n))
  {
    if n > 0 {
      AssignmentIsSound(original, targets, n - 1);
      var prior := Assignment(original, targets, n - 1);
      MatchIsSound(original, prior, targets[n - 1]);
      AssignOneMore(original, targets, prior, Match(original, Used(prior), targets[n - 1]), n);
    }
  }

  lemma AssignOneMore(original: seq<Tree>, targets: seq<Tree>, prior: seq<int>, r: int, n: nat)
    requires 0 < n <= |targets| && |prior| == n - 1 && Injective(prior) && -1 <= r < |original|
    requires AllMatched(original, targets, prior)
    requires r >= 0 ==> r !in prior && StandsFor(original[r], targets[n - 1])
    requires r < 0 ==> NoneLeft(original, prior, targets[n - 1])
    ensures Injective(prior + [r]) && AllMatched(original, targets, prior + [r])
  {
    var m := prior + [r];
    forall i | 0 <= i < n
      ensures -1 <= m[i] < |original| && Matched(original, targets[i], m, i)
    {
      if i < n - 1 {
        MatchedStays(original, targets[i], prior, m, i);
      } else {
        assert m[..i] == prior;
      }
    }
  }

  /**
   A merged list has one element per generated element: the original that was
   matched to it, merged, or a copy of the generated element when none was.
   */
  lemma ListElements(d: Tree, s: Tree, path: Path, i: nat)
    requires Shaped(d) && Shaped(s) && d.kind == Sequence && s.kind == Sequence && i < |s.content|
    ensures var m, r := Assignment(d.content, s.content, |s.content|), MergeNode(d, s, path);
      && r == d.(content := r.content) && |r.content| == |s.content|
      && Shaped(s.content[i])
      && r.content[i] == if m[i] >= 0 then MergeItem(d.content[m[i]], s.content[i], path) else s.content[i]
  {
    assert Shaped(s.content[i]);
    var slots := Reordered(d.content, s.content);
    assert MergeNode(d, s, path) == d.(content := MergeItems(slots, s, path));
  }
}
