/** The merge itself, in place on the user's nodes. */
module YamlHeapMerge {
  import opened YamlTree
  import opened YamlHeap
  import M = YamlMerge
  import S = YamlShape
  import W = YamlMeaning
  import R = YamlReading
  import F = YamlDefaults

  // ------------------------------------------------------------ pruning new nodes

  method PruneKnownDefaultsInNewNode(path: Path, n: YamlNode)
    requires n.Valid()
    modifies n.repr
    ensures n.Valid() && n.repr == old(n.repr)
    ensures n.Tree() == Prune(path, old(n.Tree()))
    decreases n.repr, 3
  {
    if n.kind == Mapping {
      PruneMappingPairs(path, n);
    } else if n.kind == Sequence {
      PruneElements(path, n);
    }
  }

  method PruneElement(path: Path, cs: seq<YamlNode?>, i: nat, ghost f: set<YamlNode>)
    requires Forest(cs, f) && i < |cs|
    modifies f
    ensures Forest(cs, f) && Trees(cs, f) == old(Trees(cs, f))[i := Prune(path, old(Trees(cs, f))[i])]
    decreases f, 4
  {
    if cs[i] != null {
      PruneKnownDefaultsInNewNode(path, cs[i]);
    }
  }

  method PruneElements(path: Path, n: YamlNode)
    requires n.Valid() && n.kind == Sequence
    modifies n.repr
    ensures n.Valid() && n.repr == old(n.repr)
    ensures n.Tree() == Prune(path, old(n.Tree()))
    decreases n.repr, 2
  {
    ghost var f, t := n.repr - {n}, n.Tree();
    var i := 0;
    while i < |n.content|
      invariant i <= |n.content| && unchanged(n) && Forest(n.content, f)
      invariant forall j | 0 <= j < |n.content| ::
        Trees(n.content, f)[j] == if j < i then Prune(path, t.content[j]) else t.content[j]
    {
      PruneElement(path, n.content, i, f);
      i := i + 1;
    }
    NodeOver(n, f);
  }

  /** Prunes one value in place and tells whether its pair is worth keeping. */
  method PrunePair(path: Path, k: YamlNode?, v: YamlNode?, ghost all: seq<YamlNode?>, ghost at: nat, ghost f: set<YamlNode>,
                   ghost was: seq<Tree>)
    returns (keep: bool, ghost now: Tree)
    requires Spells(all, f, was) && at + 1 < |all| && all[at] == k && all[at + 1] == v
    modifies f
    ensures |was| == |all| && Spells(all, f, was[at + 1 := now])
    ensures keep == !DropsPair(path, was[at], was[at + 1])
    ensures keep ==> was[at] != Nil && now == Prune(path + [was[at].value], was[at + 1])
    decreases f, 4
  {
    keep, now := false, was[at + 1];
    assert Forest(all, f);
    if k != null && v != null && !IsKnownDefault(path + [k.value], v.Tree()) {
      PruneKnownDefaultsInNewNode(path + [k.value], v);
      now := v.Tree();
      keep := !((v.kind == Mapping || v.kind == Sequence) && |v.content| == 0);
    }
  }

  /** `ts` holds the pairs kept so far, `m` nodes, followed by the untouched pairs from `i` on. */
  ghost predicate PruneState(path: Path, t: Tree, ts: seq<Tree>, m: nat, i: nat) {
    && IsKind(t, Mapping) && i <= |t.content| && m <= |ts|
    && ts[m..] == t.content[i..]
    && PrunedPairs(path, t, 0) == ts[..m] + PrunedPairs(path, t, i)
  }

  lemma PruneStateKeeps(path: Path, t: Tree, was: seq<Tree>, ts: seq<Tree>, m: nat, i: nat)
    requires PruneState(path, t, was, m, i) && i + 1 < |t.content| && |ts| == |was|
    requires !DropsPair(path, was[m], was[m + 1])
    requires ts == was[m + 1 := Prune(path + [was[m].value], was[m + 1])]
    ensures PruneState(path, t, ts, m + 2, i + 2)
  {
    assert was[m] == was[m..][0] == t.content[i] && was[m + 1] == was[m..][1] == t.content[i + 1];
    assert ts[m + 2..] == was[m..][2..] == t.content[i + 2..];
    assert ts[..m + 2] == was[..m] + [ts[m], ts[m + 1]];
  }

  lemma PruneStateDrops(path: Path, t: Tree, was: seq<Tree>, now: Tree, ts: seq<Tree>, m: nat, i: nat)
    requires PruneState(path, t, was, m, i) && i + 1 < |t.content| && DropsPair(path, was[m], was[m + 1])
    requires var after := was[m + 1 := now]; ts == after[..m] + after[m + 2..]
    ensures PruneState(path, t, ts, m, i + 2)
  {
    assert was[m] == was[m..][0] == t.content[i] && was[m + 1] == was[m..][1] == t.content[i + 1];
    assert ts[m..] == was[m..][2..] == t.content[i + 2..];
    assert ts[..m] == was[..m];
    assert PrunedPairs(path, t, i) == [] + PrunedPairs(path, t, i + 2) == PrunedPairs(path, t, i + 2);
  }

  method PruneMappingPairs(path: Path, n: YamlNode)
    requires n.Valid() && n.kind == Mapping
    modifies n.repr
    ensures n.Valid() && n.repr == old(n.repr)
    ensures n.Tree() == Prune(path, old(n.Tree()))
    decreases n.repr, 2
  {
    ghost var f := n.repr - {n};
    var filtered := FilterPairs(path, n.content, f, n.Tree());
    n.content := filtered;
    NodeOver(n, f);
  }

  /** The pair at `i` either joins what was kept or is cut out. */
  lemma Regrouped<T>(a: seq<T>, cs: seq<T>, i: nat)
    requires i + 2 <= |cs|
    ensures var all := a + cs[i..];
      && |all| == |a| + |cs| - i && all[|a|] == cs[i] && all[|a| + 1] == cs[i + 1]
      && (a + cs[i..i + 2]) + cs[i + 2..] == all
      && a + cs[i + 2..] == all[..|a|] + all[|a| + 2..]
  {
  }

  lemma Front<T>(a: seq<T>, b: seq<T>)
    ensures (a + b)[..|a|] == a
  {
  }

  /** `all` is what was kept so far and the pairs still to look at. */
  ghost predicate Filtering(path: Path, t: Tree, all: seq<YamlNode?>, f: set<YamlNode>, m: nat, i: nat)
    reads f
  {
    Forest(all, f) && PruneState(path, t, Trees(all, f), m, i)
  }

  method FilterPair(path: Path, k: YamlNode?, v: YamlNode?, ghost t: Tree, ghost all: seq<YamlNode?>, ghost f: set<YamlNode>,
                    ghost m: nat, ghost i: nat)
    returns (keep: bool)
    requires Filtering(path, t, all, f, m, i) && m + 1 < |all| && all[m] == k && all[m + 1] == v
    requires |all| - m == |t.content| - i
    modifies f
    ensures keep ==> Filtering(path, t, all, f, m + 2, i + 2)
    ensures !keep ==> Filtering(path, t, all[..m] + all[m + 2..], f, m, i + 2)
    decreases f, 5
  {
    ghost var was, now := Trees(all, f), Nil;
    keep, now := PrunePair(path, k, v, all, m, f, was);
    if keep {
      PruneStateKeeps(path, t, was, was[m + 1 := now], m, i);
    } else {
      ForestRemove(all, f, m);
      PruneStateDrops(path, t, was, now, Trees(all[..m] + all[m + 2..], f), m, i);
    }
  }

  method FilterPairs(path: Path, cs: seq<YamlNode?>, ghost f: set<YamlNode>, ghost t: Tree) returns (filtered: seq<YamlNode?>)
    requires Forest(cs, f) && IsKind(t, Mapping) && t.content == Trees(cs, f)
    modifies f
    ensures Forest(filtered, f) && Trees(filtered, f) == PrunedPairs(path, t, 0)
    decreases f, 6
  {
    filtered := [];
    var i := 0;
    ghost var all := cs;
    while i + 1 < |cs|
      invariant i <= |cs| == |t.content| && all == filtered + cs[i..]
      invariant Filtering(path, t, all, f, |filtered|, i)
    {
      Regrouped(filtered, cs, i);
      var keep := FilterPair(path, cs[i], cs[i + 1], t, all, f, |filtered|, i);
      if keep {
        filtered := filtered + cs[i..i + 2];
      } else {
        all := all[..|filtered|] + all[|filtered| + 2..];
      }
      i := i + 2;
    }
    FilteringEnds(path, t, all, f, |filtered|, i);
    Front(filtered, cs[i..]);
  }

  lemma FilteringEnds(path: Path, t: Tree, all: seq<YamlNode?>, f: set<YamlNode>, m: nat, i: nat)
    requires Filtering(path, t, all, f, m, i) && i + 1 >= |t.content|
    ensures Forest(all[..m], f) && Trees(all[..m], f) == PrunedPairs(path, t, 0)
  {
    ForestTake(all, f, m);
  }

  // -------------------------------------------------------- re-matching list elements

  ghost function UsedSet(used: seq<bool>): set<int> {
    set i | 0 <= i < |used| && used[i]
  }

  /** The first unused original of the target's kind and identity or text. */
  method MatchByKey(original: seq<YamlNode?>, ghost f: set<YamlNode>, used: array<bool>, target: YamlNode) returns (r: int)
    requires Forest(original, f) && used.Length == |original| && target.Valid()
    ensures r == FirstUnused(Trees(original, f), UsedSet(used[..]), target.Tree(), true, 0)
  {
    ghost var ts, u, t := Trees(original, f), UsedSet(used[..]), target.Tree();
    var id := Identity(target.Tree());
    var text := TrimSpace(target.value);
    if !(target.kind == Mapping && id != "") && !(target.kind == Scalar && text != "") {
      r := -1;
      return;
    }
    var i := 0;
    while i < |original|
      invariant i <= |original| && FirstUnused(ts, u, t, true, 0) == FirstUnused(ts, u, t, true, i)
    {
      var o := original[i];
      if !used[i] && o != null && o.kind == target.kind {
        if target.kind == Mapping && Identity(o.Tree()) == id { return i; }
        if target.kind == Scalar && TrimSpace(o.value) == text { return i; }
      }
      i := i + 1;
    }
    r := -1;
  }

  method MatchSequenceElement(original: seq<YamlNode?>, ghost f: set<YamlNode>, used: array<bool>, target: YamlNode)
    returns (r: int)
    requires Forest(original, f) && used.Length == |original| && target.Valid()
    ensures r == Match(Trees(original, f), UsedSet(used[..]), target.Tree())
  {
    r := MatchByKey(original, f, used, target);
    if r >= 0 { return; }
    ghost var ts, u, t := Trees(original, f), UsedSet(used[..]), target.Tree();
    var i := 0;
    while i < |original|
      invariant i <= |original| && FirstUnused(ts, u, t, false, 0) == FirstUnused(ts, u, t, false, i)
    {
      if !used[i] && original[i] != null && StructurallyEqual(original[i].Tree(), target.Tree()) { return i; }
      i := i + 1;
    }
    r := -1;
  }

  /** Each slot holds the original assigned to it, if any. */
  ghost predicate Chosen<T>(original: seq<T>, m: seq<int>, r: seq<T>, none: T) {
    |r| == |m| && forall i | 0 <= i < |m| :: -1 <= m[i] < |original| && r[i] == if m[i] >= 0 then original[m[i]] else none
  }

  lemma UsedOneMore(u: seq<bool>, m: seq<int>, r: int)
    requires UsedSet(u) == Used(m) && -1 <= r < |u|
    ensures UsedSet(if r >= 0 then u[r := true] else u) == Used(m + [r])
  {
    assert forall x :: x in m + [r] <==> x in m || x == r;
    if r >= 0 { assert UsedSet(u[r := true]) == UsedSet(u) + {r}; }
  }

  lemma AssignmentStep(ts: seq<Tree>, tt: seq<Tree>, m: seq<int>, i: nat)
    requires i < |tt| && m == Assignment(ts, tt, i)
    ensures Assignment(ts, tt, i + 1) == m + [Match(ts, Used(m), tt[i])]
  {
  }

  /** The first i targets have their originals, which `u` marks as used. */
  ghost predicate ChosenSoFar(original: seq<YamlNode?>, ts: seq<Tree>, tt: seq<Tree>, i: nat, u: seq<bool>,
                              ordered: seq<YamlNode?>) {
    && i <= |tt| && |u| == |original|
    && UsedSet(u) == Used(Assignment(ts, tt, i)) && Chosen(original, Assignment(ts, tt, i), ordered, null)
  }

  lemma NoneChosen(original: seq<YamlNode?>, ts: seq<Tree>, tt: seq<Tree>, u: seq<bool>)
    requires |u| == |original| && forall k | 0 <= k < |u| :: !u[k]
    ensures ChosenSoFar(original, ts, tt, 0, u, [])
  {
  }

  lemma ChooseOneMore(original: seq<YamlNode?>, ts: seq<Tree>, tt: seq<Tree>, i: nat, u: seq<bool>, ordered: seq<YamlNode?>, r: int)
    requires ChosenSoFar(original, ts, tt, i, u, ordered) && i < |tt| && |ts| == |original|
    requires r == Match(ts, UsedSet(u), tt[i])
    ensures ChosenSoFar(original, ts, tt, i + 1, if r >= 0 then u[r := true] else u,
                        ordered + [if r >= 0 then original[r] else null])
  {
    var m := Assignment(ts, tt, i);
    AssignmentStep(ts, tt, m, i);
    UsedOneMore(u, m, r);
  }

  /** Takes the original matched to the next target, if any, out of the unused ones. */
  method ChooseOriginal(original: seq<YamlNode?>, ghost f: set<YamlNode>, ghost ts: seq<Tree>, used: array<bool>,
                        target: YamlNode, ghost tt: seq<Tree>, ghost i: nat, ordered: seq<YamlNode?>)
    returns (more: seq<YamlNode?>)
    requires Spells(original, f, ts) && ChosenSoFar(original, ts, tt, i, used[..], ordered)
    requires i < |tt| && target.Valid() && target.Tree() == tt[i]
    modifies used
    ensures ChosenSoFar(original, ts, tt, i + 1, used[..], more)
  {
    var r := MatchSequenceElement(original, f, used, target);
    ChooseOneMore(original, ts, tt, i, used[..], ordered, r);
    if r >= 0 {
      more := ordered + [original[r]];
      used[r] := true;
      assert used[..] == old(used[..])[r := true];
    } else {
      more := ordered + [null];
    }
  }

  method ChooseOriginals(original: seq<YamlNode?>, ghost f: set<YamlNode>, ghost ts: seq<Tree>,
                         targets: seq<YamlNode?>, ghost g: set<YamlNode>, ghost tt: seq<Tree>)
    returns (ordered: seq<YamlNode?>)
    requires Spells(original, f, ts) && Spells(targets, g, tt) && null !in targets
    ensures Chosen(original, Assignment(ts, tt, |tt|), ordered, null)
  {
    var used := new bool[|original|](_ => false);
    ordered := [];
    NoneChosen(original, ts, tt, used[..]);
    var i := 0;
    while i < |targets|
      invariant i <= |targets| && Spells(original, f, ts) && Spells(targets, g, tt)
      invariant ChosenSoFar(original, ts, tt, i, used[..], ordered)
    {
      ordered := ChooseOriginal(original, f, ts, used, targets[i], tt, i, ordered);
      i := i + 1;
    }
  }

  lemma NoneIsNil(src: YamlNode)
    requires src.Valid() && Shaped(src.Tree())
    ensures null !in src.content
    ensures forall t | t in Children(src.Tree()) :: t != Nil
  {
    forall i | 0 <= i < |src.content|
      ensures src.content[i] != null
    {
      assert Shaped(Children(src.Tree())[i]);
    }
  }

  lemma ChosenSpellReordered(original: seq<YamlNode?>, f: set<YamlNode>, ts: seq<Tree>, tt: seq<Tree>, ordered: seq<YamlNode?>)
    requires Spells(original, f, ts) && ts != [] && tt != [] && Nil !in tt
    requires Chosen(original, Assignment(ts, tt, |tt|), ordered, null)
    ensures Spells(ordered, f, Reordered(ts, tt))
  {
    S.AssignmentIsSound(ts, tt, |tt|);
    ForestChoice(original, f, Assignment(ts, tt, |tt|), ordered);
  }

  method ReorderForest(original: seq<YamlNode?>, ghost f: set<YamlNode>, ghost ts: seq<Tree>, src: YamlNode, ghost tt: seq<Tree>)
    returns (ordered: seq<YamlNode?>)
    requires Spells(original, f, ts) && |original| > 0
    requires src.Valid() && Shaped(src.Tree()) && |src.content| > 0 && tt == Children(src.Tree())
    ensures Spells(ordered, f, Reordered(ts, tt)) && Chosen(original, Assignment(ts, tt, |tt|), ordered, null)
  {
    NoneIsNil(src);
    ordered := ChooseOriginals(original, f, ts, src.content, src.repr - {src}, tt);
    ChosenSpellReordered(original, f, ts, tt, ordered);
  }

  /** The node, or null, is the root of the tree `t`. */
  ghost predicate Holds(n: YamlNode?, t: Tree)
    reads n, if n == null then {} else n.repr
  {
    if n == null then t == Nil else n.Valid() && n.Tree() == t
  }

  lemma HoldsOver(n: YamlNode, f: set<YamlNode>, ts: seq<Tree>)
    requires n !in f && n.repr == {n} + f && Spells(n.content, f, ts)
    ensures Holds(n, Node(n.kind, n.tag, n.value, ts, n.deco))
  {
    NodeOver(n, f);
  }

  /** The list's own nodes, moved to the slots of the elements they stand for. */
  method ReorderSequenceForMerge(dst: YamlNode, ghost d: Tree, src: YamlNode, ghost s: Tree)
    requires Holds(dst, d) && Holds(src, s) && Shaped(s) && dst.repr !! src.repr
    modifies dst`content
    ensures Holds(dst, WithChildren(d, Reordered(Children(d), s.content)))
    ensures if |old(dst.content)| == 0 || |src.content| == 0 then dst.content == old(dst.content)
      else Chosen(old(dst.content), Assignment(Children(d), s.content, |s.content|), dst.content, null)
  {
    if |dst.content| == 0 || |src.content| == 0 { return; }
    ghost var f := dst.repr - {dst};
    var ordered := ReorderForest(dst.content, f, d.content, src, s.content);
    dst.content := ordered;
    HoldsOver(dst, f, Reordered(d.content, s.content));
  }

  // ------------------------------------------------------------------------- merging

  /** A child of a well-formed source. */
  lemma SourceChild(src: YamlNode, s: Tree, i: nat)
    requires Holds(src, s) && Shaped(s) && i < |src.content|
    ensures |s.content| == |src.content| && Shaped(s.content[i])
    ensures src.content[i] != null && Holds(src.content[i], s.content[i]) && src.content[i].repr < src.repr
  {
    assert src.Valid() && src.Tree() == s && Forest(src.content, src.repr - {src});
    assert Shaped(s.content[i]);
  }

  /** Merges a source node into one tree of a forest. */
  method MergeInto(cs: seq<YamlNode?>, ghost f: set<YamlNode>, ghost ts: seq<Tree>, j: nat,
                   src: YamlNode, ghost s: Tree, path: Path)
    returns (ghost g: set<YamlNode>)
    requires Spells(cs, f, ts) && j < |cs| && Holds(src, s) && Shaped(s) && f !! src.repr
    modifies f
    ensures fresh(g - f) && Spells(cs, g, ts[j := M.MergeNode(ts[j], s, path)])
    decreases src.repr, 5
  {
    g := f;
    assert Forest(cs, f);
    if cs[j] != null {
      MergeNodePreserve(cs[j], ts[j], src, s, path);
      g := f + cs[j].repr;
    }
  }

  /**
   Merges the source, which holds `s`, into the node, which holds `d`. Only the
   destination's own nodes change, and it gains new nodes only.
   */
  method MergeNodePreserve(dst: YamlNode?, ghost d: Tree, src: YamlNode, ghost s: Tree, path: Path)
    requires Holds(dst, d) && Holds(src, s) && Shaped(s) && ReprOf(dst) !! src.repr
    modifies ReprOf(dst)
    ensures Holds(dst, M.MergeNode(d, s, path)) && fresh(ReprOf(dst) - old(ReprOf(dst)))
    decreases src.repr, 4
  {
    if dst == null { return; }
    match src.kind
    case Mapping =>
      MergeMappingNode(dst, d, src, s, path);
    case Sequence =>
      if dst.kind == Scalar && dst.tag == "!!null" && |src.content| == 0 { return; }
      MergeSequenceNode(dst, d, src, s, path);
    case Scalar =>
      SetNode(dst, Scalar, src.tag, src.value, dst.content, dst.repr - {dst});
    case Document =>
      CopyNodeShallow(dst, src);
    case Empty =>
  }

  method MergeMappingNode(dst: YamlNode, ghost d: Tree, src: YamlNode, ghost s: Tree, path: Path)
    requires Holds(dst, d) && Holds(src, s) && Shaped(s) && dst.repr !! src.repr && src.kind == Mapping
    modifies dst.repr
    ensures Holds(dst, M.MergeNode(d, s, path)) && fresh(dst.repr - old(dst.repr))
    decreases src.repr, 3
  {
    ghost var base := if d.kind == Mapping then d else M.CopyShallow(d, s);
    if dst.kind != Mapping { CopyNodeShallow(dst, src); }
    MergeMappingPreserve(dst, base, src, s, path);
    if M.ShouldPrune(path) { PruneMissingMapKeys(dst, src); }
  }

  /** Existing pairs keep their node objects and their places. */
  method MergeMappingPreserve(dst: YamlNode, ghost d: Tree, src: YamlNode, ghost s: Tree, path: Path)
    requires Holds(dst, d) && Holds(src, s) && Shaped(s) && dst.repr !! src.repr
    modifies dst.repr
    ensures Holds(dst, M.MergeMapping(d, s, path)) && fresh(dst.repr - old(dst.repr))
    ensures old(dst.kind) == src.kind == Mapping ==> old(dst.content) <= dst.content
    decreases src.repr, 2, 1
  {
    if dst.kind != Mapping || src.kind != Mapping {
      CopyNodeShallow(dst, src);
      return;
    }
    MergeAllPairs(dst, d, src, s, path);
  }

  method MergeAllPairs(dst: YamlNode, ghost d: Tree, src: YamlNode, ghost s: Tree, path: Path)
    requires Holds(dst, d) && Holds(src, s) && Shaped(s) && dst.repr !! src.repr && IsKind(d, Mapping) && IsKind(s, Mapping)
    modifies dst.repr
    ensures Holds(dst, M.MergePairs(d, s, path, 0)) && fresh(dst.repr - old(dst.repr)) && old(dst.content) <= dst.content
    decreases src.repr, 2, 0
  {
    var i := 0;
    ghost var now := d;
    while i + 1 < |src.content|
      invariant i % 2 == 0 && i <= |src.content| && Holds(src, s)
      invariant MergedUpTo(dst, d, now, s, path, i)
      invariant fresh(dst.repr - old(dst.repr)) && old(dst.content) <= dst.content
    {
      now := MergeNextPair(dst, d, now, i, src, s, path);
      i := i + 2;
    }
    NoMorePairs(dst, d, now, src, s, path, i);
  }

  lemma NoMorePairs(dst: YamlNode, d: Tree, now: Tree, src: YamlNode, s: Tree, path: Path, i: nat)
    requires i % 2 == 0 && Shaped(s) && Holds(src, s) && i + 1 >= |src.content| && MergedUpTo(dst, d, now, s, path, i)
    ensures Holds(dst, M.MergePairs(d, s, path, 0))
  {
  }

  /** The node holds `now`, which the pairs of `s` from `i` on turn into the merged mapping. */
  ghost predicate MergedUpTo(dst: YamlNode, d: Tree, now: Tree, s: Tree, path: Path, i: nat)
    requires i % 2 == 0 && Shaped(s)
    reads dst, dst.repr
  {
    && IsKind(d, Mapping) && IsKind(s, Mapping) && IsKind(now, Mapping) && Holds(dst, now)
    && M.MergePairs(d, s, path, 0) == M.MergePairs(now, s, path, i)
  }

  /** The pair at `i`, in a mapping that the pairs before it were merged into. */
  method MergeNextPair(dst: YamlNode, ghost d: Tree, ghost now: Tree, i: nat, src: YamlNode, ghost s: Tree, path: Path)
    returns (ghost next: Tree)
    requires Holds(src, s) && Shaped(s) && dst.repr !! src.repr
    requires i % 2 == 0 && i + 1 < |src.content| && MergedUpTo(dst, d, now, s, path, i)
    modifies dst.repr
    ensures MergedUpTo(dst, d, next, s, path, i + 2)
    ensures fresh(dst.repr - old(dst.repr)) && old(dst.content) <= dst.content
    decreases src.repr, 1
  {
    SourceChild(src, s, i);
    SourceChild(src, s, i + 1);
    MergePairPreserve(dst, now, src.content[i], s.content[i], src.content[i + 1], s.content[i + 1], path);
    next := M.MergePair(now, s.content[i], s.content[i + 1], path);
  }

  method MergePairPreserve(dst: YamlNode, ghost d: Tree, sk: YamlNode, ghost k: Tree, sv: YamlNode, ghost v: Tree, path: Path)
    requires Holds(dst, d) && IsKind(d, Mapping) && Holds(sk, k) && Holds(sv, v) && Shaped(k) && Shaped(v)
    requires dst.repr !! sk.repr && dst.repr !! sv.repr
    modifies dst.repr
    ensures Holds(dst, M.MergePair(d, k, v, path)) && fresh(dst.repr - old(dst.repr)) && old(dst.content) <= dst.content
    decreases sv.repr, 7
  {
    var at := FindMapKeyIndex(dst, sk.value);
    if at >= 0 {
      MergeChild(dst, d, at + 1, sv, v, path + [sk.value]);
    } else {
      AppendNewPair(dst, d, sk, k, sv, v, path + [sk.value]);
    }
  }

  method MergeChild(dst: YamlNode, ghost d: Tree, j: nat, src: YamlNode, ghost s: Tree, path: Path)
    requires Holds(dst, d) && j < |dst.content| && |Children(d)| == |dst.content|
    requires Holds(src, s) && Shaped(s) && dst.repr !! src.repr
    modifies dst.repr
    ensures Holds(dst, WithChildren(d, Children(d)[j := M.MergeNode(Children(d)[j], s, path)]))
    ensures dst.content == old(dst.content) && fresh(dst.repr - old(dst.repr))
    decreases src.repr, 6
  {
    ghost var f := dst.repr - {dst};
    ghost var g := MergeInto(dst.content, f, d.content, j, src, s, path);
    dst.repr := {dst} + g;
    HoldsOver(dst, g, d.content[j := M.MergeNode(d.content[j], s, path)]);
  }

  /** Appends a pruned copy of a pair unless what is left of its value is a default. */
  method AppendNewPair(dst: YamlNode, ghost d: Tree, sk: YamlNode, ghost k: Tree, sv: YamlNode, ghost v: Tree, p: Path)
    requires Holds(dst, d) && Holds(sk, k) && Holds(sv, v)
    modifies dst
    ensures fresh(dst.repr - old(dst.repr)) && old(dst.content) <= dst.content
    ensures Holds(dst, if IsKnownDefault(p, Prune(p, v)) then d else WithChildren(d, Children(d) + [k, Prune(p, v)]))
  {
    var candidate := DeepCopyNode(sv);
    PruneKnownDefaultsInNewNode(p, candidate);
    if IsKnownDefault(p, candidate.Tree()) { return; }
    var key := DeepCopyNode(sk);
    AppendTwo(dst, d, key, k, candidate, Prune(p, v));
  }

  method AppendTwo(dst: YamlNode, ghost d: Tree, a: YamlNode, ghost ta: Tree, b: YamlNode, ghost tb: Tree)
    requires Holds(dst, d) && Holds(a, ta) && Holds(b, tb) && dst.repr !! a.repr && dst.repr !! b.repr && a.repr !! b.repr
    modifies dst
    ensures Holds(dst, WithChildren(d, Children(d) + [ta, tb]))
    ensures dst.repr == old(dst.repr) + a.repr + b.repr && dst.content == old(dst.content) + [a, b]
  {
    ghost var f := dst.repr - {dst};
    ForestPush(dst.content, f, a);
    ForestPush(dst.content + [a], f + a.repr, b);
    assert dst.content + [a] + [b] == dst.content + [a, b];
    assert Children(d) + [ta] + [tb] == Children(d) + [ta, tb];
    SetNode(dst, dst.kind, dst.tag, dst.value, dst.content + [a, b], f + a.repr + b.repr);
  }

  // ---------------------------------------------------------------------- merging lists

  /** A matched list element: merged, then rid of the keys its counterpart lacks. */
  method MergeItemNode(o: YamlNode, ghost t: Tree, src: YamlNode, ghost s: Tree, path: Path)
    requires Holds(o, t) && Holds(src, s) && Shaped(s) && o.repr !! src.repr
    modifies o.repr
    ensures Holds(o, M.MergeItem(t, s, path)) && fresh(o.repr - old(o.repr))
    decreases src.repr, 5
  {
    MergeNodePreserve(o, t, src, s, path);
    if o.kind == Mapping && src.kind == Mapping { PruneMissingMapKeys(o, src); }
  }

  /** One slot of a re-matched list: its element merged in place, or a copy put into the empty slot. */
  method MergeSlot(cs: seq<YamlNode?>, ghost f: set<YamlNode>, ghost ts: seq<Tree>, j: nat,
                   src: YamlNode, ghost s: Tree, path: Path)
    returns (slot: YamlNode, ghost g: set<YamlNode>)
    requires Spells(cs, f, ts) && j < |cs| && Holds(src, s) && Shaped(s) && f !! src.repr
    modifies f
    ensures fresh(g - f) && Spells(cs[j := slot], g, ts[j := M.MergeItem(ts[j], s, path)])
    ensures cs[j] != null ==> slot == cs[j]
    ensures cs[j] == null ==> fresh(slot)
    decreases src.repr, 6
  {
    assert Forest(cs, f);
    if cs[j] == null {
      slot := DeepCopyNode(src);
    } else {
      slot := cs[j];
      MergeItemNode(slot, ts[j], src, s, path);
    }
    g := f + slot.repr;
  }

  method MergeSlotOf(dst: YamlNode, ghost d: Tree, j: nat, src: YamlNode, ghost s: Tree, path: Path)
    requires Holds(dst, d) && j < |dst.content| && |Children(d)| == |dst.content|
    requires Holds(src, s) && Shaped(s) && dst.repr !! src.repr
    modifies dst.repr
    ensures Holds(dst, WithChildren(d, Children(d)[j := M.MergeItem(Children(d)[j], s, path)]))
    ensures |dst.content| == |old(dst.content)| && fresh(dst.repr - old(dst.repr))
    ensures forall k | 0 <= k < |dst.content| && old(dst.content)[k] != null :: dst.content[k] == old(dst.content)[k]
    decreases src.repr, 7
  {
    ghost var f := dst.repr - {dst};
    var slot;
    ghost var g;
    slot, g := MergeSlot(dst.content, f, d.content, j, src, s, path);
    dst.content := dst.content[j := slot];
    dst.repr := {dst} + g;
    HoldsOver(dst, g, d.content[j := M.MergeItem(d.content[j], s, path)]);
  }

  /** Where the i first slots are merged and the others are as they were. */
  function Updated(target: seq<Tree>, slots: seq<Tree>, i: nat): seq<Tree>
    requires i <= |target| && i <= |slots|
  {
    target[..i] + slots[i..]
  }

  lemma NoneMerged(list: Tree, target: seq<Tree>)
    requires list != Nil
    ensures list.(content := Updated(target, list.content, 0)) == list
  {
    assert Updated(target, list.content, 0) == list.content;
  }

  lemma UpdatedStep(slots: seq<Tree>, s: Tree, path: Path, i: nat)
    requires s != Nil && Shaped(s) && i < |s.content| && i < |slots| && Shaped(s.content[i])
    ensures var target := M.MergeItems(slots, s, path);
      var was := Updated(target, slots, i);
      |was| == |slots| && Updated(target, slots, i + 1) == was[i := M.MergeItem(was[i], s.content[i], path)]
  {
  }

  /** The merged slots the source has an element for, then any others as they were. */
  function ItemsAndRest(slots: seq<Tree>, s: Tree, path: Path): seq<Tree>
    requires s != Nil && Shaped(s)
  {
    var n := if |slots| < |s.content| then |slots| else |s.content|;
    Updated(M.MergeItems(slots, s, path), slots, n)
  }

  /** The node holds `list` with its first i slots merged. */
  ghost predicate SlotsMerged(dst: YamlNode, list: Tree, target: seq<Tree>, i: nat)
    reads dst, dst.repr
  {
    && list != Nil && i <= |target| && i <= |list.content| == |dst.content|
    && Holds(dst, list.(content := Updated(target, list.content, i)))
  }

  /** Occupied slots keep their node objects. */
  ghost predicate KeepsPlaces(was: seq<YamlNode?>, now: seq<YamlNode?>) {
    |now| == |was| && forall k | 0 <= k < |was| && was[k] != null :: now[k] == was[k]
  }

  method MergeNextSlot(dst: YamlNode, ghost list: Tree, ghost target: seq<Tree>, i: nat,
                       src: YamlNode, ghost s: Tree, path: Path)
    requires Holds(src, s) && Shaped(s) && dst.repr !! src.repr && i < |dst.content| && i < |src.content|
    requires target == M.MergeItems(Children(list), s, path) && SlotsMerged(dst, list, target, i)
    modifies dst.repr
    ensures SlotsMerged(dst, list, target, i + 1)
    ensures fresh(dst.repr - old(dst.repr)) && KeepsPlaces(old(dst.content), dst.content)
    decreases src.repr, 1
  {
    SourceChild(src, s, i);
    UpdatedStep(list.content, s, path, i);
    MergeSlotOf(dst, list.(content := Updated(target, list.content, i)), i, src.content[i], s.content[i], path);
  }

  method MergeSlots(dst: YamlNode, ghost list: Tree, ghost target: seq<Tree>, src: YamlNode, ghost s: Tree, path: Path)
    requires Holds(src, s) && Shaped(s) && dst.repr !! src.repr
    requires target == M.MergeItems(Children(list), s, path) && SlotsMerged(dst, list, target, 0)
    modifies dst.repr
    ensures SlotsMerged(dst, list, target, if |dst.content| < |src.content| then |dst.content| else |src.content|)
    ensures fresh(dst.repr - old(dst.repr)) && KeepsPlaces(old(dst.content), dst.content)
    decreases src.repr, 2, 0, 0
  {
    var i := 0;
    while i < |dst.content| && i < |src.content|
      invariant i <= |src.content| && SlotsMerged(dst, list, target, i) && Holds(src, s)
      invariant fresh(dst.repr - old(dst.repr)) && KeepsPlaces(old(dst.content), dst.content)
      decreases |src.content| - i
    {
      MergeNextSlot(dst, list, target, i, src, s, path);
      i := i + 1;
    }
  }

  /** Copies of the elements that no slot was left for. */
  method AppendItems(dst: YamlNode, ghost list: Tree, src: YamlNode, ghost s: Tree, ghost target: seq<Tree>)
    requires Holds(dst, list) && list != Nil && Holds(src, s) && Shaped(s) && dst.repr !! src.repr
    requires |dst.content| == |list.content| <= |target| == |s.content| && list.content == target[..|list.content|]
    requires forall i | |list.content| <= i < |target| :: target[i] == s.content[i]
    modifies dst
    ensures Holds(dst, list.(content := target)) && fresh(dst.repr - old(dst.repr)) && old(dst.content) <= dst.content
  {
    var i := |dst.content|;
    ghost var now := list;
    while i < |src.content|
      invariant |dst.content| == i <= |src.content| == |s.content| && Holds(src, s) && dst.repr !! src.repr
      invariant Holds(dst, now) && now == list.(content := target[..i])
      invariant fresh(dst.repr - old(dst.repr)) && old(dst.content) <= dst.content
    {
      SourceChild(src, s, i);
      AppendItem(dst, now, src.content[i], s.content[i]);
      now := now.(content := now.content + [s.content[i]]);
      assert target[..i + 1] == target[..i] + [target[i]];
      i := i + 1;
    }
    assert target[..i] == target;
  }

  method AppendItem(dst: YamlNode, ghost d: Tree, src: YamlNode, ghost s: Tree)
    requires Holds(dst, d) && Holds(src, s)
    modifies dst
    ensures Holds(dst, WithChildren(d, Children(d) + [s]))
    ensures fresh(dst.repr - old(dst.repr)) && old(dst.content) <= dst.content && |dst.content| == |old(dst.content)| + 1
  {
    var copy := DeepCopyNode(src);
    ghost var f := dst.repr - {dst};
    ForestPush(dst.content, f, copy);
    SetNode(dst, dst.kind, dst.tag, dst.value, dst.content + [copy], f + copy.repr);
  }

  method Truncate(dst: YamlNode, ghost d: Tree, n: nat)
    requires Holds(dst, d) && d != Nil && n <= |dst.content| == |d.content|
    modifies dst`content
    ensures Holds(dst, d.(content := d.content[..n])) && dst.content == old(dst.content)[..n]
  {
    ghost var f := dst.repr - {dst};
    ForestTake(dst.content, f, n);
    dst.content := dst.content[..n];
    HoldsOver(dst, f, d.content[..n]);
  }

  /** The originals that a re-matching keeps are still the same node objects. */
  ghost predicate KeepsNodes(was: seq<YamlNode?>, now: seq<YamlNode?>, m: seq<int>) {
    |now| == |m| && forall k | 0 <= k < |m| && 0 <= m[k] < |was| && was[m[k]] != null :: now[k] == was[m[k]]
  }

  method AsSequenceNode(dst: YamlNode, ghost d: Tree)
    requires Holds(dst, d)
    modifies dst
    ensures Holds(dst, M.AsSequence(d)) && dst.repr <= old(dst.repr)
    ensures old(dst.kind) == Sequence ==> dst.content == old(dst.content)
  {
    if dst.kind != Sequence { SetNode(dst, Sequence, "!!seq", dst.value, [], {}); }
  }

  lemma MergedList(d: Tree, s: Tree, path: Path)
    requires d != Nil && Shaped(s) && s.kind == Sequence && !(M.IsNull(d) && s.content == [])
    ensures var list := M.AsSequence(d);
      M.MergeNode(d, s, path) == list.(content := M.MergeItems(Reordered(list.content, s.content), s, path))
  {
  }

  /** Appends or cuts off what the slots do not provide for. */
  method FitLength(dst: YamlNode, ghost list: Tree, ghost slots: seq<Tree>, src: YamlNode, ghost s: Tree, path: Path)
    requires list != Nil && Holds(src, s) && Shaped(s) && dst.repr !! src.repr
    requires |slots| == |dst.content| && |src.content| == |s.content|
    requires Holds(dst, list.(content := ItemsAndRest(slots, s, path)))
    modifies dst
    ensures Holds(dst, list.(content := M.MergeItems(slots, s, path))) && fresh(dst.repr - old(dst.repr))
    ensures |slots| == |s.content| ==> dst.content == old(dst.content)
  {
    ghost var items := ItemsAndRest(slots, s, path);
    if |dst.content| < |src.content| {
      AppendItems(dst, list.(content := items), src, s, M.MergeItems(slots, s, path));
    } else {
      Truncate(dst, list.(content := items), |src.content|);
    }
  }

  method MergeSequenceNode(dst: YamlNode, ghost d: Tree, src: YamlNode, ghost s: Tree, path: Path)
    requires Holds(dst, d) && Holds(src, s) && Shaped(s) && dst.repr !! src.repr && src.kind == Sequence
    requires !(M.IsNull(d) && s.content == [])
    modifies dst.repr
    ensures Holds(dst, M.MergeNode(d, s, path)) && fresh(dst.repr - old(dst.repr))
    ensures old(dst.kind) == Sequence && |old(dst.content)| > 0 && |src.content| > 0 ==>
      KeepsNodes(old(dst.content), dst.content, Assignment(Children(d), s.content, |s.content|))
    decreases src.repr, 3
  {
    AsSequenceNode(dst, d);
    MergedList(d, s, path);
    MergeIntoList(dst, M.AsSequence(d), src, s, path);
  }

  lemma ChosenAreKept(was: seq<YamlNode?>, mid: seq<YamlNode?>, now: seq<YamlNode?>, m: seq<int>)
    requires Chosen(was, m, mid, null) && KeepsPlaces(mid, now)
    ensures KeepsNodes(was, now, m)
  {
  }

  /** The original nodes are put into their slots and merged there. */
  method MergeRematched(dst: YamlNode, ghost list: Tree, src: YamlNode, ghost s: Tree, path: Path)
    requires Holds(dst, list) && Holds(src, s) && Shaped(s) && dst.repr !! src.repr
    modifies dst.repr
    ensures var slots := Reordered(Children(list), s.content);
      |slots| == |dst.content| && Holds(dst, WithChildren(list, ItemsAndRest(slots, s, path)))
    ensures fresh(dst.repr - old(dst.repr))
    ensures |old(dst.content)| > 0 && |src.content| > 0 ==>
      KeepsNodes(old(dst.content), dst.content, Assignment(Children(list), s.content, |s.content|))
    decreases src.repr, 2, 1
  {
    ghost var was, m := dst.content, Assignment(Children(list), s.content, |s.content|);
    ReorderSequenceForMerge(dst, list, src, s);
    ghost var mid := dst.content;
    MergeAllSlots(dst, list, src, s, path);
    if |was| > 0 && |src.content| > 0 { ChosenAreKept(was, mid, dst.content, m); }
  }

  method MergeAllSlots(dst: YamlNode, ghost list: Tree, src: YamlNode, ghost s: Tree, path: Path)
    requires Holds(src, s) && Shaped(s) && dst.repr !! src.repr
    requires Holds(dst, WithChildren(list, Reordered(Children(list), s.content)))
    modifies dst.repr
    ensures var slots := Reordered(Children(list), s.content);
      |slots| == |dst.content| && Holds(dst, WithChildren(list, ItemsAndRest(slots, s, path)))
    ensures fresh(dst.repr - old(dst.repr)) && KeepsPlaces(old(dst.content), dst.content)
    decreases src.repr, 2, 0, 1
  {
    ghost var slots := list.(content := Reordered(list.content, s.content));
    ghost var target := M.MergeItems(slots.content, s, path);
    NoneMerged(slots, target);
    MergeSlots(dst, slots, target, src, s, path);
  }

  method MergeIntoList(dst: YamlNode, ghost list: Tree, src: YamlNode, ghost s: Tree, path: Path)
    requires Holds(dst, list) && Holds(src, s) && Shaped(s) && dst.repr !! src.repr
    modifies dst.repr
    ensures Holds(dst, WithChildren(list, M.MergeItems(Reordered(Children(list), s.content), s, path)))
    ensures fresh(dst.repr - old(dst.repr))
    ensures |old(dst.content)| > 0 && |src.content| > 0 ==>
      KeepsNodes(old(dst.content), dst.content, Assignment(Children(list), s.content, |s.content|))
    decreases src.repr, 2, 2
  {
    MergeRematched(dst, list, src, s, path);
    FitLength(dst, list, Reordered(list.content, s.content), src, s, path);
  }

  // --------------------------------------------------------------------- the whole document

  /** Every generated scalar that says something reads the same in the saved document. */
  ghost predicate AllSurvive(d: Tree, s: Tree)
    requires Shaped(s)
  {
    forall steps | F.NoBlankKey(steps) && F.SaysSomething(R.ReadAt(s, steps))
                   && !F.NamedDefault(F.FullPath([], steps), R.ReadAt(s, steps)) ::
      R.SameScalarAt(M.MergeNode(d, s, []), s, steps)
  }

  /**
   What saving does with the two root mappings: afterwards the user's document
   says what the generated one says, its own pairs are the same nodes in the
   same places, and the generated document is as it was.
   */
  method MergeRoots(dst: YamlNode, ghost d: Tree, src: YamlNode, ghost s: Tree)
    requires Holds(dst, d) && Holds(src, s) && dst.repr !! src.repr && IsKind(d, Mapping) && IsKind(s, Mapping)
    requires Shaped(d) && Shaped(s) && UniqueKeys(s)
    modifies dst.repr
    ensures Holds(dst, M.MergeNode(d, s, []))
    ensures Shaped(M.MergeNode(d, s, [])) && W.Represents(M.MergeNode(d, s, []), s, [], false)
    ensures old(dst.content) <= dst.content && Holds(src, s)
    ensures AllSurvive(d, s)
  {
    W.MergeCarries(d, s, []);
    forall steps | F.NoBlankKey(steps) && F.SaysSomething(R.ReadAt(s, steps))
                   && !F.NamedDefault(F.FullPath([], steps), R.ReadAt(s, steps))
      ensures R.SameScalarAt(M.MergeNode(d, s, []), s, steps)
    {
      F.MeaningfulScalarsSurvive(d, s, [], steps);
    }
    MergeMappingPreserve(dst, d, src, s, []);
  }
}
