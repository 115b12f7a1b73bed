/** What a reader of the merged document sees at a path, and the cases the merge gets wrong. */
module YamlReading {
  import opened YamlTree
  import opened YamlMerge
  import opened YamlMeaning
  import opened YamlShape

  datatype Step = Key(name: string) | Item(index: nat)

  function Child(n: Tree, step: Step): Tree {
    match step
    case Key(name) => Lookup(n, name)
    case Item(i) => if IsKind(n, Sequence) && i < |n.content| then n.content[i] else Nil
  }

  /** The node that `steps` lead to, or `Nil`. */
  function ReadAt(n: Tree, steps: seq<Step>): Tree
    decreases |steps|
  {
    if steps == [] then n else ReadAt(Child(n, steps[0]), steps[1..])
  }

  /** Some key on the way may be absent: its value is a default, or it is blank in a pruned mapping. */
  predicate MayBeAbsent(s: Tree, path: Path, exact: bool, steps: seq<Step>)
    decreases |steps|
  {
    && steps != []
    && var c := Child(s, steps[0]);
    match steps[0]
    case Key(name) =>
      || Omissible(path + [name], c)
      || ((exact || ShouldPrune(path)) && IsBlank(name))
      || MayBeAbsent(c, path + [name], false, steps[1..])
    case Item(_) => MayBeAbsent(c, path, true, steps[1..])
  }

  predicate SameScalarAt(d: Tree, s: Tree, steps: seq<Step>) {
    && IsKind(ReadAt(d, steps), Scalar) && IsKind(ReadAt(s, steps), Scalar)
    && ReadAt(d, steps).tag == ReadAt(s, steps).tag && ReadAt(d, steps).value == ReadAt(s, steps).value
  }

  lemma {:induction false} NothingBelowNil(steps: seq<Step>)
    ensures ReadAt(Nil, steps) == Nil
    decreases |steps|
  {
    if steps != [] { NothingBelowNil(steps[1..]); }
  }

  /** Represented scalars read the same, or are absent for one of the two reasons. */
  lemma {:induction false} RepresentedScalars(d: Tree, s: Tree, path: Path, exact: bool, steps: seq<Step>)
    requires Represents(d, s, path, exact) && IsKind(ReadAt(s, steps), Scalar)
    ensures SameScalarAt(d, s, steps) || (ReadAt(d, steps) == Nil && MayBeAbsent(s, path, exact, steps))
    decreases |steps|
  {
    if steps != [] {
      var c, rest := Child(s, steps[0]), steps[1..];
      NothingBelowNil(rest);
      match steps[0]
      case Key(name) =>
        var at := FindKey(s, name);
        assert Carries(d, s.content[at], s.content[at + 1], path, exact || ShouldPrune(path));
        if FindKey(d, name) >= 0 {
          RepresentedScalars(Child(d, steps[0]), c, path + [name], false, rest);
        }
      case Item(i) =>
        assert s.content != [];
        RepresentedScalars(d.content[i], c, path, true, rest);
    }
  }

  /**
   Whatever document the generated configuration is merged into, each of its
   scalars reads the same afterwards, unless a key on the way reads as a
   default or is blank.
   */
  lemma MergedScalars(d: Tree, s: Tree, path: Path, steps: seq<Step>)
    requires Shaped(d) && Shaped(s) && UniqueKeys(s) && IsKind(ReadAt(s, steps), Scalar)
    ensures SameScalarAt(MergeNode(d, s, path), s, steps)
      || (ReadAt(MergeNode(d, s, path), steps) == Nil && MayBeAbsent(s, path, false, steps))
  {
    MergeCarries(d, s, path);
    RepresentedScalars(MergeNode(d, s, path), s, path, false, steps);
  }

  // ------------------------------------------------------------- exactly which scalars survive

  /** No key on the way is dropped from a new value. */
  predicate SurvivesPruning(s: Tree, path: Path, steps: seq<Step>)
    decreases |steps|
  {
    || steps == []
    || match steps[0]
       case Key(name) =>
         var c, p := Lookup(s, name), path + [name];
         !IsKnownDefault(p, c) && !IsEmptyCollection(Prune(p, c)) && SurvivesPruning(c, p, steps[1..])
       case Item(_) => SurvivesPruning(Child(s, steps[0]), path, steps[1..])
  }

  /** No key on the way is left out when `s` is merged into `d`, as a list element or on its own. */
  ghost predicate Survives(d: Tree, s: Tree, path: Path, item: bool, steps: seq<Step>)
    requires Shaped(d) && Shaped(s)
    decreases |steps|
  {
    || steps == []
    || match steps[0]
       case Key(name) =>
         var base := if d.kind == Mapping then d else CopyShallow(d, s);
         var c, p := Lookup(s, name), path + [name];
         && FindKey(s, name) >= 0
         && !((item || ShouldPrune(path)) && IsBlank(name))
         && (LookupShaped(s, name); CopyShaped(d, s); LookupShaped(base, name);
             if FindKey(base, name) >= 0 then Survives(Lookup(base, name), c, p, false, steps[1..])
             else !Omissible(p, c) && SurvivesPruning(c, p, steps[1..]))
       case Item(i) =>
         && s.kind == Sequence && i < |s.content| && Shaped(s.content[i])
         && var list := AsSequence(d).content;
         var m := Assignment(list, s.content, |s.content|);
         m[i] < 0 || (Shaped(list[m[i]]) && Survives(list[m[i]], s.content[i], path, true, steps[1..]))
  }

  lemma LookupShaped(n: Tree, name: string)
    requires Shaped(n)
    ensures FindKey(n, name) >= 0 ==> Shaped(Lookup(n, name))
  {
  }

  lemma {:induction false} CopyReadsSame(d: Tree, s: Tree, steps: seq<Step>)
    requires d != Nil && s != Nil && CopyShallow(d, s) == d && IsKind(ReadAt(s, steps), Scalar)
    ensures SameScalarAt(d, s, steps)
  {
    if steps != [] {
      SameLookups(d, s, steps[0]);
    }
  }

  lemma SameLookups(d: Tree, s: Tree, step: Step)
    requires d != Nil && s != Nil && CopyShallow(d, s) == d
    ensures Child(d, step) == Child(s, step)
  {
  }

  /** Reads of a pruned copy. */
  lemma {:induction false} PrunedLookup(path: Path, s: Tree, i: nat, at: nat)
    requires Shaped(s) && UniqueKeys(s) && s.kind == Mapping && i % 2 == 0 && at % 2 == 0 && i <= at < |s.content| - 1
    requires Shaped(s.content[at])
    ensures var k, v := s.content[at], s.content[at + 1];
      Lookup(Pruned(path, s, i), k.value) == if DropsPair(path, k, v) then Nil else Prune(path + [k.value], v)
    decreases |s.content| - i
  {
    var k, v, key := s.content[i], s.content[i + 1], s.content[at].value;
    assert Shaped(k) && Shaped(v);
    if i == at {
      PrunedPairsForget(path, s, i + 2, key);
    } else {
      assert !HasKey(k, key);
      PrunedLookup(path, s, i + 2, at);
    }
    if DropsPair(path, k, v) {
      assert Pruned(path, s, i) == Pruned(path, s, i + 2);
    } else {
      FindInTail(Pruned(path, s, i), Pruned(path, s, i + 2), k, Prune(path + [k.value], v), key);
    }
  }

  lemma {:induction false} PrunedScalars(s: Tree, path: Path, steps: seq<Step>)
    requires Shaped(s) && UniqueKeys(s) && IsKind(ReadAt(s, steps), Scalar)
    ensures SameScalarAt(Prune(path, s), s, steps) <==> SurvivesPruning(s, path, steps)
    decreases |steps|
  {
    if steps != [] {
      var c, rest := Child(s, steps[0]), steps[1..];
      NothingBelowNil(rest);
      match steps[0]
      case Key(name) =>
        var at := FindKey(s, name);
        assert Shaped(s.content[at]) && Shaped(c) && UniqueKeys(c);
        PrunedLookup(path, s, 0, at);
        PrunedScalars(c, path + [name], rest);
      case Item(i) =>
        assert Shaped(c) && UniqueKeys(c);
        PrunedScalars(c, path, rest);
    }
  }

  /** `d` after `s` was merged into it, as a list element or on its own. */
  function Merged(d: Tree, s: Tree, path: Path, item: bool): Tree
    requires Shaped(d) && Shaped(s)
  {
    if item then PruneMissing(MergeNode(d, s, path), s) else MergeNode(d, s, path)
  }

  lemma MergedMapping(d: Tree, s: Tree, path: Path)
    requires Shaped(d) && Shaped(s) && s.kind == Mapping
    ensures var base := if d.kind == Mapping then d else CopyShallow(d, s);
      var merged := MergePairs(base, s, path, 0);
      MergeNode(d, s, path) == if ShouldPrune(path) then PruneMissing(merged, s) else merged
  {
  }

  lemma PruneMissingShaped(d: Tree, s: Tree)
    requires Shaped(d) && Shaped(s)
    ensures Shaped(PruneMissing(d, s))
  {
    if IsKind(d, Mapping) && IsKind(s, Mapping) { KeptPairsShaped(d, KeepSet(s.content), 0); }
  }

  lemma PrunedEntry(d: Tree, s: Tree, at: nat)
    requires Shaped(d) && IsKind(d, Mapping) && IsKind(s, Mapping)
    requires at % 2 == 0 && at < |s.content| - 1 && s.content[at] != Nil
    ensures var name := s.content[at].value;
      Lookup(PruneMissing(d, s), name) == if IsBlank(name) then Nil else Lookup(d, name)
  {
    var name, keep := s.content[at].value, KeepSet(s.content);
    KeptPairsFind(d, PruneMissing(d, s), keep, name);
    assert !IsBlank(name) ==> TrimSpace(name) in keep;
  }

  /** A mapping the pairs were merged into, after the two prunings that may follow. */
  lemma TwicePruned(merged: Tree, s: Tree, path: Path, item: bool, at: nat)
    requires Shaped(merged) && IsKind(merged, Mapping) && Shaped(s) && IsKind(s, Mapping)
    requires at % 2 == 0 && at < |s.content| - 1 && s.content[at] != Nil
    ensures var name := s.content[at].value;
      var once := if ShouldPrune(path) then PruneMissing(merged, s) else merged;
      Lookup(if item then PruneMissing(once, s) else once, name) ==
      if (item || ShouldPrune(path)) && IsBlank(name) then Nil else Lookup(merged, name)
  {
    var once := if ShouldPrune(path) then PruneMissing(merged, s) else merged;
    PrunedEntry(merged, s, at);
    PruneMissingShaped(merged, s);
    PrunedEntry(once, s, at);
  }

  /** What stands under a generated key after the merge. */
  lemma MergedLookup(d: Tree, s: Tree, path: Path, item: bool, name: string)
    requires Shaped(d) && Shaped(s) && UniqueKeys(s) && FindKey(s, name) >= 0
    ensures var base := if d.kind == Mapping then d else CopyShallow(d, s);
      var at := FindKey(s, name);
      && Shaped(s.content[at]) && Shaped(s.content[at + 1])
      && Lookup(Merged(d, s, path, item), name) ==
         if (item || ShouldPrune(path)) && IsBlank(name) then Nil
         else MergedEntry(base, s.content[at], s.content[at + 1], path)
  {
    var at := FindKey(s, name);
    assert Shaped(s.content[at]) && Shaped(s.content[at + 1]);
    var base := if d.kind == Mapping then d else CopyShallow(d, s);
    CopyShaped(d, s);
    MergePairsWrite(base, s, path, 0, at);
    MergePairsCarry(base, s, path, 0, false);
    TwicePruned(MergePairs(base, s, path, 0), s, path, item, at);
    MergedMapping(d, s, path);
  }

  /**
   Exactly when a generated scalar reads the same after the merge, for every
   user document and every path to a scalar.
   */
  lemma {:induction false} ScalarSurvivesIff(d: Tree, s: Tree, path: Path, item: bool, steps: seq<Step>)
    requires Shaped(d) && Shaped(s) && UniqueKeys(s) && IsKind(ReadAt(s, steps), Scalar)
    ensures SameScalarAt(Merged(d, s, path, item), s, steps) <==> Survives(d, s, path, item, steps)
    decreases |steps|
  {
    if steps == [] {
      assert Merged(d, s, path, item) == d.(kind := Scalar, tag := s.tag, value := s.value);
    } else {
      NothingBelowNil(steps[1..]);
      match steps[0]
      case Key(name) => KeySurvivesIff(d, s, path, item, name, steps);
      case Item(i) => ItemSurvivesIff(d, s, path, item, i, steps);
    }
  }

  lemma {:induction false} KeySurvivesIff(d: Tree, s: Tree, path: Path, item: bool, name: string, steps: seq<Step>)
    requires Shaped(d) && Shaped(s) && UniqueKeys(s) && IsKind(ReadAt(s, steps), Scalar)
    requires steps != [] && steps[0] == Key(name)
    ensures SameScalarAt(Merged(d, s, path, item), s, steps) <==> Survives(d, s, path, item, steps)
    decreases |steps|, 0
  {
    var c, rest, p := Lookup(s, name), steps[1..], path + [name];
    var base := if d.kind == Mapping then d else CopyShallow(d, s);
    NothingBelowNil(rest);
    LookupShaped(s, name);
    CopyShaped(d, s);
    LookupShaped(base, name);
    assert UniqueKeys(c);
    MergedLookup(d, s, path, item, name);
    if FindKey(base, name) >= 0 {
      ScalarSurvivesIff(Lookup(base, name), c, p, false, rest);
    } else {
      PrunedScalars(c, p, rest);
    }
  }

  lemma {:induction false} ItemSurvivesIff(d: Tree, s: Tree, path: Path, item: bool, i: nat, steps: seq<Step>)
    requires Shaped(d) && Shaped(s) && UniqueKeys(s) && IsKind(ReadAt(s, steps), Scalar)
    requires steps != [] && steps[0] == Item(i)
    ensures SameScalarAt(Merged(d, s, path, item), s, steps) <==> Survives(d, s, path, item, steps)
    decreases |steps|, 0
  {
    NothingBelowNil(steps[1..]);
    var c := s.content[i];
    assert Shaped(c) && UniqueKeys(c);
    var list := AsSequence(d);
    ListElements(list, s, path, i);
    assert Merged(d, s, path, item) == MergeNode(list, s, path);
    assert Child(Merged(d, s, path, item), steps[0]) == MergeNode(list, s, path).content[i];
    var m := Assignment(list.content, s.content, |s.content|);
    if m[i] >= 0 {
      assert Shaped(list.content[m[i]]);
      ScalarSurvivesIff(list.content[m[i]], c, path, true, steps[1..]);
    } else {
      CopyReadsSame(c, c, steps[1..]);
    }
  }

  // ------------------------------------------------------------- the user's nodes

  /** No pruning that follows the merge of `s` removes the key. */
  predicate KeyStays(s: Tree, path: Path, item: bool, key: string)
    requires s != Nil
  {
    item || ShouldPrune(path) ==> TrimSpace(key) in KeepSet(s.content)
  }

  /**
   The node at `from` in the user's document moves to `to`: keys stay where
   they are, list elements go where they were matched, and all is as it was
   below a key that is not generated.
   */
  ghost predicate Moves(d: Tree, s: Tree, path: Path, item: bool, from: seq<Step>, to: seq<Step>)
    requires Shaped(d) && Shaped(s)
    decreases |from|
  {
    if from == [] || to == [] then from == to
    else match from[0]
      case Key(name) =>
        && d.kind == Mapping && s.kind == Mapping && to[0] == from[0]
        && FindKey(d, name) >= 0 && KeyStays(s, path, item, name)
        && (LookupShaped(d, name); LookupShaped(s, name);
            if FindKey(s, name) >= 0 then
              Moves(Lookup(d, name), Lookup(s, name), path + [name], false, from[1..], to[1..])
            else from == to && ReadAt(d, from) != Nil)
      case Item(j) =>
        && d.kind == Sequence && s.kind == Sequence && j < |d.content|
        && to[0].Item? && to[0].index < |s.content|
        && Assignment(d.content, s.content, |s.content|)[to[0].index] == j
        && Shaped(d.content[j]) && Shaped(s.content[to[0].index])
        && Moves(d.content[j], s.content[to[0].index], path, true, from[1..], to[1..])
  }

  lemma PrunedKeeps(d: Tree, s: Tree, key: string)
    requires Shaped(d) && IsKind(d, Mapping) && IsKind(s, Mapping) && TrimSpace(key) in KeepSet(s.content)
    ensures Lookup(PruneMissing(d, s), key) == Lookup(d, key)
  {
    KeptPairsFind(d, PruneMissing(d, s), KeepSet(s.content), key);
  }

  /** A key that stays holds after the prunings what it held before. */
  lemma StayingKey(d: Tree, s: Tree, path: Path, item: bool, key: string)
    requires Shaped(d) && Shaped(s) && UniqueKeys(s) && IsKind(d, Mapping) && IsKind(s, Mapping)
    requires KeyStays(s, path, item, key)
    ensures Lookup(Merged(d, s, path, item), key) == Lookup(MergePairs(d, s, path, 0), key)
  {
    var merged := MergePairs(d, s, path, 0);
    var once := if ShouldPrune(path) then PruneMissing(merged, s) else merged;
    MergePairsCarry(d, s, path, 0, false);
    MergedMapping(d, s, path);
    PruneMissingShaped(merged, s);
    if ShouldPrune(path) { PrunedKeeps(merged, s, key); }
    if item { PrunedKeeps(once, s, key); }
  }

  /** What stands under a key of the user after the merge. */
  lemma UsersLookup(d: Tree, s: Tree, path: Path, item: bool, name: string)
    requires Shaped(d) && Shaped(s) && UniqueKeys(s) && IsKind(d, Mapping) && IsKind(s, Mapping)
    requires FindKey(d, name) >= 0 && KeyStays(s, path, item, name)
    ensures Shaped(Lookup(d, name)) && (FindKey(s, name) >= 0 ==> Shaped(Lookup(s, name)) && UniqueKeys(Lookup(s, name)))
    ensures Lookup(Merged(d, s, path, item), name) ==
      if FindKey(s, name) >= 0 then MergeNode(Lookup(d, name), Lookup(s, name), path + [name]) else Lookup(d, name)
  {
    StayingKey(d, s, path, item, name);
    LookupShaped(d, name);
    LookupShaped(s, name);
    var at := FindKey(s, name);
    if at >= 0 {
      assert Shaped(s.content[at]) && Shaped(s.content[at + 1]) && UniqueKeys(s.content[at + 1]);
      MergePairsWrite(d, s, path, 0, at);
    } else {
      MergePairsKeepOthers(d, s, path, 0, name);
    }
  }

  /**
   Every node of the user's document that the merge moves keeps its own mark,
   at every depth: comments stay with what they were written at.
   */
  lemma {:induction false} MarksMove(d: Tree, s: Tree, path: Path, item: bool, from: seq<Step>, to: seq<Step>)
    requires Shaped(d) && Shaped(s) && UniqueKeys(s) && Moves(d, s, path, item, from, to)
    ensures ReadAt(d, from) != Nil && ReadAt(Merged(d, s, path, item), to) != Nil
    ensures ReadAt(Merged(d, s, path, item), to).deco == ReadAt(d, from).deco
    decreases |from|
  {
    if from != [] && to != [] {
      match from[0]
      case Key(name) =>
        UsersLookup(d, s, path, item, name);
        if FindKey(s, name) >= 0 {
          MarksMove(Lookup(d, name), Lookup(s, name), path + [name], false, from[1..], to[1..]);
        }
      case Item(j) =>
        var i := to[0].index;
        ListElements(d, s, path, i);
        assert UniqueKeys(s.content[i]) && Merged(d, s, path, item) == MergeNode(d, s, path);
        MarksMove(d.content[j], s.content[i], path, true, from[1..], to[1..]);
    } else {
      MarkOfRoot(d, s, path, item);
    }
  }

  lemma MarkOfRoot(d: Tree, s: Tree, path: Path, item: bool)
    requires Shaped(d) && Shaped(s)
    ensures Merged(d, s, path, item) != Nil && Merged(d, s, path, item).deco == d.deco
  {
    var r := MergeNode(d, s, path);
    if s.kind == Mapping { MergedMapping(d, s, path); }
    assert r != Nil && r.deco == d.deco;
  }

  // ------------------------------------------------------------- what is not preserved

  function Text(value: string): Tree {
    Node(Scalar, "!!str", value, [], 0)
  }

  function Flag(value: string): Tree {
    Node(Scalar, "!!bool", value, [], 0)
  }

  function Pairs(content: seq<Tree>): Tree {
    Node(Mapping, "!!map", "", content, 0)
  }

  /**
   A generated header with a blank name is removed again, although its value is
   not a default. Wherever the program itself sets headers it has stripped
   blank names before (`NormalizeHeaders`), so this needs a caller that hands
   the save function a header map of its own.
   */
  lemma BlankKeyIsLost()
    ensures var s := Pairs([Text(" "), Text("on")]);
      var path := ["codex-api-key", "headers"];
      && ReadAt(s, [Key(" ")]) == Text("on")
      && !Omissible(path + [" "], Text("on"))
      && ReadAt(MergeNode(Pairs([]), s, path), [Key(" ")]) == Nil
  {
  }

  /** Nothing of a new mapping of zeros is written. */
  lemma LostWithItsParent(key: string, v: Tree, steps: seq<Step>)
    requires IsKind(v, Mapping) && IsZero(v) && Shaped(v) && UniqueKeys(v)
    ensures ReadAt(MergeNode(Pairs([]), Pairs([Text(key), v]), []), [Key(key)] + steps) == Nil
  {
    var s := Pairs([Text(key), v]);
    PruneKeepsZero([key], v);
    assert FindKey(s, key) == 0 && [] + [key] == [key];
    KeysAfterMerge(Pairs([]), s, [], key);
    var all := [Key(key)] + steps;
    assert Child(MergeNode(Pairs([]), s, []), all[0]) == Nil;
    assert all[1..] == steps;
    NothingBelowNil(steps);
  }

  /** The same in a list: a matched element that lacks `key` gets nothing of a mapping of zeros generated there. */
  lemma LostInItsElement(d: Tree, s: Tree, path: Path, i: nat, key: string, steps: seq<Step>)
    requires Shaped(d) && Shaped(s) && UniqueKeys(s) && d.kind == Sequence && s.kind == Sequence && i < |s.content|
    requires var v := Lookup(s.content[i], key); IsKind(v, Mapping) && IsZero(v)
    requires var at := Assignment(d.content, s.content, |s.content|)[i];
      at >= 0 && IsKind(d.content[at], Mapping) && FindKey(d.content[at], key) < 0
    ensures ReadAt(MergeNode(d, s, path), [Item(i), Key(key)] + steps) == Nil
  {
    var o, e := d.content[Assignment(d.content, s.content, |s.content|)[i]], s.content[i];
    var r, all := MergeNode(d, s, path), [Item(i), Key(key)] + steps;
    assert Shaped(o) && Shaped(e) && UniqueKeys(e);
    ListElements(d, s, path, i);
    PruneKeepsZero(path + [key], Lookup(e, key));
    KeysAfterItemMerge(o, e, path, key);
    assert all[1..][0] == Key(key) && all[1..][1..] == steps;
    assert Child(Child(r, all[0]), all[1..][0]) == Nil;
    NothingBelowNil(steps);
  }

  /** The scalars in `more`, if any, are blank. */
  predicate AddsNoText(more: seq<Tree>) {
    forall j | 0 <= j < |more| - 1 && j % 2 == 0 :: IsKind(more[j + 1], Scalar) ==> IsBlank(more[j + 1].value)
  }

  lemma BlankBeyond(content: seq<Tree>, more: seq<Tree>, i: nat)
    requires |content| % 2 == 0 && i % 2 == 0 && |content| <= i < |content| + |more| - 1 && AddsNoText(more)
    ensures var v := (content + more)[i + 1]; IsKind(v, Scalar) ==> TrimSpace(v.value) == ""
  {
    var j := i - |content|;
    assert j % 2 == 0 && (content + more)[i + 1] == more[j + 1];
  }

  lemma {:induction false} ScalarIgnores(content: seq<Tree>, more: seq<Tree>, key: string, i: nat)
    requires |content| % 2 == 0 && i % 2 == 0 && i <= |content| + |more| && AddsNoText(more)
    ensures MappingScalarFrom(content + more, key, i) == MappingScalarFrom(content, key, i)
    decreases |content| + |more| - i
  {
    var all := content + more;
    if i + 1 < |all| {
      if i >= |content| { BlankBeyond(content, more, i); }
      ScalarIgnores(content, more, key, i + 2);
    }
  }

  lemma {:induction false} FirstScalarIgnores(content: seq<Tree>, more: seq<Tree>, i: nat)
    requires |content| % 2 == 0 && i % 2 == 0 && i <= |content| + |more| && AddsNoText(more)
    ensures FirstScalarIdentity(content + more, i) == FirstScalarIdentity(content, i)
    decreases |content| + |more| - i
  {
    var all := content + more;
    if i + 1 < |all| {
      if i >= |content| { BlankBeyond(content, more, i); }
      FirstScalarIgnores(content, more, i + 2);
    }
  }

  lemma {:induction false} KeyedIgnores(content: seq<Tree>, more: seq<Tree>, k: nat)
    requires |content| % 2 == 0 && AddsNoText(more)
    ensures KeyedIdentity(content + more, k) == KeyedIdentity(content, k)
    decreases |IDENTITY_KEYS| - k
  {
    if k < |IDENTITY_KEYS| {
      ScalarIgnores(content, more, IDENTITY_KEYS[k], 0);
      KeyedIgnores(content, more, k + 1);
    }
  }

  /** Lists, mappings and blank scalars do not change what identifies a list element. */
  lemma IdentityIgnores(content: seq<Tree>, more: seq<Tree>)
    requires |content| % 2 == 0 && AddsNoText(more)
    ensures Identity(Pairs(content + more)) == Identity(Pairs(content))
  {
    KeyedIgnores(content, more, 0);
    FirstScalarIgnores(content, more, 0);
  }

  function List(content: seq<Tree>): Tree {
    Node(Sequence, "!!seq", "", content, 0)
  }

  /** The one credential of the user's file. */
  const CREDENTIAL := [Text("api-key"), Text("k")]

  /** What the program generates besides for a Claude credential whose user ids are not to be cached. */
  const UNCACHED := [Text("base-url"), Text(""), Text("proxy-url"), Text(""), Text("models"), List([]),
                     Text("cloak"), Pairs([Text("cache-user-id"), Flag("false")])]

  /** A list element that only gains lists, mappings and blank scalars is matched to itself. */
  lemma MatchedByText(key: string, value: string, more: seq<Tree>)
    requires !IsBlank(value) && AddsNoText(more)
    ensures var text := [Text(key), Text(value)]; Assignment([Pairs(text)], [Pairs(text + more)], 1) == [0]
  {
    var text := [Text(key), Text(value)];
    IdentityIgnores(text, more);
    assert FirstScalarIdentity(text, 0) == ToLower(TrimSpace(key)) + "=" + TrimSpace(value);
    OnlyMatch(Pairs(text), Pairs(text + more));
  }

  lemma OnlyMatch(o: Tree, e: Tree)
    requires e != Nil && ByKeyMatch(o, e)
    ensures Assignment([o], [e], 1) == [0]
  {
    assert Assignment([o], [e], 0) == [];
    assert Match([o], Used([]), e) == 0;
  }

  lemma CredentialHasText()
    ensures !IsBlank("k") && AddsNoText(UNCACHED)
  {
    assert TrimSpace("k") == "k";
  }

  lemma CloakIsGenerated()
    ensures var e := Pairs(CREDENTIAL + UNCACHED);
      FindKey(e, "cloak") == 8 && e.content[9] == Pairs([Text("cache-user-id"), Flag("false")])
  {
    FoundAt(Pairs(CREDENTIAL + UNCACHED), "cloak", 8);
  }

  lemma PairsAreShaped(content: seq<Tree>)
    requires |content| % 2 == 0 && DistinctKeys(content)
    requires forall i | 0 <= i < |content| :: Shaped(content[i]) && UniqueKeys(content[i])
    ensures Shaped(Pairs(content)) && UniqueKeys(Pairs(content))
  {
  }

  lemma CloakIsShaped()
    ensures var cloak := [Text("cache-user-id"), Flag("false")]; Shaped(Pairs(cloak)) && UniqueKeys(Pairs(cloak))
  {
    PairsAreShaped([Text("cache-user-id"), Flag("false")]);
  }

  lemma CredentialKeysDiffer()
    ensures DistinctKeys(CREDENTIAL + UNCACHED)
  {
  }

  lemma CredentialsAreShaped()
    ensures Shaped(Pairs(CREDENTIAL)) && Shaped(Pairs(CREDENTIAL + UNCACHED))
    ensures UniqueKeys(Pairs(CREDENTIAL + UNCACHED))
  {
    var e := CREDENTIAL + UNCACHED;
    CloakIsShaped();
    CredentialKeysDiffer();
    forall i | 0 <= i < |e|
      ensures Shaped(e[i]) && UniqueKeys(e[i])
    {
      assert i < 9 ==> e[i] != Nil && e[i].content == [];
    }
    PairsAreShaped(CREDENTIAL);
    PairsAreShaped(e);
  }

  lemma AfterThreeSteps(n: Tree, a: Step, b: Step, c: Step)
    ensures ReadAt(n, [a, b, c]) == Child(Child(Child(n, a), b), c)
  {
    assert [a, b, c][1..] == [b, c] && [b, c][1..] == [c];
    assert ReadAt(Child(Child(n, a), b), [c]) == Child(Child(Child(n, a), b), c);
  }

  lemma LostFromList(id: string, value: string, more: seq<Tree>, path: Path, key: string, flag: string, v: Tree)
    requires var text := [Text(id), Text(value)];
      && Shaped(Pairs(text)) && Shaped(Pairs(text + more)) && UniqueKeys(Pairs(text + more))
      && Lookup(Pairs(text + more), key) == Pairs([Text(flag), v])
    requires !IsBlank(value) && AddsNoText(more) && id != key && IsZero(v)
    ensures var text, steps := [Text(id), Text(value)], [Item(0), Key(key), Key(flag)];
      && ReadAt(List([Pairs(text + more)]), steps) == v
      && ReadAt(MergeNode(List([Pairs(text)]), List([Pairs(text + more)]), path), steps) == Nil
  {
    var d, s := List([Pairs([Text(id), Text(value)])]), List([Pairs([Text(id), Text(value)] + more)]);
    MatchedByText(id, value, more);
    LostInItsElement(d, s, path, 0, key, [Key(flag)]);
    assert [Item(0), Key(key)] + [Key(flag)] == [Item(0), Key(key), Key(flag)];
    AfterThreeSteps(s, Item(0), Key(key), Key(flag));
    FoundAt(Pairs([Text(flag), v]), flag, 0);
  }

  /**
   An explicit false that is to be written on its own is lost with its
   otherwise zero mapping: `cache-user-id` turned off for a credential that had
   no `cloak` section.
   */
  lemma ExplicitFalseIsLost()
    ensures var d, s := List([Pairs(CREDENTIAL)]), List([Pairs(CREDENTIAL + UNCACHED)]);
      var path, steps := ["claude-api-key"], [Item(0), Key("cloak"), Key("cache-user-id")];
      && ReadAt(s, steps) == Flag("false")
      && !IsKnownDefault(path + ["cloak", "cache-user-id"], Flag("false"))
      && ReadAt(MergeNode(d, s, path), steps) == Nil
  {
    CloakIsGenerated();
    CredentialsAreShaped();
    CredentialHasText();
    LostFromList("api-key", "k", UNCACHED, ["claude-api-key"], "cloak", "cache-user-id", Flag("false"));
  }
}
