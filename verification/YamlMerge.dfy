/** Merging a generated configuration into the user's document, as a function on trees. */
module YamlMerge {
  import opened YamlTree

  /** Kind, tag, value and children of `s` on the node `d`, whose comments stay. */
  function CopyShallow(d: Tree, s: Tree): Tree {
    if d == Nil || s == Nil then d else d.(kind := s.kind, tag := s.tag, value := s.value, content := s.content)
  }

  /** The trimmed keys of a mapping, blank ones aside. */
  function KeepSet(content: seq<Tree>): set<string> {
    set i | 0 <= i < |content| - 1 && i % 2 == 0 && content[i] != Nil && !IsBlank(content[i].value) ::
      TrimSpace(content[i].value)
  }

  predicate Keeps(keep: set<string>, k: Tree) {
    k == Nil || TrimSpace(k.value) in keep
  }

  /** The pairs from `i` on whose key is in `keep`, in order. */
  function KeptPairs(content: seq<Tree>, keep: set<string>, i: nat): (r: seq<Tree>)
    requires i <= |content|
    ensures |r| <= |content| - i && |r| % 2 == (|content| - i) % 2
    decreases |content| - i
  {
    if i + 1 >= |content| then content[i..]
    else if Keeps(keep, content[i]) then content[i..i + 2] + KeptPairs(content, keep, i + 2)
    else KeptPairs(content, keep, i + 2)
  }

  /** `d` without the keys that `s` lacks. */
  function PruneMissing(d: Tree, s: Tree): Tree {
    if IsKind(d, Mapping) && IsKind(s, Mapping) then d.(content := KeptPairs(d.content, KeepSet(s.content), 0)) else d
  }

  /** The credential maps in which stale keys must not survive. */
  predicate ShouldPrune(path: Path) {
    && |path| >= 2
    && var parent, last := path[|path| - 2], path[|path| - 1];
    || (parent == "claude-api-key" && (last == "cloak" || last == "headers"))
    || (parent in ["codex-api-key", "gemini-api-key", "interactions-api-key", "xai-api-key", "meta-api-key",
                   "vertex-api-key", "openai-compatibility"] && last == "headers")
  }

  predicate IsNull(n: Tree) {
    IsKind(n, Scalar) && n.tag == "!!null"
  }

  /** One source pair into the mapping `d`. */
  function MergePair(d: Tree, k: Tree, v: Tree, path: Path): (r: Tree)
    requires IsKind(d, Mapping) && Shaped(k) && Shaped(v)
    ensures r != Nil && r == d.(content := r.content)
    decreases v, Len(v) + 3
  {
    var at, p := FindKey(d, k.value), path + [k.value];
    if at >= 0 then d.(content := d.content[at + 1 := MergeNode(d.content[at + 1], v, p)])
    else
      var candidate := Prune(p, v);
      if IsKnownDefault(p, candidate) then d else d.(content := d.content + [k, candidate])
  }

  function MergePairs(d: Tree, s: Tree, path: Path, i: nat): (r: Tree)
    requires IsKind(d, Mapping) && IsKind(s, Mapping) && Shaped(s) && i % 2 == 0
    ensures r != Nil && r == d.(content := r.content)
    decreases s, |s.content| - i
  {
    if i >= |s.content| then d
    else MergePairs(MergePair(d, s.content[i], s.content[i + 1], path), s, path, i + 2)
  }

  function MergeMapping(d: Tree, s: Tree, path: Path): (r: Tree)
    requires Shaped(s)
    decreases s, Len(s) + 1
  {
    if d == Nil then d
    else if d.kind != Mapping || s.kind != Mapping then CopyShallow(d, s)
    else MergePairs(d, s, path, 0)
  }

  /** An original list element, or an empty slot, after the element generated for it was merged in. */
  function MergeItem(o: Tree, s: Tree, path: Path): Tree
    requires Shaped(s)
    decreases s, Len(s) + 3
  {
    if o == Nil then s else PruneMissing(MergeNode(o, s, path), s)
  }

  /** The list `d` turned into a sequence node if it was not one. */
  function AsSequence(d: Tree): (r: Tree)
    requires d != Nil
    ensures IsKind(r, Sequence)
  {
    if d.kind == Sequence then d else d.(kind := Sequence, tag := "!!seq", content := [])
  }

  function MergeItems(slots: seq<Tree>, s: Tree, path: Path): (r: seq<Tree>)
    requires s != Nil && Shaped(s)
    ensures |r| == |s.content|
    decreases s, Len(s) + 1
  {
    seq(|s.content|, i requires 0 <= i < |s.content| =>
      if i < |slots| then MergeItem(slots[i], s.content[i], path) else s.content[i])
  }

  function MergeNode(d: Tree, s: Tree, path: Path): (r: Tree)
    requires Shaped(s)
    decreases s, Len(s) + 2
  {
    if d == Nil then d
    else match s.kind
      case Mapping =>
        var merged := MergeMapping(if d.kind == Mapping then d else CopyShallow(d, s), s, path);
        if ShouldPrune(path) then PruneMissing(merged, s) else merged
      case Sequence =>
        if IsNull(d) && s.content == [] then d
        else
          var list := AsSequence(d);
          list.(content := MergeItems(Reordered(list.content, s.content), s, path))
      case Scalar => d.(kind := Scalar, tag := s.tag, value := s.value)
      case Document => CopyShallow(d, s)
      case Empty => d
  }
}
