/** YAML nodes as mutable objects, each owning the nodes below it. */
module YamlHeap {
  import opened YamlTree
  import opened YamlMerge

  class YamlNode {
    var kind: Kind
    var tag: string
    var value: string
    var content: seq<YamlNode?>
    const deco: int
    /** This node and every node below it. */
    ghost var repr: set<YamlNode>

    ghost predicate Valid()
      reads this, repr
      decreases repr, 0
    {
      this in repr && Forest(content, repr - {this})
    }

    /** The tree rooted here. */
    function Tree(): (t: Tree)
      requires Valid()
      reads this, repr
      ensures t.Node?
      decreases repr, 0
    {
      Node(kind, tag, value, Trees(content, repr - {this}), deco)
    }

    /** A copy of the fields of `n` that has no children yet. */
    constructor Fields(n: YamlNode)
      ensures kind == n.kind && tag == n.tag && value == n.value && deco == n.deco && content == []
      ensures repr == {this}
    {
      kind, tag, value, deco := n.kind, n.tag, n.value, n.deco;
      content := [];
      repr := {this};
    }
  }

  /** Separate subtrees, all within `f`. */
  ghost predicate Forest(cs: seq<YamlNode?>, f: set<YamlNode>)
    reads f
    decreases f, 1
  {
    && (forall i | 0 <= i < |cs| && cs[i] != null :: cs[i] in f && cs[i].repr <= f && cs[i].Valid())
    && (forall i, j | 0 <= i < j < |cs| && cs[i] != null && cs[j] != null :: cs[i].repr !! cs[j].repr)
  }

  function Trees(cs: seq<YamlNode?>, ghost f: set<YamlNode>): (ts: seq<Tree>)
    requires Forest(cs, f)
    reads f
    ensures |ts| == |cs|
    ensures forall i | 0 <= i < |cs| :: ts[i] == if cs[i] == null then Nil else cs[i].Tree()
    decreases f, 1
  {
    seq(|cs|, i requires 0 <= i < |cs| && Forest(cs, f) reads f => if cs[i] == null then Nil else cs[i].Tree())
  }

  function TreeOf(n: YamlNode?): Tree
    requires n != null ==> n.Valid()
    reads n, if n == null then {} else n.repr
  {
    if n == null then Nil else n.Tree()
  }

  // --------------------------------------------------------------------- forests

  /** The roots `cs` hold the trees `ts`. */
  ghost predicate Spells(cs: seq<YamlNode?>, f: set<YamlNode>, ts: seq<Tree>)
    reads f
  {
    Forest(cs, f) && Trees(cs, f) == ts
  }

  ghost function ReprOf(n: YamlNode?): set<YamlNode>
    reads n
  {
    if n == null then {} else n.repr
  }

  lemma ForestPush(a: seq<YamlNode?>, f: set<YamlNode>, n: YamlNode?)
    requires Forest(a, f) && (n != null ==> n.Valid()) && ReprOf(n) !! f
    ensures Forest(a + [n], f + ReprOf(n)) && Trees(a + [n], f + ReprOf(n)) == Trees(a, f) + [TreeOf(n)]
  {
  }

  /** Any choice of distinct subtrees, with gaps, is a forest. */
  lemma ForestChoice(cs: seq<YamlNode?>, f: set<YamlNode>, m: seq<int>, r: seq<YamlNode?>)
    requires Forest(cs, f) && |r| == |m|
    requires forall i | 0 <= i < |m| :: -1 <= m[i] < |cs| && r[i] == if m[i] >= 0 then cs[m[i]] else null
    requires forall i, j | 0 <= i < j < |m| && m[i] >= 0 :: m[i] != m[j]
    ensures Forest(r, f)
    ensures forall i | 0 <= i < |m| :: Trees(r, f)[i] == if m[i] >= 0 then Trees(cs, f)[m[i]] else Nil
  {
  }

  // ---------------------------------------------------------------- search and copy

  method FindMapKeyIndex(n: YamlNode?, key: string) returns (r: int)
    requires n != null ==> n.Valid()
    ensures r == FindKey(TreeOf(n), key)
  {
    if n == null || n.kind != Mapping { return -1; }
    var i := 0;
    ghost var ts := Trees(n.content, n.repr - {n});
    while i + 1 < |n.content|
      invariant i <= |n.content| + 1 && i % 2 == 0
      invariant FindKeyFrom(ts, key, 0) == FindKeyFrom(ts, key, i)
    {
      if n.content[i] != null && n.content[i].value == key { return i; }
      i := i + 2;
    }
    return -1;
  }

  method DeepCopyNode(n: YamlNode?) returns (r: YamlNode?)
    requires n != null ==> n.Valid()
    ensures r == null <==> n == null
    ensures r != null ==> r.Valid() && fresh(r.repr) && r.Tree() == n.Tree()
    decreases if n == null then {} else n.repr, 1
  {
    if n == null { return null; }
    var cp := new YamlNode.Fields(n);
    ghost var f: set<YamlNode>;
    var children;
    children, f := DeepCopyAll(n.content, n.repr - {n});
    SetNode(cp, cp.kind, cp.tag, cp.value, children, f);
    return cp;
  }

  method DeepCopyAll(cs: seq<YamlNode?>, ghost f: set<YamlNode>) returns (r: seq<YamlNode?>, ghost g: set<YamlNode>)
    requires Forest(cs, f)
    ensures fresh(g) && Forest(r, g) && Trees(r, g) == Trees(cs, f)
    decreases f, 2
  {
    r, g := [], {};
    var i := 0;
    while i < |cs|
      invariant i <= |cs| && |r| == i && fresh(g) && Forest(r, g)
      invariant Trees(r, g) == Trees(cs, f)[..i]
    {
      var c := DeepCopyNode(cs[i]);
      ForestPush(r, g, c);
      r, g := r + [c], g + ReprOf(c);
      i := i + 1;
    }
  }

  /** A node over a forest. */
  lemma NodeOver(n: YamlNode, f: set<YamlNode>)
    requires n !in f && n.repr == {n} + f && Forest(n.content, f)
    ensures n.Valid() && n.Tree() == Node(n.kind, n.tag, n.value, Trees(n.content, f), n.deco)
  {
    assert n.repr - {n} == f;
  }

  // ------------------------------------------------------------------ changes in place

  lemma ForestRemove(cs: seq<YamlNode?>, f: set<YamlNode>, i: nat)
    requires Forest(cs, f) && i + 2 <= |cs|
    ensures Forest(cs[..i] + cs[i + 2..], f)
    ensures Trees(cs[..i] + cs[i + 2..], f) == Trees(cs, f)[..i] + Trees(cs, f)[i + 2..]
  {
  }

  lemma ForestTake(cs: seq<YamlNode?>, f: set<YamlNode>, i: nat)
    requires Forest(cs, f) && i <= |cs|
    ensures Forest(cs[..i], f) && Trees(cs[..i], f) == Trees(cs, f)[..i]
  {
  }

  /** Overwrites the fields of a node and hangs a forest below it. */
  method SetNode(n: YamlNode, kind: Kind, tag: string, value: string, content: seq<YamlNode?>, ghost f: set<YamlNode>)
    requires n !in f && Forest(content, f)
    modifies n
    ensures n.Valid() && n.repr == {n} + f && n.content == content
    ensures n.Tree() == Node(kind, tag, value, old(Trees(content, f)), n.deco)
  {
    n.kind, n.tag, n.value, n.content, n.repr := kind, tag, value, content, {n} + f;
    NodeOver(n, f);
  }

  method CopyNodeShallow(dst: YamlNode, src: YamlNode)
    requires dst.Valid() && src.Valid() && dst !in src.repr
    modifies dst
    ensures dst.Valid() && fresh(dst.repr - old(dst.repr))
    ensures dst.Tree() == CopyShallow(old(dst.Tree()), old(src.Tree()))
  {
    ghost var f: set<YamlNode>;
    var children;
    children, f := DeepCopyAll(src.content, src.repr - {src});
    SetNode(dst, src.kind, src.tag, src.value, children, f);
  }

  /** Kept pairs depend only on what follows. */
  lemma {:induction false} KeptPairsShift(a: seq<Tree>, i: nat, b: seq<Tree>, j: nat, keep: set<string>)
    requires i <= |a| && j <= |b| && a[i..] == b[j..]
    ensures KeptPairs(a, keep, i) == KeptPairs(b, keep, j)
    decreases |a| - i
  {
    if i + 1 < |a| {
      assert |a| - i == |b| - j && a[i] == a[i..][0] == b[j] && a[i + 1] == a[i..][1] == b[j + 1];
      assert a[i + 2..] == a[i..][2..] == b[j + 2..];
      KeptPairsShift(a, i + 2, b, j + 2, keep);
      assert a[i..i + 2] == [a[i], a[i + 1]] == b[j..j + 2];
    }
  }

  method KeepKeys(src: YamlNode) returns (keep: set<string>)
    requires src.Valid()
    ensures keep == KeepSet(src.Tree().content)
  {
    keep := {};
    ghost var ts := src.Tree().content;
    var i := 0;
    while i + 1 < |src.content|
      invariant i <= |ts| && i % 2 == 0 && keep == KeepSet(ts[..i])
    {
      var k := src.content[i];
      if k != null && TrimSpace(k.value) != "" {
        keep := keep + {TrimSpace(k.value)};
      }
      KeepSetStep(ts, i);
      i := i + 2;
    }
    KeepSetWhole(ts, i);
  }

  lemma KeepSetStep(ts: seq<Tree>, i: nat)
    requires i % 2 == 0 && i + 1 < |ts|
    ensures KeepSet(ts[..i + 2]) ==
      KeepSet(ts[..i]) + if ts[i] != Nil && !IsBlank(ts[i].value) then {TrimSpace(ts[i].value)} else {}
  {
    var a, b := KeepSet(ts[..i + 2]), KeepSet(ts[..i]);
    if ts[i] != Nil && !IsBlank(ts[i].value) { assert ts[..i + 2][i] == ts[i]; }
    forall x | x in b ensures x in a {
      var j :| 0 <= j < i - 1 && j % 2 == 0 && ts[..i][j] != Nil && !IsBlank(ts[..i][j].value) && x == TrimSpace(ts[..i][j].value);
      assert ts[..i + 2][j] == ts[..i][j];
    }
    forall x | x in a
      ensures x in b || (ts[i] != Nil && !IsBlank(ts[i].value) && x == TrimSpace(ts[i].value))
    {
      var j :| 0 <= j < i + 1 && j % 2 == 0 && ts[..i + 2][j] != Nil && !IsBlank(ts[..i + 2][j].value)
               && x == TrimSpace(ts[..i + 2][j].value);
      if j < i { assert ts[..i][j] == ts[..i + 2][j]; }
    }
  }

  lemma KeepSetWhole(ts: seq<Tree>, i: nat)
    requires i % 2 == 0 && i <= |ts| <= i + 1
    ensures KeepSet(ts[..i]) == KeepSet(ts)
  {
    if i < |ts| {
      var a, b := KeepSet(ts), KeepSet(ts[..i]);
      forall x | x in a ensures x in b {
        var j :| 0 <= j < |ts| - 1 && j % 2 == 0 && ts[j] != Nil && !IsBlank(ts[j].value) && x == TrimSpace(ts[j].value);
        assert ts[..i][j] == ts[j];
      }
      forall x | x in b ensures x in a {
        var j :| 0 <= j < i - 1 && j % 2 == 0 && ts[..i][j] != Nil && !IsBlank(ts[..i][j].value) && x == TrimSpace(ts[..i][j].value);
        assert ts[..i][j] == ts[j];
      }
    } else {
      assert ts[..i] == ts;
    }
  }

  method PruneMissingMapKeys(dst: YamlNode, src: YamlNode)
    requires dst.Valid() && src.Valid() && dst !in src.repr
    modifies dst`content
    ensures dst.Valid() && dst.Tree() == PruneMissing(old(dst.Tree()), old(src.Tree()))
  {
    if dst.kind != Mapping || src.kind != Mapping { return; }
    var keep := KeepKeys(src);
    ghost var f := dst.repr - {dst};
    DropKeysOutside(dst, f, keep);
    NodeOver(dst, f);
  }

  method DropKeysOutside(dst: YamlNode, ghost f: set<YamlNode>, keep: set<string>)
    requires dst !in f && Forest(dst.content, f)
    modifies dst`content
    ensures Spells(dst.content, f, KeptPairs(old(Trees(dst.content, f)), keep, 0))
  {
    ghost var ts := Trees(dst.content, f);
    ghost var now := ts;
    var i := 0;
    while i + 1 < |dst.content|
      invariant i <= |dst.content| == |now| && Spells(dst.content, f, now)
      invariant KeptPairs(ts, keep, 0) == now[..i] + KeptPairs(now, keep, i)
      decreases |dst.content| - i
    {
      var k := dst.content[i];
      if k != null && TrimSpace(k.value) !in keep {
        DropPairAt(dst, f, now, i);
        RemovedPair(ts, now, keep, i);
        now := now[..i] + now[i + 2..];
      } else {
        KeptPair(ts, now, keep, i);
        i := i + 2;
      }
    }
  }

  method DropPairAt(dst: YamlNode, ghost f: set<YamlNode>, ghost now: seq<Tree>, i: nat)
    requires dst !in f && Spells(dst.content, f, now) && i + 2 <= |dst.content| == |now|
    modifies dst`content
    ensures Spells(dst.content, f, now[..i] + now[i + 2..]) && |dst.content| == |old(dst.content)| - 2
  {
    ForestRemove(dst.content, f, i);
    dst.content := dst.content[..i] + dst.content[i + 2..];
  }

  lemma RemovedPair(ts: seq<Tree>, now: seq<Tree>, keep: set<string>, i: nat)
    requires i + 1 < |now| && !Keeps(keep, now[i]) && KeptPairs(ts, keep, 0) == now[..i] + KeptPairs(now, keep, i)
    ensures var next := now[..i] + now[i + 2..]; KeptPairs(ts, keep, 0) == next[..i] + KeptPairs(next, keep, i)
  {
    var next := now[..i] + now[i + 2..];
    assert next[..i] == now[..i] && next[i..] == now[i + 2..];
    KeptPairsShift(now, i + 2, next, i, keep);
    assert KeptPairs(now, keep, i) == [] + KeptPairs(now, keep, i + 2) == KeptPairs(next, keep, i);
  }

  lemma KeptPair(ts: seq<Tree>, now: seq<Tree>, keep: set<string>, i: nat)
    requires i + 1 < |now| && Keeps(keep, now[i]) && KeptPairs(ts, keep, 0) == now[..i] + KeptPairs(now, keep, i)
    ensures KeptPairs(ts, keep, 0) == now[..i + 2] + KeptPairs(now, keep, i + 2)
  {
    assert now[..i + 2] == now[..i] + now[i..i + 2];
  }
}
