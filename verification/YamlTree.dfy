/** YAML nodes as values, and the tests and rewrites the configuration merge is made of. */
module YamlTree {

  /** `Empty` is the zero kind of an unset node. */
  datatype Kind = Empty | Document | Sequence | Mapping | Scalar

  /**
   `Nil` is a null pointer. A mapping lists key, value, key, value. `deco`
   stands for everything a merge never touches on an existing node: its
   comments, style, anchor and position.
   */
  datatype Tree = Nil | Node(kind: Kind, tag: string, value: string, content: seq<Tree>, deco: int)

  type Path = seq<string>

  // ------------------------------------------------------------------ strings

  predicate IsSpace(c: char) {
    c in {' ', '\t', '\n', '\r', '\U{000B}', '\U{000C}', '\U{0085}', '\U{00A0}', '\U{1680}', '\U{2028}', '\U{2029}',
          '\U{202F}', '\U{205F}', '\U{3000}'}
    || '\U{2000}' <= c <= '\U{200A}'
  }

  function TrimSpace(s: string): string {
    if s == "" then s
    else if IsSpace(s[0]) then TrimSpace(s[1..])
    else if IsSpace(s[|s| - 1]) then TrimSpace(s[..|s| - 1])
    else s
  }

  /** Lower case of the ASCII letters. */
  function ToLower(s: string): string {
    seq(|s|, i requires 0 <= i < |s| => if 'A' <= s[i] <= 'Z' then s[i] - 'A' + 'a' else s[i])
  }

  function JoinDots(path: Path): string {
    if |path| == 0 then "" else if |path| == 1 then path[0] else path[0] + "." + JoinDots(path[1..])
  }

  predicate IsBlank(key: string) {
    TrimSpace(key) == ""
  }

  // ------------------------------------------------------------------- shape

  function Len(n: Tree): nat {
    if n == Nil then 0 else |n.content|
  }

  function Children(n: Tree): seq<Tree> {
    if n == Nil then [] else n.content
  }

  function WithChildren(n: Tree, content: seq<Tree>): Tree {
    if n == Nil then n else n.(content := content)
  }

  predicate IsKind(n: Tree, kind: Kind) {
    n != Nil && n.kind == kind
  }

  predicate HasKey(n: Tree, key: string) {
    n != Nil && n.value == key
  }

  /** No null pointers, and mappings with whole pairs, all the way down. */
  ghost predicate Shaped(n: Tree) {
    && n != Nil
    && (n.kind == Mapping ==> |n.content| % 2 == 0)
    && forall i | 0 <= i < |n.content| :: Shaped(n.content[i])
  }

  /** No mapping lists a key twice. */
  ghost predicate UniqueKeys(n: Tree) {
    && n != Nil
    && (n.kind == Mapping ==> DistinctKeys(n.content))
    && forall i | 0 <= i < |n.content| :: UniqueKeys(n.content[i])
  }

  ghost predicate DistinctKeys(content: seq<Tree>) {
    forall i, j | 0 <= i < j < |content| - 1 && i % 2 == 0 && j % 2 == 0 && content[j] != Nil ::
      !HasKey(content[i], content[j].value)
  }

  /** The index of the first key node from `i` on that reads `key`, or -1. */
  function FindKeyFrom(content: seq<Tree>, key: string, i: nat): (r: int)
    ensures r == -1 || (i <= r < |content| - 1 && (r - i) % 2 == 0 && HasKey(content[r], key))
    ensures forall j | i <= j < |content| - 1 && (r < 0 || j < r) && (j - i) % 2 == 0 :: !HasKey(content[j], key)
    decreases |content| - i
  {
    if i + 1 >= |content| then -1
    else if HasKey(content[i], key) then i
    else FindKeyFrom(content, key, i + 2)
  }

  function FindKey(n: Tree, key: string): (r: int)
    ensures r == -1 || (IsKind(n, Mapping) && 0 <= r < |n.content| - 1 && r % 2 == 0 && HasKey(n.content[r], key))
    ensures IsKind(n, Mapping) ==>
      forall j | 0 <= j < |n.content| - 1 && (r < 0 || j < r) && j % 2 == 0 :: !HasKey(n.content[j], key)
  {
    if IsKind(n, Mapping) then FindKeyFrom(n.content, key, 0) else -1
  }

  // ----------------------------------------------------------------- defaults

  /** Scalars that read as zero, and collections of nothing but zeros. */
  predicate IsZero(n: Tree) {
    if n == Nil then true
    else match n.kind
      case Scalar =>
        (match n.tag
         case "!!bool" => n.value == "false"
         case "!!int" => n.value == "0" || n.value == "0.0"
         case "!!float" => n.value == "0" || n.value == "0.0"
         case "!!str" => n.value == ""
         case "!!null" => true
         case _ => false)
      case Sequence => forall i | 0 <= i < |n.content| :: IsZero(n.content[i])
      case Mapping => forall i | 0 <= i < |n.content| && i % 2 == 1 :: IsZero(n.content[i])
      case _ => false
  }

  /** Explicit values that are meaningful although they are zero. */
  predicate IsException(path: Path, n: Tree) {
    && |path| > 0 && IsKind(n, Scalar)
    && var last := path[|path| - 1];
    || ((last == "cache-user-id" || last == "disable-cooling") && n.tag == "!!bool")
    || (last == "session-date-pin-days" && n.tag == "!!int" && n.value == "0")
  }

  predicate IsNonZeroDefault(path: Path, n: Tree) {
    && |path| > 0 && IsKind(n, Scalar)
    && var full := JoinDots(path);
    || (n.tag == "!!str" && full == "pprof.addr" && n.value == "127.0.0.1:8316")
    || (n.tag == "!!str" && full == "routing.strategy" && n.value == "round-robin")
    || (n.tag == "!!int" && full == "error-logs-max-files" && n.value == "10")
    || (n.tag == "!!int" && (full == "claude.session-date-pin-days" || full == "claude-session-date-pin-days") && n.value == "7")
  }

  /** Whether a value at this path should not be written to the file. */
  predicate IsKnownDefault(path: Path, n: Tree) {
    !IsException(path, n) && (IsZero(n) || IsNonZeroDefault(path, n))
  }

  predicate IsEmptyCollection(n: Tree) {
    (IsKind(n, Mapping) || IsKind(n, Sequence)) && |n.content| == 0
  }

  /** `n` without its default-valued descendants. */
  function Prune(path: Path, n: Tree): (r: Tree)
    ensures r == Nil <==> n == Nil
    ensures n != Nil ==> r == n.(content := r.content)
    ensures n != Nil && n.kind != Mapping && n.kind != Sequence ==> r == n
    ensures IsKind(n, Sequence) ==> |r.content| == |n.content|
    decreases n, Len(n) + 1
  {
    if IsKind(n, Mapping) then n.(content := PrunedPairs(path, n, 0))
    else if IsKind(n, Sequence) then
      n.(content := seq(|n.content|, i requires 0 <= i < |n.content| => Prune(path, n.content[i])))
    else n
  }

  predicate DropsPair(path: Path, k: Tree, v: Tree)
    decreases v, Len(v) + 2
  {
    || k == Nil || v == Nil
    || IsKnownDefault(path + [k.value], v)
    || IsEmptyCollection(Prune(path + [k.value], v))
  }

  function PrunedPairs(path: Path, n: Tree, i: nat): (r: seq<Tree>)
    requires n != Nil
    ensures |r| % 2 == 0
    decreases n, |n.content| - i
  {
    if i + 1 >= |n.content| then []
    else
      var k, v := n.content[i], n.content[i + 1];
      if DropsPair(path, k, v) then PrunedPairs(path, n, i + 2)
      else [k, Prune(path + [k.value], v)] + PrunedPairs(path, n, i + 2)
  }

  // ------------------------------------------------------- matching list elements

  predicate StructurallyEqual(a: Tree, b: Tree)
    decreases a
  {
    if a == Nil || b == Nil then a == b
    else if a.kind != b.kind then false
    else match a.kind
      case Mapping =>
        |a.content| == |b.content|
        && forall i | 0 <= i < |a.content| - |a.content| % 2 :: StructurallyEqual(a.content[i], b.content[i])
      case Sequence =>
        |a.content| == |b.content| && forall i | 0 <= i < |a.content| :: StructurallyEqual(a.content[i], b.content[i])
      case _ => TrimSpace(a.value) == TrimSpace(b.value)
  }

  const IDENTITY_KEYS := ["id", "name", "alias", "api-key", "api_key", "apikey", "key", "provider", "model"]

  /** The trimmed scalar under `key`, compared without case. */
  function MappingScalarFrom(content: seq<Tree>, key: string, i: nat): string
    decreases |content| - i
  {
    if i + 1 >= |content| then ""
    else if content[i] != Nil && IsKind(content[i + 1], Scalar) && ToLower(TrimSpace(content[i].value)) == ToLower(key)
    then TrimSpace(content[i + 1].value)
    else MappingScalarFrom(content, key, i + 2)
  }

  function KeyedIdentity(content: seq<Tree>, k: nat): string
    decreases |IDENTITY_KEYS| - k
  {
    if k >= |IDENTITY_KEYS| then ""
    else
      var v := MappingScalarFrom(content, IDENTITY_KEYS[k], 0);
      if v != "" then IDENTITY_KEYS[k] + "=" + v else KeyedIdentity(content, k + 1)
  }

  function FirstScalarIdentity(content: seq<Tree>, i: nat): string
    decreases |content| - i
  {
    if i + 1 >= |content| then ""
    else if content[i] != Nil && IsKind(content[i + 1], Scalar) && TrimSpace(content[i + 1].value) != "" then
      ToLower(TrimSpace(content[i].value)) + "=" + TrimSpace(content[i + 1].value)
    else FirstScalarIdentity(content, i + 2)
  }

  /** What identifies a list element: a well-known key, else its first non-blank scalar. */
  function Identity(n: Tree): string {
    if !IsKind(n, Mapping) then ""
    else
      var keyed := KeyedIdentity(n.content, 0);
      if keyed != "" then keyed else FirstScalarIdentity(n.content, 0)
  }

  /** The three ways an original element can stand for a generated one. */
  predicate SameIdentity(o: Tree, target: Tree) {
    IsKind(target, Mapping) && IsKind(o, Mapping) && Identity(target) != "" && Identity(o) == Identity(target)
  }

  predicate SameScalar(o: Tree, target: Tree) {
    && IsKind(target, Scalar) && IsKind(o, Scalar)
    && !IsBlank(target.value) && TrimSpace(o.value) == TrimSpace(target.value)
  }

  predicate SameStructure(o: Tree, target: Tree) {
    o != Nil && StructurallyEqual(o, target)
  }

  predicate ByKeyMatch(o: Tree, target: Tree) {
    SameIdentity(o, target) || SameScalar(o, target)
  }

  /** The first unused original the test accepts, or -1. */
  function FirstUnused(original: seq<Tree>, used: set<int>, target: Tree, byKey: bool, i: nat): (r: int)
    ensures r == -1 || (i <= r < |original| && r !in used
                        && if byKey then ByKeyMatch(original[r], target) else SameStructure(original[r], target))
    ensures forall j | i <= j < |original| && (r < 0 || j < r) && j !in used ::
      if byKey then !ByKeyMatch(original[j], target) else !SameStructure(original[j], target)
    decreases |original| - i
  {
    if i >= |original| then -1
    else if i !in used && (if byKey then ByKeyMatch(original[i], target) else SameStructure(original[i], target)) then i
    else FirstUnused(original, used, target, byKey, i + 1)
  }

  function Match(original: seq<Tree>, used: set<int>, target: Tree): (r: int)
    ensures -1 <= r < |original|
  {
    if target == Nil then -1
    else
      var keyed := FirstUnused(original, used, target, true, 0);
      if keyed >= 0 then keyed else FirstUnused(original, used, target, false, 0)
  }

  /** Which original each of the first `n` generated elements takes; -1 for none. */
  function Assignment(original: seq<Tree>, targets: seq<Tree>, n: nat): (m: seq<int>)
    requires n <= |targets|
    ensures |m| == n
    ensures forall i | 0 <= i < n :: -1 <= m[i] < |original|
  {
    if n == 0 then []
    else
      var m := Assignment(original, targets, n - 1);
      m + [Match(original, Used(m), targets[n - 1])]
  }

  function Used(m: seq<int>): set<int> {
    set x | x in m && x >= 0
  }

  /** The originals in generated order, with null slots for new elements. */
  function Reordered(original: seq<Tree>, targets: seq<Tree>): (r: seq<Tree>)
    ensures |original| > 0 && |targets| > 0 ==> |r| == |targets|
    ensures |original| == 0 || |targets| == 0 ==> r == original
  {
    if |original| == 0 || |targets| == 0 then original
    else
      var m := Assignment(original, targets, |targets|);
      seq(|targets|, i requires 0 <= i < |m| && -1 <= m[i] < |original| =>
        if m[i] >= 0 then original[m[i]] else Nil)
  }
}
