/** Which of the user's list elements a generated one is matched to, and which stale keys go. */
module YamlMatching {
  import opened YamlTree
  import opened YamlMerge
  import opened YamlMeaning
  import opened YamlShape

  // ------------------------------------------------------------------ trimming

  predicate AllSpace(s: string) {
    forall i | 0 <= i < |s| :: IsSpace(s[i])
  }

  /** What is left of a text is what stands between the white space at its ends. */
  lemma {:induction false} TrimPadded(left: string, word: string, right: string)
    requires AllSpace(left) && AllSpace(right)
    requires word != "" ==> !IsSpace(word[0]) && !IsSpace(word[|word| - 1])
    ensures TrimSpace(left + word + right) == word
    decreases |left|
  {
    var s := left + word + right;
    if left != "" {
      assert s[0] == left[0] && s[1..] == left[1..] + word + right;
      TrimPadded(left[1..], word, right);
    } else {
      assert s == word + right;
      TrimRight(word, right);
    }
  }

  lemma {:induction false} TrimRight(word: string, right: string)
    requires AllSpace(right)
    requires word != "" ==> !IsSpace(word[0]) && !IsSpace(word[|word| - 1])
    ensures TrimSpace(word + right) == word
    decreases |right|
  {
    var s := word + right;
    if right == "" {
      assert s == word;
    } else if word == "" {
      assert s[0] == right[0] && s[1..] == word + right[1..];
      TrimRight(word, right[1..]);
    } else {
      var n := |right| - 1;
      assert s[0] == word[0] && s[|s| - 1] == right[n] && s[..|s| - 1] == word + right[..n];
      TrimRight(word, right[..n]);
    }
  }

  // ---------------------------------------------------------------- stale keys

  /** The maps from which keys that are no longer generated are removed, by the last two keys of their path. */
  const PRUNED_MAPS: set<Path> := {
    ["claude-api-key", "cloak"], ["claude-api-key", "headers"], ["codex-api-key", "headers"],
    ["gemini-api-key", "headers"], ["interactions-api-key", "headers"], ["xai-api-key", "headers"],
    ["meta-api-key", "headers"], ["vertex-api-key", "headers"], ["openai-compatibility", "headers"]}

  lemma PrunedMaps(path: Path)
    ensures ShouldPrune(path) <==> |path| >= 2 && path[|path| - 2..] in PRUNED_MAPS
  {
    if |path| >= 2 {
      assert path[|path| - 2..] == [path[|path| - 2], path[|path| - 1]];
    }
  }

  /** No generated key is the same but for white space at its ends. */
  ghost predicate IsStale(s: Tree, key: string) {
    && s != Nil
    && forall j | 0 <= j < |s.content| - 1 && j % 2 == 0 :: s.content[j] != Nil ==> TrimSpace(s.content[j].value) != TrimSpace(key)
  }

  /** A key of the user that is not generated any more goes exactly in the named maps, and in every matched list element. */
  lemma StaleKeys(d: Tree, s: Tree, path: Path, key: string)
    requires Shaped(d) && IsKind(d, Mapping) && Shaped(s) && UniqueKeys(s) && IsKind(s, Mapping)
    requires FindKey(d, key) >= 0 && IsStale(s, key)
    ensures FindKey(MergeNode(d, s, path), key) < 0 <==> |path| >= 2 && path[|path| - 2..] in PRUNED_MAPS
    ensures FindKey(MergeItem(d, s, path), key) < 0
  {
    PrunedMaps(path);
    KeysAfterMerge(d, s, path, key);
    KeysAfterItemMerge(d, s, path, key);
    assert TrimSpace(key) !in KeepSet(s.content);
  }

  // ------------------------------------------------------------- identity of list elements

  /** The pair at `i` puts a scalar under a key that reads `key` in any case. */
  predicate IsEntry(content: seq<Tree>, key: string, i: nat)
    requires i < |content| - 1
  {
    content[i] != Nil && IsKind(content[i + 1], Scalar) && ToLower(TrimSpace(content[i].value)) == key
  }

  /** `text` is the trimmed scalar of the first such pair, and empty if there is none. */
  ghost predicate Reads(content: seq<Tree>, key: string, text: string) {
    || (exists i | 0 <= i < |content| - 1 && i % 2 == 0 ::
          && IsEntry(content, key, i) && text == TrimSpace(content[i + 1].value)
          && forall j | 0 <= j < i && j % 2 == 0 :: !IsEntry(content, key, j))
    || (text == "" && forall j | 0 <= j < |content| - 1 && j % 2 == 0 :: !IsEntry(content, key, j))
  }

  lemma {:induction false} MappingScalarFirst(content: seq<Tree>, key: string, i: nat)
    requires i % 2 == 0 && ToLower(key) == key
    requires forall j | 0 <= j < i && j % 2 == 0 && j < |content| - 1 :: !IsEntry(content, key, j)
    ensures Reads(content, key, MappingScalarFrom(content, key, i))
    decreases |content| - i
  {
    if i + 1 < |content| && !IsEntry(content, key, i) {
      MappingScalarFirst(content, key, i + 2);
    }
  }

  lemma ReadsOneText(content: seq<Tree>, key: string, a: string, b: string)
    requires Reads(content, key, a) && Reads(content, key, b)
    ensures a == b
  {
  }

  lemma IdentityKeysAreLower(k: nat)
    requires k < |IDENTITY_KEYS|
    ensures ToLower(IDENTITY_KEYS[k]) == IDENTITY_KEYS[k]
    ensures '=' !in IDENTITY_KEYS[k]
    ensures forall j | 0 <= j < |IDENTITY_KEYS| && j != k :: IDENTITY_KEYS[j] != IDENTITY_KEYS[k]
  {
  }

  /** The element is identified by `text` under the k-th identity key: no earlier identity key has a text. */
  ghost predicate IdentifiedBy(n: Tree, k: nat, text: string) {
    && IsKind(n, Mapping) && k < |IDENTITY_KEYS| && text != ""
    && Reads(n.content, IDENTITY_KEYS[k], text)
    && forall j | 0 <= j < k :: Reads(n.content, IDENTITY_KEYS[j], "")
  }

  lemma {:induction false} KeyedBy(n: Tree, k: nat, text: string, from: nat)
    requires IdentifiedBy(n, k, text) && from <= k
    ensures KeyedIdentity(n.content, from) == IDENTITY_KEYS[k] + "=" + text
    decreases k - from
  {
    IdentityKeysAreLower(from);
    MappingScalarFirst(n.content, IDENTITY_KEYS[from], 0);
    var v := MappingScalarFrom(n.content, IDENTITY_KEYS[from], 0);
    if from < k {
      ReadsOneText(n.content, IDENTITY_KEYS[from], v, "");
      KeyedBy(n, k, text, from + 1);
    } else {
      ReadsOneText(n.content, IDENTITY_KEYS[from], v, text);
    }
  }

  /** Up to its first equals sign a text is one key only. */
  lemma SplitsOnce(a: string, v: string, b: string, w: string)
    requires '=' !in a && '=' !in b
    ensures a + "=" + v == b + "=" + w <==> a == b && v == w
  {
    var s, t := a + "=" + v, b + "=" + w;
    if s == t {
      assert s[|a|] == '=' && t[|b|] == '=';
      assert a == s[..|a|] && b == t[..|b|] && v == s[|a| + 1..] && w == t[|b| + 1..];
    }
  }

  /** Two elements that carry identity keys are the same one exactly if the same key identifies both by the same text. */
  lemma SameIdentityIff(o: Tree, e: Tree, k: nat, text: string, k': nat, text': string)
    requires IdentifiedBy(o, k, text) && IdentifiedBy(e, k', text')
    ensures SameIdentity(o, e) <==> k == k' && text == text'
  {
    KeyedBy(o, k, text, 0);
    KeyedBy(e, k', text', 0);
    IdentityKeysAreLower(k);
    IdentityKeysAreLower(k');
    SplitsOnce(IDENTITY_KEYS[k], text, IDENTITY_KEYS[k'], text');
  }

  /**
   Which original a generated element with an identity key gets: if one that the
   same key identifies by the same text is left, then the first element left
   that could be it, and never one that is identified otherwise.
   */
  lemma TakesItsOwn(original: seq<Tree>, targets: seq<Tree>, n: nat, k: nat, text: string, own: nat)
    requires n < |targets| && own < |original| && IdentifiedBy(targets[n], k, text) && IdentifiedBy(original[own], k, text)
    requires own !in Assignment(original, targets, n)
    ensures var m := Assignment(original, targets, n + 1);
      && 0 <= m[n] <= own && m[n] !in Assignment(original, targets, n)
      && (forall k': nat, text' | IdentifiedBy(original[m[n]], k', text') :: k' == k && text' == text)
      && (forall o: nat | o < m[n] && o !in Assignment(original, targets, n) :: !IdentifiedBy(original[o], k, text))
  {
    var prior := Assignment(original, targets, n);
    var e := targets[n];
    var r := Match(original, Used(prior), e);
    assert forall x | x >= 0 :: x in prior <==> x in Used(prior);
    SameIdentityIff(original[own], e, k, text, k, text);
    assert ByKeyMatch(original[own], e) && r == FirstUnused(original, Used(prior), e, true, 0);
    forall k': nat, text' | IdentifiedBy(original[r], k', text')
      ensures k' == k && text' == text
    {
      SameIdentityIff(original[r], e, k', text', k, text);
    }
    forall o: nat | o < r && o !in prior
      ensures !IdentifiedBy(original[o], k, text)
    {
      if IdentifiedBy(original[o], k, text) { SameIdentityIff(original[o], e, k, text, k, text); }
    }
  }
}
