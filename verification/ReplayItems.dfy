/** Item lists, their limits and normalization, and the snapshot both Antigravity caches hand out. */
module ReplayItems {
  import opened Base

  const MAX_ITEMS_PER_ENTRY: nat := 4096
  const MAX_BYTES_PER_ENTRY: nat := 16 * 1024 * 1024
  const REPLAY_TTL: int := HOUR

  /** What a request keeps about the state it read. `raw` is used with Home, `revision` and `epoch` locally. */
  datatype ReplaySnapshot = ReplaySnapshot(
    raw: Bytes, items: seq<Bytes>, loaded: bool, found: bool, revision: nat, branch: string, epoch: nat)

  const NO_SNAPSHOT := ReplaySnapshot([], [], false, false, 0, "", 0)

  /** Normalization of one item: `None` drops it. */
  type Normalizer = Bytes -> Option<Bytes>

  function TotalBytes(items: seq<Bytes>): nat {
    if items == [] then 0 else TotalBytes(items[..|items| - 1]) + |items[|items| - 1]|
  }

  function Kept(f: Normalizer, items: seq<Bytes>): seq<Bytes> {
    if items == [] then []
    else
      var rest := Kept(f, items[..|items| - 1]);
      match f(items[|items| - 1])
      case Some(n) => rest + [n]
      case None => rest
  }

  /** Oversized lists are refused whole, and a list with nothing left is refused too. */
  function Normalized(f: Normalizer, items: seq<Bytes>): Option<seq<Bytes>> {
    var kept := Kept(f, items);
    if |items| > MAX_ITEMS_PER_ENTRY || TotalBytes(kept) > MAX_BYTES_PER_ENTRY || kept == [] then None else Some(kept)
  }

  /** Normalizing an already normalized item changes nothing. */
  ghost predicate Idempotent(f: Normalizer) {
    forall b :: f(b).Some? ==> f(f(b).value) == f(b)
  }

  lemma {:induction false} KeptGrows(f: Normalizer, items: seq<Bytes>, i: nat)
    requires i <= |items|
    ensures TotalBytes(Kept(f, items[..i])) <= TotalBytes(Kept(f, items))
    ensures |Kept(f, items[..i])| <= |Kept(f, items)|
    decreases |items|
  {
    if i < |items| {
      var front := items[..|items| - 1];
      assert front[..i] == items[..i];
      KeptGrows(f, front, i);
      if f(items[|items| - 1]).Some? {
        assert Kept(f, items)[..|Kept(f, front)|] == Kept(f, front);
      }
    } else {
      assert items[..i] == items;
    }
  }

  lemma {:induction false} KeptIsFixed(f: Normalizer, items: seq<Bytes>)
    requires Idempotent(f)
    ensures Kept(f, Kept(f, items)) == Kept(f, items)
    ensures |Kept(f, items)| <= |items|
  {
    if items != [] {
      var front := items[..|items| - 1];
      KeptIsFixed(f, front);
      if f(items[|items| - 1]).Some? {
        assert Kept(f, items)[..|Kept(f, items)| - 1] == Kept(f, front);
      }
    }
  }

  lemma NormalizedIsFixed(f: Normalizer, items: seq<Bytes>)
    requires Idempotent(f) && Normalized(f, items).Some?
    ensures Normalized(f, Normalized(f, items).value) == Normalized(f, items)
  {
    KeptIsFixed(f, items);
  }

  // ------------------------------------------------------------- what is kept

  /** Where the accepted items stand, first to last. */
  function AcceptedAt(f: Normalizer, items: seq<Bytes>): (at: seq<nat>)
    ensures forall x | 0 <= x < |at| :: at[x] < |items|
  {
    if items == [] then []
    else
      var n := |items| - 1;
      AcceptedAt(f, items[..n]) + if f(items[n]).Some? then [n] else []
  }

  /** `r` holds, in their order, the normalized forms of exactly the items that `f` accepts; they stand at `at`. */
  ghost predicate Selects(f: Normalizer, items: seq<Bytes>, at: seq<nat>, r: seq<Bytes>) {
    && (forall x, y | 0 <= x < y < |at| :: at[x] < at[y])
    && (forall i: nat :: i in at <==> i < |items| && f(items[i]).Some?)
    && |r| == |at|
    && (forall x | 0 <= x < |r| :: at[x] < |items| && f(items[at[x]]) == Some(r[x]))
  }

  lemma {:induction false} KeptSelects(f: Normalizer, items: seq<Bytes>)
    ensures Selects(f, items, AcceptedAt(f, items), Kept(f, items))
  {
    if items != [] {
      var n := |items| - 1;
      var front, at, r := items[..n], AcceptedAt(f, items[..n]), Kept(f, items[..n]);
      KeptSelects(f, front);
      if f(items[n]).Some? {
        SelectOneMore(f, items, at, r);
      } else {
        assert AcceptedAt(f, items) == at;
        forall i: nat
          ensures i in at <==> i < |items| && f(items[i]).Some?
        {
          assert i in at <==> i < n && f(front[i]).Some?;
        }
      }
    }
  }

  lemma SelectOneMore(f: Normalizer, items: seq<Bytes>, at: seq<nat>, r: seq<Bytes>)
    requires items != [] && f(items[|items| - 1]).Some? && Selects(f, items[..|items| - 1], at, r)
    ensures Selects(f, items, at + [|items| - 1], r + [f(items[|items| - 1]).value])
  {
    var n := |items| - 1;
    forall i: nat
      ensures i in at + [n] <==> i < |items| && f(items[i]).Some?
    {
      assert i in at <==> i < n && f(items[..n][i]).Some?;
    }
    forall x | 0 <= x < |at|
      ensures at[x] < n
    {
      assert at[x] in at;
    }
  }

  lemma {:induction false} TotalOfParts(a: seq<Bytes>, b: seq<Bytes>)
    ensures TotalBytes(a + b) == TotalBytes(a) + TotalBytes(b)
    decreases |b|
  {
    if b == [] {
      assert a + b == a;
    } else {
      var front := b[..|b| - 1];
      TotalOfParts(a, front);
      assert (a + b)[..|a + b| - 1] == a + front;
    }
  }

  lemma TotalOfOne(item: Bytes)
    ensures TotalBytes([item]) == |item| && TotalBytes([]) == 0
  {
    assert [item][..0] == [];
  }

  /** The result of a normalization is the accepted items, all of them, or a refusal for one of three reasons. */
  lemma NormalizedSelects(f: Normalizer, items: seq<Bytes>) returns (at: seq<nat>, r: seq<Bytes>)
    ensures Selects(f, items, at, r)
    ensures Normalized(f, items) ==
      if |items| > 4096 || TotalBytes(r) > 16_777_216 || r == [] then None else Some(r)
  {
    KeptSelects(f, items);
    at, r := AcceptedAt(f, items), Kept(f, items);
  }

  lemma {:induction false} AllSelected(f: Normalizer, items: seq<Bytes>)
    requires forall i | 0 <= i < |items| :: f(items[i]) == Some(items[i])
    ensures Kept(f, items) == items
  {
    if items != [] {
      AllSelected(f, items[..|items| - 1]);
    }
  }

  /** Items that need no normalization are stored exactly as they are, or refused for their number or size. */
  lemma AcceptedIsStored(f: Normalizer, items: seq<Bytes>)
    requires items != [] && forall i | 0 <= i < |items| :: f(items[i]) == Some(items[i])
    ensures Normalized(f, items) == if |items| <= 4096 && TotalBytes(items) <= 16_777_216 then Some(items) else None
  {
    AllSelected(f, items);
  }

  /** Nothing is stored exactly if the list is too long, what is accepted is too large, or no item is accepted. */
  lemma RefusedIff(f: Normalizer, items: seq<Bytes>)
    ensures Normalized(f, items) == None <==>
      || |items| > 4096
      || TotalBytes(Kept(f, items)) > 16_777_216
      || forall i | 0 <= i < |items| :: f(items[i]) == None
  {
    KeptSelects(f, items);
    var at := AcceptedAt(f, items);
    if Kept(f, items) == [] {
      forall i | 0 <= i < |items|
        ensures f(items[i]) == None
      {
        assert i in at <==> f(items[i]).Some?;
      }
    } else {
      assert at[0] in at && f(items[at[0]]).Some?;
    }
  }

  method NormalizeItems(f: Normalizer, items: seq<Bytes>) returns (r: Option<seq<Bytes>>)
    ensures r == Normalized(f, items)
  {
    if |items| > MAX_ITEMS_PER_ENTRY {
      return None;
    }
    var normalized: seq<Bytes> := [];
    var totalBytes := 0;
    for i := 0 to |items|
      invariant normalized == Kept(f, items[..i])
      invariant totalBytes == TotalBytes(normalized) <= MAX_BYTES_PER_ENTRY
    {
      assert items[..i + 1][..i] == items[..i];
      match f(items[i]) {
        case Some(n) =>
          totalBytes := totalBytes + |n|;
          assert (normalized + [n])[..|normalized|] == normalized;
          if totalBytes > MAX_BYTES_PER_ENTRY {
            KeptGrows(f, items, i + 1);
            return None;
          }
          normalized := normalized + [n];
        case None =>
      }
    }
    assert items[..|items|] == items;
    r := if |normalized| > 0 then Some(normalized) else None;
  }

  method ItemsPrefix(prefix: seq<Bytes>, items: seq<Bytes>) returns (r: bool)
    ensures r <==> prefix <= items
  {
    if |prefix| > |items| {
      return false;
    }
    for index := 0 to |prefix|
      invariant prefix[..index] == items[..index]
    {
      if prefix[index] != items[index] {
        return false;
      }
    }
    r := true;
  }
}
