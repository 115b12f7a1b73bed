/** The in-process Kimi replay cache: one content array per key, counted in bytes. */
module KimiLocal {
  import opened Base
  import opened Eviction
  import C = FencedChain
  import N = NonceSupply

  const MAX_ENTRIES: nat := 10240
  const EVICT_BATCH: nat := 128
  const MAX_BYTES_PER_ENTRY: nat := 8 * 1024 * 1024
  const MAX_TOTAL_BYTES: nat := 256 * 1024 * 1024
  const TTL: int := HOUR

  datatype Entry = Entry(content: Bytes, timestamp: int, generation: string, deleted: bool)

  datatype KimiSnapshot = KimiSnapshot(raw: Bytes, generation: string, loaded: bool, found: bool)

  const NO_SNAPSHOT := KimiSnapshot([], "", false, false)

  /** Kimi entries form no chains: every write stands alone, and its generation is its stamp. */
  function CellOf(e: Entry): C.Cell<string> {
    C.Cell(e.generation, "", if e.deleted then [] else [e.content], e.deleted)
  }

  function View(snap: KimiSnapshot): C.Snapshot<string> {
    C.Snapshot(snap.generation, "", [])
  }

  function Times(entries: map<Key, Entry>): (times: map<Key, int>)
    ensures times.Keys == entries.Keys && |times| == |entries|
    ensures forall k | k in entries :: times[k] == entries[k].timestamp
  {
    var times := map k | k in entries :: entries[k].timestamp;
    assert times.Keys == entries.Keys;
    times
  }

  ghost function Cells(entries: map<Key, Entry>): map<Key, C.Cell<string>> {
    map k | k in entries :: CellOf(entries[k])
  }

  ghost function Expired(entries: map<Key, Entry>, now: int): set<Key> {
    set k | k in entries && now - entries[k].timestamp > TTL
  }

  lemma UnexpiredStay(entries: map<Key, Entry>, now: int)
    ensures entries - Expired(entries, now) == map k | k in entries && now - entries[k].timestamp <= TTL :: entries[k]
    ensures |Expired(entries, now)| == |entries| - |entries - Expired(entries, now)|
  {
    DropFacts(entries, Expired(entries, now));
  }

  // ------------------------------------------------------------ byte accounting

  /** The bytes stored under all keys together. */
  ghost function SumBytes(entries: map<Key, Entry>): nat
    decreases |entries|
  {
    if |entries| == 0 then 0
    else
      var k :| k in entries;
      RemoveShrinks(entries, k);
      |entries[k].content| + SumBytes(entries - {k})
  }

  lemma RemoveShrinks(entries: map<Key, Entry>, k: Key)
    requires k in entries
    ensures |entries - {k}| == |entries| - 1
  {
    assert (entries - {k}).Keys == entries.Keys - {k};
  }

  lemma {:induction false} SumWithout(entries: map<Key, Entry>, k: Key)
    requires k in entries
    ensures SumBytes(entries) == |entries[k].content| + SumBytes(entries - {k})
    decreases |entries|
  {
    var j :| j in entries && SumBytes(entries) == |entries[j].content| + SumBytes(entries - {j});
    if j != k {
      RemoveShrinks(entries, j);
      RemoveShrinks(entries, k);
      SumWithout(entries - {j}, k);
      SumWithout(entries - {k}, j);
      DropTwice(entries, {j}, {k});
      DropTwice(entries, {k}, {j});
      assert {j} + {k} == {k} + {j};
    }
  }

  lemma SumAfterPut(entries: map<Key, Entry>, k: Key, e: Entry)
    ensures SumBytes(entries[k := e]) ==
            SumBytes(entries) - (if k in entries then |entries[k].content| else 0) + |e.content|
  {
    SumWithout(entries[k := e], k);
    if k in entries {
      SumWithout(entries, k);
      assert entries[k := e] - {k} == entries - {k};
    } else {
      assert entries[k := e] - {k} == entries;
    }
  }

  lemma DropFacts(entries: map<Key, Entry>, gone: set<Key>)
    requires gone <= entries.Keys
    ensures |entries - gone| == |entries| - |gone|
    ensures Cells(entries - gone) == Cells(entries) - gone
  {
    assert (entries - gone).Keys == entries.Keys - gone;
  }

  // ---------------------------------------------------------------- eviction

  predicate WithinLimits(entries: map<Key, Entry>, totalBytes: int) {
    |entries| <= MAX_ENTRIES && totalBytes <= MAX_TOTAL_BYTES
  }

  /**
   `gone` was removed in whole batches, none strictly newer than a survivor.
   Up to 128 entries go in a single batch, which then empties the cache.
   */
  ghost predicate Evicted(before: map<Key, Entry>, after: map<Key, Entry>, gone: set<Key>) {
    && gone <= before.Keys
    && after == before - gone
    && (forall g, k | g in gone && k in after :: before[g].timestamp <= after[k].timestamp)
    && (gone == {} || |gone| >= EVICT_BATCH || after == map[])
    && (gone != {} && |before| <= EVICT_BATCH ==> after == map[])
  }

  lemma NextBatch(entries: map<Key, Entry>, left: map<Key, Entry>, gone: set<Key>, batch: set<Key>)
    requires Evicted(entries, left, gone) && |left| > 0
    requires OldestFirst(Times(left), batch, EVICT_BATCH)
    ensures Evicted(entries, left - batch, gone + batch)
    ensures |left - batch| < |left| && batch != {}
  {
    DropTwice(entries, gone, batch);
    DropFacts(left, batch);
    assert left.Keys == entries.Keys - gone;
    BatchSize(entries.Keys, gone, left.Keys, batch);
    DropFacts(entries, gone + batch);
    if |entries| <= EVICT_BATCH {
      SubsetOfSameSize(gone + batch, entries.Keys);
    }
  }

  /** Limits did not hold before the last batch, and everything evicted earlier is older than what it chose from. */
  ghost predicate LastBatch(before: map<Key, Entry>, gone: set<Key>, earlier: set<Key>, batch: set<Key>) {
    && gone == earlier + batch && earlier <= before.Keys && |earlier| % EVICT_BATCH == 0
    && (forall g, k | g in earlier && k in before.Keys - earlier :: before[g].timestamp <= before[k].timestamp)
    && OldestFirst(Times(before - earlier), batch, EVICT_BATCH)
    && !WithinLimits(before - earlier, SumBytes(before - earlier))
  }

  /** No batch went that the limits did not call for. */
  ghost predicate Needed(before: map<Key, Entry>, gone: set<Key>) {
    gone == {} || exists earlier, batch :: LastBatch(before, gone, earlier, batch)
  }

  lemma NextIsNeeded(entries: map<Key, Entry>, left: map<Key, Entry>, gone: set<Key>, batch: set<Key>)
    requires Evicted(entries, left, gone) && |gone| % EVICT_BATCH == 0
    requires OldestFirst(Times(left), batch, EVICT_BATCH) && !WithinLimits(left, SumBytes(left))
    ensures Needed(entries, gone + batch)
    ensures |gone + batch| % EVICT_BATCH == 0 || |left - batch| == 0
  {
    assert left.Keys == entries.Keys - gone;
    DropFacts(left, batch);
    WholeBatches(gone, left.Keys, batch);
    assert LastBatch(entries, gone + batch, gone, batch);
  }

  /** `gone` has been evicted from `before`, batch after batch, and all of it was needed. */
  ghost predicate Enforcing(before: map<Key, Entry>, left: map<Key, Entry>, gone: set<Key>) {
    && Evicted(before, left, gone) && Needed(before, gone)
    && (|gone| % EVICT_BATCH == 0 || |left| == 0)
    && (if gone == {} then left == before else !WithinLimits(before, SumBytes(before)))
  }

  lemma NextRound(before: map<Key, Entry>, left: map<Key, Entry>, gone: set<Key>, batch: set<Key>)
    requires Enforcing(before, left, gone) && |left| > 0 && !WithinLimits(left, SumBytes(left))
    requires OldestFirst(Times(left), batch, EVICT_BATCH)
    ensures Enforcing(before, left - batch, gone + batch) && |left - batch| < |left|
  {
    NextBatch(before, left, gone, batch);
    NextIsNeeded(before, left, gone, batch);
  }

  /**
   While the bytes fit, a write that is newer than everything else survives,
   and costs nothing while there is room and the 128 oldest entries otherwise.
   */
  lemma NewWriteSurvives(before: map<Key, Entry>, after: map<Key, Entry>, key: Key, e: Entry, gone: set<Key>)
    requires StoredAs(before, after, key, e, gone)
    requires |before| <= MAX_ENTRIES && SumBytes(before) + |e.content| <= MAX_TOTAL_BYTES
    requires forall k | k in before && k != key :: before[k].timestamp < e.timestamp
    ensures key in after && after[key] == e
    ensures |gone| == if key !in before && |before| == MAX_ENTRIES then EVICT_BATCH else 0
  {
    SizeAfterPut(before, key, e);
    NewestIsKept(before[key := e], gone, key);
  }

  lemma SizeAfterPut(before: map<Key, Entry>, key: Key, e: Entry)
    ensures |before[key := e]| == |before| + if key in before then 0 else 1
    ensures SumBytes(before[key := e]) <= SumBytes(before) + |e.content|
  {
    SumAfterPut(before, key, e);
    assert before[key := e].Keys == before.Keys + {key};
  }

  lemma NewestIsKept(m: map<Key, Entry>, gone: set<Key>, key: Key)
    requires Needed(m, gone) && |m| <= MAX_ENTRIES + 1 && SumBytes(m) <= MAX_TOTAL_BYTES && key in m
    requires gone == {} <==> WithinLimits(m, SumBytes(m))
    requires forall k | k in m && k != key :: m[k].timestamp < m[key].timestamp
    ensures key !in gone && |gone| == if |m| > MAX_ENTRIES then EVICT_BATCH else 0
  {
    if gone != {} {
      OneBatch(m, gone);
      NewestSurvives(Times(m), gone, EVICT_BATCH, key);
    }
  }

  lemma WholeBatches(gone: set<Key>, left: set<Key>, batch: set<Key>)
    requires gone !! left && batch <= left && |batch| == Min(EVICT_BATCH, |left|) && |gone| % EVICT_BATCH == 0
    ensures |gone + batch| % EVICT_BATCH == 0 || |left| - |batch| == 0
  {
    assert |gone + batch| == |gone| + |batch|;
  }

  lemma {:induction false} SumOfRest(entries: map<Key, Entry>, gone: set<Key>)
    requires gone <= entries.Keys
    ensures SumBytes(entries - gone) <= SumBytes(entries)
    decreases |gone|
  {
    if gone == {} {
      assert entries - gone == entries;
    } else {
      var k :| k in gone;
      SumOfRest(entries, gone - {k});
      SumWithout(entries - (gone - {k}), k);
      DropOneMore(entries, gone - {k}, k);
      assert gone - {k} + {k} == gone;
    }
  }

  /** While the bytes fit, an eviction is one batch: the 128 oldest entries and no others. */
  lemma OneBatch(before: map<Key, Entry>, gone: set<Key>)
    requires |before| == MAX_ENTRIES + 1 && SumBytes(before) <= MAX_TOTAL_BYTES && gone != {} && Needed(before, gone)
    ensures OldestFirst(Times(before), gone, EVICT_BATCH) && |gone| == EVICT_BATCH
  {
    var earlier, batch :| LastBatch(before, gone, earlier, batch);
    SumOfRest(before, earlier);
    NothingEarlier(before, earlier);
    OnlyBatch(before, gone, batch);
  }

  lemma OnlyBatch(before: map<Key, Entry>, gone: set<Key>, batch: set<Key>)
    requires LastBatch(before, gone, {}, batch)
    ensures OldestFirst(Times(before), gone, EVICT_BATCH)
  {
    assert before - {} == before && gone == batch;
  }

  lemma NothingEarlier(before: map<Key, Entry>, earlier: set<Key>)
    requires |before| == MAX_ENTRIES + 1 && earlier <= before.Keys && |earlier| % EVICT_BATCH == 0
    requires |before - earlier| > MAX_ENTRIES
    ensures earlier == {}
  {
    DropFacts(before, earlier);
    assert |earlier| == 0;
  }

  /** Without `key` and some entries at most 128 others, and they alone are over the byte limit. */
  ghost predicate Overfull(before: map<Key, Entry>, newest: Key) {
    exists earlier ::
      earlier <= before.Keys - {newest} && |before - earlier| <= EVICT_BATCH && SumBytes(before - earlier) > MAX_TOTAL_BYTES
  }

  /**
   A strictly newest entry goes only if all others do, and only if it and at
   most 127 others are over the byte limit by themselves.
   */
  lemma NewestGoesLast(before: map<Key, Entry>, gone: set<Key>, newest: Key)
    requires newest in gone && Needed(before, gone) && newest in before
    requires forall k | k in before && k != newest :: before[k].timestamp < before[newest].timestamp
    ensures gone == before.Keys && Overfull(before, newest)
  {
    var earlier, batch :| LastBatch(before, gone, earlier, batch);
    NewestIsNotEarlier(before, gone, earlier, batch, newest);
    NewestInLastBatch(before - earlier, batch, newest);
    AllGone(before, gone, earlier, batch);
  }

  lemma AllGone(before: map<Key, Entry>, gone: set<Key>, earlier: set<Key>, batch: set<Key>)
    requires gone == earlier + batch && earlier <= before.Keys && batch == (before - earlier).Keys
    ensures gone == before.Keys
  {
    assert (before - earlier).Keys == before.Keys - earlier;
  }

  lemma NewestIsNotEarlier(before: map<Key, Entry>, gone: set<Key>, earlier: set<Key>, batch: set<Key>, newest: Key)
    requires LastBatch(before, gone, earlier, batch) && newest in before
    requires forall k | k in before && k != newest :: before[k].timestamp < before[newest].timestamp
    ensures newest !in earlier
  {
  }

  lemma NewestInLastBatch(left: map<Key, Entry>, batch: set<Key>, newest: Key)
    requires OldestFirst(Times(left), batch, EVICT_BATCH) && newest in left && newest in batch
    requires forall k | k in left && k != newest :: left[k].timestamp < left[newest].timestamp
    requires !WithinLimits(left, SumBytes(left))
    ensures batch == left.Keys && |left| <= EVICT_BATCH && SumBytes(left) > MAX_TOTAL_BYTES
  {
    if |left| > EVICT_BATCH {
      NewestSurvives(Times(left), batch, EVICT_BATCH, newest);
    }
    SubsetOfSameSize(batch, left.Keys);
  }

  lemma BatchSize(all: set<Key>, gone: set<Key>, left: set<Key>, batch: set<Key>)
    requires gone <= all && left == all - gone && batch <= left && |batch| == Min(EVICT_BATCH, |left|)
    ensures |gone + batch| >= EVICT_BATCH || gone + batch == all
  {
    assert |gone + batch| == |gone| + |batch|;
    if |batch| < EVICT_BATCH {
      SubsetOfSameSize(batch, left);
    }
  }

  lemma SubsetOfSameSize(a: set<Key>, b: set<Key>)
    requires a <= b && |a| == |b|
    ensures a == b
  {
    assert |b - a| == 0;
  }

  ghost predicate IsDrawnWrite(log: seq<C.Write<string>>, i: int, drawn: set<string>) {
    0 <= i < |log| ==> log[i].cell.stamp in drawn && log[i].cell.branch == ""
  }

  /** Generations are drawn nonces that never repeat; tombstones hold no bytes. */
  ghost predicate Sound(entries: map<Key, Entry>, log: seq<C.Write<string>>, drawn: set<string>) {
    && C.Coherent(C.State(Cells(entries), log))
    && (forall i :: IsDrawnWrite(log, i, drawn))
    && (forall k | k in entries && entries[k].deleted :: entries[k].content == [])
  }

  lemma DropKeepsSound(entries: map<Key, Entry>, log: seq<C.Write<string>>, drawn: set<string>, gone: set<Key>)
    requires Sound(entries, log, drawn) && gone <= entries.Keys
    ensures Sound(entries - gone, log, drawn)
    ensures C.State(Cells(entries - gone), log) == C.Drop(C.State(Cells(entries), log), gone)
    ensures C.Leads(C.State(Cells(entries), log), C.State(Cells(entries - gone), log))
  {
    DropFacts(entries, gone);
    C.DropKeepsCoherent(C.State(Cells(entries), log), gone);
    C.DropLeads(C.State(Cells(entries), log), gone);
  }

  /** Writing an entry with a generation just drawn is one step of the protocol. */
  lemma PutKeepsSound(entries: map<Key, Entry>, log: seq<C.Write<string>>, drawn: set<string>, key: Key, e: Entry)
    requires Sound(entries, log, drawn) && e.generation !in drawn && (e.deleted ==> e.content == [])
    ensures Sound(entries[key := e], log + [C.Write(key, CellOf(e))], drawn + {e.generation})
    ensures C.WriteStep(C.State(Cells(entries), log), C.State(Cells(entries[key := e]), log + [C.Write(key, CellOf(e))]),
                        key, CellOf(e))
  {
    var s, t := C.State(Cells(entries), log), C.State(Cells(entries[key := e]), log + [C.Write(key, CellOf(e))]);
    assert t.cells == s.cells[key := CellOf(e)];
    forall i
      ensures IsDrawnWrite(t.log, i, drawn + {e.generation})
      ensures 0 <= i < |log| ==> log[i].cell.stamp != e.generation
    {
      assert IsDrawnWrite(log, i, drawn);
    }
    assert C.WriteStep(s, t, key, CellOf(e));
    C.WriteKeepsCoherent(s, t, key, CellOf(e));
  }

  lemma DrawKeepsSound(entries: map<Key, Entry>, log: seq<C.Write<string>>, drawn: set<string>, g: string)
    requires Sound(entries, log, drawn)
    ensures Sound(entries, log, drawn + {g})
  {
    forall i
      ensures IsDrawnWrite(log, i, drawn + {g})
    {
      assert IsDrawnWrite(log, i, drawn);
    }
  }

  /** `e` was put at `key`, and entries were evicted exactly if, and as far as, the limits called for it. */
  ghost predicate StoredAs(before: map<Key, Entry>, after: map<Key, Entry>, key: Key, e: Entry, gone: set<Key>) {
    var m := before[key := e];
    Evicted(m, after, gone) && Needed(m, gone) && (gone == {} <==> WithinLimits(m, SumBytes(m)))
  }

  /** One write under a new generation, then whatever eviction it triggered: none when both limits still hold. */
  ghost predicate Wrote(before: map<Key, Entry>, after: map<Key, Entry>, s: C.State<string>, t: C.State<string>,
                        drawn: set<string>, key: Key, content: Bytes, deleted: bool, now: int, gone: set<Key>)
  {
    && |t.log| == |s.log| + 1 && s.log <= t.log
    && var c := t.log[|s.log|].cell;
    && var e := Entry(content, now, c.stamp, deleted);
    && c == CellOf(e) && c.stamp !in drawn
    && StoredAs(before, after, key, e, gone)
    && C.WriteStep(s, C.Put(s, key, c), key, c)
    && C.Leads(C.Put(s, key, c), t)
  }

  /**
   What making room for a new entry under `key` costs: nothing while there is
   room, otherwise one batch of oldest entries, the new one among the candidates.
   */
  ghost predicate MakesRoom(before: map<Key, Entry>, key: Key, e: Entry, gone: set<Key>) {
    if |before| < MAX_ENTRIES then gone == {} else OldestFirst(Times(before[key := e]), gone, EVICT_BATCH)
  }

  lemma RoomIsMade(before: map<Key, Entry>, key: Key, e: Entry, gone: set<Key>)
    requires key !in before && e.content == [] && WithinLimits(before, SumBytes(before)) && Needed(before[key := e], gone)
    requires gone == {} <==> WithinLimits(before[key := e], SumBytes(before[key := e]))
    ensures MakesRoom(before, key, e, gone)
  {
    SumAfterPut(before, key, e);
    assert before[key := e].Keys == before.Keys + {key};
    if |before| == MAX_ENTRIES { OneBatch(before[key := e], gone); }
  }

  /** The keys lost, `key` aside, are those that making room for it cost. */
  ghost predicate LostForRoom(before: map<Key, Entry>, key: Key, e: Entry, lost: set<Key>) {
    exists gone :: MakesRoom(before - {key}, key, e, gone) && lost - {key} == gone - {key}
  }

  /** A miss on `key`: some entries lost, then a tombstone under a new generation that `snap` pins. */
  ghost predicate Fenced(before: map<Key, Entry>, after: map<Key, Entry>, drawn: set<string>, key: Key, now: int,
                         snap: KimiSnapshot, lost: set<Key>)
  {
    && snap == KimiSnapshot([], snap.generation, true, true) && snap.generation !in drawn
    && var e := Entry([], now, snap.generation, true);
    && after == (before - lost)[key := e]
    && LostForRoom(before, key, e, lost)
  }

  class KimiCache {
    /** Whether bytes are a JSON array of one to 512 blocks. */
    const isContentArray: Bytes -> bool
    const supply: N.Supply
    var entries: map<Key, Entry>
    var totalBytes: int
    ghost var log: seq<C.Write<string>>

    ghost function Abs(): C.State<string>
      reads this
    {
      C.State(Cells(entries), log)
    }

    ghost predicate Consistent()
      reads this, supply
    {
      totalBytes == SumBytes(entries) && Sound(entries, log, supply.drawn)
    }

    ghost predicate Valid()
      reads this, supply
    {
      Consistent() && WithinLimits(entries, totalBytes)
    }

    predicate ValidContent(content: Bytes) {
      0 < |content| <= MAX_BYTES_PER_ENTRY && isContentArray(content)
    }

    constructor (isContentArray: Bytes -> bool, supply: N.Supply)
      ensures Valid() && entries == map[] && totalBytes == 0 && log == []
      ensures this.isContentArray == isContentArray && this.supply == supply
    {
      this.isContentArray := isContentArray;
      this.supply := supply;
      entries := map[];
      totalBytes := 0;
      log := [];
    }

    method RemoveEntry(key: Key)
      requires key in entries && totalBytes == SumBytes(entries)
      modifies this`entries, this`totalBytes
      ensures totalBytes == SumBytes(entries) && entries == old(entries) - {key}
      ensures totalBytes <= old(totalBytes) && |entries| == |old(entries)| - 1
    {
      SumWithout(entries, key);
      RemoveShrinks(entries, key);
      totalBytes := totalBytes - |entries[key].content|;
      entries := entries - {key};
    }

    method EvictOldest(count: nat) returns (ghost gone: set<Key>)
      requires totalBytes == SumBytes(entries)
      modifies this`entries, this`totalBytes
      ensures totalBytes == SumBytes(entries)
      ensures OldestFirst(Times(old(entries)), gone, count)
      ensures entries == old(entries) - gone
    {
      var victims := OldestKeys(Times(entries), count);
      gone := KeySet(victims);
      for i := 0 to |victims|
        invariant totalBytes == SumBytes(entries)
        invariant entries == old(entries) - KeySet(victims[..i])
      {
        NextVictim(old(entries), victims, i);
        RemoveEntry(victims[i]);
      }
      TakeAll(victims);
    }

    /** Evicts batch after batch until both limits hold. */
    method EnforceLimits() returns (ghost gone: set<Key>)
      requires totalBytes == SumBytes(entries)
      modifies this`entries, this`totalBytes
      ensures totalBytes == SumBytes(entries) && WithinLimits(entries, totalBytes)
      ensures Evicted(old(entries), entries, gone)
      ensures gone == {} <==> WithinLimits(old(entries), old(totalBytes))
      ensures Needed(old(entries), gone)
    {
      gone := {};
      while |entries| > MAX_ENTRIES || totalBytes > MAX_TOTAL_BYTES
        invariant totalBytes == SumBytes(entries)
        invariant Enforcing(old(entries), entries, gone)
        decreases |entries|
      {
        if |entries| == 0 {
          // The reset of the total for an empty map is unreachable.
          assert false;
        }
        ghost var before := entries;
        var batch := EvictOldest(EVICT_BATCH);
        NextRound(old(entries), before, gone, batch);
        gone := gone + batch;
      }
    }

    /** One write with a generation drawn for it, then enforcement of both limits. */
    method Store(key: Key, content: Bytes, now: int, deleted: bool) returns (ghost gone: set<Key>)
      requires Valid() && (deleted ==> content == [])
      modifies this`entries, this`totalBytes, this`log, supply
      ensures Valid() && C.Leads(old(Abs()), Abs())
      ensures Wrote(old(entries), entries, old(Abs()), Abs(), old(supply.drawn), key, content, deleted, now, gone)
    {
      var generation := supply.Draw();
      var e := Entry(content, now, generation, deleted);
      PutEntry(key, e);
      PutKeepsSound(old(entries), log, old(supply.drawn), key, e);
      log := log + [C.Write(key, CellOf(e))];
      ghost var mid: map<Key, Entry> := entries;
      gone := EnforceLimits();
      DropKeepsSound(mid, log, supply.drawn, gone);
      assert Cells(mid) == Cells(old(entries))[key := CellOf(e)];
      WriteThenEvict(old(Abs()), Abs(), key, CellOf(e));
    }

    method PutEntry(key: Key, e: Entry)
      requires totalBytes == SumBytes(entries)
      modifies this`entries, this`totalBytes
      ensures totalBytes == SumBytes(entries) && entries == old(entries)[key := e]
      ensures totalBytes <= old(totalBytes) + |e.content|
    {
      SumAfterPut(entries, key, e);
      if key in entries {
        totalBytes := totalBytes - |entries[key].content|;
      }
      totalBytes := totalBytes + |e.content|;
      entries := entries[key := e];
    }

    method Cache(key: Key, content: Bytes, now: int) returns (ok: bool, ghost gone: set<Key>)
      requires Valid()
      modifies this`entries, this`totalBytes, this`log, supply
      ensures Valid() && C.Leads(old(Abs()), Abs())
      ensures ok <==> key != "" && 0 < |content| <= MAX_BYTES_PER_ENTRY && isContentArray(content)
      ensures !ok ==> entries == old(entries) && totalBytes == old(totalBytes) && log == old(log)
      ensures ok ==> Wrote(old(entries), entries, old(Abs()), Abs(), old(supply.drawn), key, content, false, now, gone)
    {
      gone := {};
      C.LeadsRefl(Abs());
      if key == "" || !ValidContent(content) {
        return false, {};
      }
      gone := Store(key, content, now, false);
      ok := true;
    }

    /** Puts a tombstone at an absent key and enforces the limits, which may evict the tombstone again. */
    method Reserve(key: Key, now: int) returns (entry: Entry, ghost gone: set<Key>)
      requires totalBytes == SumBytes(entries) && WithinLimits(entries, totalBytes) && key !in entries
      modifies this`entries, this`totalBytes, supply
      ensures totalBytes == SumBytes(entries) && WithinLimits(entries, totalBytes)
      ensures entry == Entry([], now, entry.generation, true) && entry.generation !in old(supply.drawn)
      ensures supply.drawn == old(supply.drawn) + {entry.generation}
      ensures Evicted(old(entries)[key := entry], entries, gone) && MakesRoom(old(entries), key, entry, gone)
    {
      var generation := supply.Draw();
      entry := Entry([], now, generation, true);
      SumAfterPut(entries, key, entry);
      entries := entries[key := entry];
      gone := EnforceLimits();
      RoomIsMade(old(entries), key, entry, gone);
    }

    /**
     Reads `key`. A live entry within its lifetime is a hit and only its
     timestamp moves; anything else is fenced by a tombstone under a new
     generation, which is in place when the call returns.
     */
    method GetWithSnapshot(key: Key, now: int) returns (content: Option<Bytes>, snap: KimiSnapshot, ghost lost: set<Key>)
      requires Valid()
      modifies this`entries, this`totalBytes, this`log, supply
      ensures Valid() && C.Leads(old(Abs()), Abs())
      ensures key == "" ==>
        entries == old(entries) && totalBytes == old(totalBytes) && log == old(log) && content == None && snap == NO_SNAPSHOT
      ensures key != "" ==>
        && key in entries && snap == KimiSnapshot([], entries[key].generation, true, true)
        && C.Issued(Abs(), key, View(snap)) && C.Same(Abs(), key, View(snap))
        && content == (if entries[key].deleted then None else Some(entries[key].content))
      ensures key != "" && key in old(entries) && now - old(entries)[key].timestamp <= TTL ==>
        && totalBytes == old(totalBytes) && Abs() == old(Abs())
        && entries == old(entries)[key := old(entries)[key].(timestamp := now)]
      ensures key != "" && !(key in old(entries) && now - old(entries)[key].timestamp <= TTL) ==>
        content == None && Fenced(old(entries), entries, old(supply.drawn), key, now, snap, lost)
    {
      lost := {};
      C.LeadsRefl(Abs());
      if key == "" {
        return None, NO_SNAPSHOT, {};
      }
      if key !in entries || now - entries[key].timestamp > TTL {
        snap, lost := Fence(key, now);
        return None, snap, lost;
      }
      content, snap := Refresh(key, now);
    }

    method Refresh(key: Key, now: int) returns (content: Option<Bytes>, snap: KimiSnapshot)
      requires Valid() && key in entries
      modifies this`entries
      ensures Valid() && Abs() == old(Abs())
      ensures entries == old(entries)[key := old(entries)[key].(timestamp := now)]
      ensures snap == KimiSnapshot([], entries[key].generation, true, true)
      ensures C.Issued(Abs(), key, View(snap))
      ensures content == if entries[key].deleted then None else Some(entries[key].content)
    {
      var entry := entries[key].(timestamp := now);
      SumAfterPut(entries, key, entry);
      entries := entries[key := entry];
      assert entries.Keys == old(entries).Keys;
      assert Cells(entries) == Cells(old(entries));
      snap := KimiSnapshot([], entry.generation, true, true);
      content := if entry.deleted then None else Some(entry.content);
      HeldIsIssued(Abs(), key);
    }

    method Fence(key: Key, now: int) returns (snap: KimiSnapshot, ghost lost: set<Key>)
      requires Valid()
      modifies this`entries, this`totalBytes, this`log, supply
      ensures Valid() && C.Leads(old(Abs()), Abs())
      ensures Fenced(old(entries), entries, old(supply.drawn), key, now, snap, lost)
      ensures C.Issued(Abs(), key, View(snap))
    {
      var entry;
      entry, lost := ReplaceByTombstone(key, now);
      FenceKeepsSound(old(entries), log, old(supply.drawn), lost, key, entry);
      log := log + [C.Write(key, CellOf(entry))];
      snap := KimiSnapshot([], entry.generation, true, true);
      assert C.IssuedAt(Abs(), key, View(snap), |old(log)|);
    }

    method ReplaceByTombstone(key: Key, now: int) returns (entry: Entry, ghost lost: set<Key>)
      requires totalBytes == SumBytes(entries) && WithinLimits(entries, totalBytes)
      modifies this`entries, this`totalBytes, supply
      ensures totalBytes == SumBytes(entries) && WithinLimits(entries, totalBytes)
      ensures entry == Entry([], now, entry.generation, true) && entry.generation !in old(supply.drawn)
      ensures supply.drawn == old(supply.drawn) + {entry.generation}
      ensures lost <= old(entries).Keys && entries == (old(entries) - lost)[key := entry]
      ensures LostForRoom(old(entries), key, entry, lost)
    {
      if key in entries {
        RemoveEntry(key);
      }
      assert entries == old(entries) - {key};
      ghost var gone, after;
      entry, gone, after := ReserveAndKeep(key, now);
      lost := LostKeys(old(entries), after, key);
      FencedEntries(old(entries), after, key, entry, gone);
      LossIsRoom(old(entries), after, key, entry, gone);
    }

    /** The caller stores the reserved entry once more, in case enforcement evicted it. */
    method ReserveAndKeep(key: Key, now: int) returns (entry: Entry, ghost gone: set<Key>, ghost after: map<Key, Entry>)
      requires totalBytes == SumBytes(entries) && WithinLimits(entries, totalBytes) && key !in entries
      modifies this`entries, this`totalBytes, supply
      ensures totalBytes == SumBytes(entries) && WithinLimits(entries, totalBytes)
      ensures entry == Entry([], now, entry.generation, true) && entry.generation !in old(supply.drawn)
      ensures supply.drawn == old(supply.drawn) + {entry.generation}
      ensures Evicted(old(entries)[key := entry], after, gone) && entries == after[key := entry]
      ensures MakesRoom(old(entries), key, entry, gone)
    {
      ghost var before := entries;
      entry, gone := Reserve(key, now);
      after := entries;
      SumAfterPut(entries, key, entry);
      FencedSize(before, entries, key, entry, gone);
      entries := entries[key := entry];
    }

    /** Stores completed content only if the key still carries the generation this request read. */
    method ReplaceIfUnchanged(key: Key, snapshot: KimiSnapshot, content: Bytes, now: int) returns (ok: bool, ghost gone: set<Key>)
      requires Valid()
      modifies this`entries, this`totalBytes, this`log, supply
      ensures Valid() && C.Leads(old(Abs()), Abs())
      ensures !ok ==> entries == old(entries) && totalBytes == old(totalBytes) && log == old(log)
      ensures ok <==>
        && key != "" && 0 < |content| <= MAX_BYTES_PER_ENTRY && isContentArray(content)
        && (snapshot.loaded ==>
              if key in old(entries) then snapshot.found && snapshot.generation == old(entries)[key].generation
              else !snapshot.found)
      ensures ok ==> Wrote(old(entries), entries, old(Abs()), Abs(), old(supply.drawn), key, content, false, now, gone)
      ensures ok && snapshot.loaded && snapshot.found ==> C.Committed(old(Abs()), Abs(), key, View(snapshot))
    {
      gone := {};
      C.LeadsRefl(Abs());
      if key == "" || !ValidContent(content) {
        return false, {};
      }
      if !snapshot.loaded {
        ok, gone := Cache(key, content, now);
        return ok, gone;
      }
      var found := key in entries;
      if found != snapshot.found || (found && entries[key].generation != snapshot.generation) {
        return false, {};
      }
      gone := Store(key, content, now, false);
      ok := true;
      ghost var c: C.Cell<string> := log[|old(log)|].cell;
      if snapshot.found {
        C.CommittedBy(old(Abs()), old(Abs()), C.Put(old(Abs()), key, c), Abs(), key, View(snapshot), c);
      }
    }

    /**
     Clears the entry only if it still carries the generation this request
     read. No limit is enforced: a tombstone at an absent key of a full cache
     is the one way to exceed it, and a snapshot of an absent key is never
     handed out.
     */
    method DeleteIfUnchanged(key: Key, snapshot: KimiSnapshot, now: int) returns (ok: bool)
      requires Valid()
      modifies this`entries, this`totalBytes, this`log, supply
      ensures Consistent() && C.Leads(old(Abs()), Abs())
      ensures totalBytes <= MAX_TOTAL_BYTES
      ensures Valid() <==> !(ok && snapshot.loaded && !snapshot.found && |old(entries)| == MAX_ENTRIES)
      ensures !ok ==> entries == old(entries) && totalBytes == old(totalBytes) && log == old(log)
      ensures ok <==>
        && key != ""
        && (snapshot.loaded ==>
              if key in old(entries) then snapshot.found && snapshot.generation == old(entries)[key].generation
              else !snapshot.found)
      ensures ok && !snapshot.loaded ==> entries == old(entries) - {key} && log == old(log)
      ensures ok && snapshot.loaded ==>
        && key in entries && entries[key].generation !in old(supply.drawn)
        && entries == old(entries)[key := Entry([], now, entries[key].generation, true)]
      ensures ok && snapshot.loaded && snapshot.found ==> C.Committed(old(Abs()), Abs(), key, View(snapshot))
    {
      C.LeadsRefl(Abs());
      if key == "" {
        return false;
      }
      if !snapshot.loaded {
        Delete(key);
        return true;
      }
      var found := key in entries;
      if found != snapshot.found || (found && entries[key].generation != snapshot.generation) {
        return false;
      }
      PutTombstone(key, now);
      ok := true;
      ghost var c: C.Cell<string> := log[|old(log)|].cell;
      if snapshot.found {
        C.LeadsRefl(old(Abs()));
        C.LeadsRefl(Abs());
        C.CommittedBy(old(Abs()), old(Abs()), Abs(), Abs(), key, View(snapshot), c);
      }
    }

    method PutTombstone(key: Key, now: int)
      requires Valid()
      modifies this`entries, this`totalBytes, this`log, supply
      ensures Consistent() && C.Leads(old(Abs()), Abs())
      ensures totalBytes <= MAX_TOTAL_BYTES
      ensures |entries| == |old(entries)| + if key in old(entries) then 0 else 1
      ensures key in entries && entries[key].generation !in old(supply.drawn)
      ensures entries == old(entries)[key := Entry([], now, entries[key].generation, true)]
      ensures |log| == |old(log)| + 1 && C.WriteStep(old(Abs()), Abs(), key, log[|old(log)|].cell)
    {
      var generation := supply.Draw();
      var e := Entry([], now, generation, true);
      PutEntry(key, e);
      PutKeepsSound(old(entries), log, old(supply.drawn), key, e);
      log := log + [C.Write(key, CellOf(e))];
      assert entries.Keys == old(entries).Keys + {key};
      assert Abs() == C.Put(old(Abs()), key, CellOf(e)) by {
        assert Cells(entries) == Cells(old(entries))[key := CellOf(e)];
      }
      C.LeadsRefl(Abs());
      WriteThenEvict(old(Abs()), Abs(), key, CellOf(e));
    }

    /** Unlike the other deletions, this one leaves no tombstone. */
    method Delete(key: Key)
      requires Valid()
      modifies this`entries, this`totalBytes
      ensures Valid() && C.Leads(old(Abs()), Abs())
      ensures entries == if key == "" then old(entries) else old(entries) - {key}
    {
      C.LeadsRefl(Abs());
      if key != "" && key in entries {
        RemoveEntry(key);
        DropKeepsSound(old(entries), log, supply.drawn, {key});
      } else {
        assert key != "" ==> entries == entries - {key};
      }
    }

    method Clear()
      requires Valid()
      modifies this`entries, this`totalBytes
      ensures Valid() && C.Leads(old(Abs()), Abs())
      ensures entries == map[] && totalBytes == 0
    {
      entries := map[];
      totalBytes := 0;
      DropKeepsSound(old(entries), log, supply.drawn, old(entries).Keys);
      assert old(entries) - old(entries).Keys == map[];
    }

    /** Removes exactly the entries past their lifetime. */
    method PurgeExpired(now: int)
      requires Valid()
      modifies this`entries, this`totalBytes
      ensures Valid() && C.Leads(old(Abs()), Abs())
      ensures entries == map k | k in old(entries) && now - old(entries)[k].timestamp <= TTL :: old(entries)[k]
    {
      ghost var expired := Expired(entries, now);
      var rest := entries.Keys;
      SweepEnds(entries, expired);
      while rest != {}
        invariant rest <= old(entries).Keys
        invariant totalBytes == SumBytes(entries) && totalBytes <= old(totalBytes)
        invariant entries == old(entries) - (expired - rest)
        decreases rest
      {
        var k :| k in rest;
        SweepStep(old(entries), expired, rest, k);
        if now - entries[k].timestamp > TTL {
          RemoveEntry(k);
        }
        rest := rest - {k};
      }
      DropKeepsSound(old(entries), log, supply.drawn, expired);
      DropFacts(old(entries), expired);
      UnexpiredStay(old(entries), now);
    }
  }

  /** The keys a miss lost: every old one that did not survive, and `key` itself. */
  ghost function LostKeys(before: map<Key, Entry>, after: map<Key, Entry>, key: Key): set<Key> {
    before.Keys - (after - {key}).Keys
  }

  lemma FencedEntries(before: map<Key, Entry>, after: map<Key, Entry>, key: Key, e: Entry, gone: set<Key>)
    requires Evicted((before - {key})[key := e], after, gone)
    ensures after[key := e] == (before - LostKeys(before, after, key))[key := e]
  {
    var left, rest := (before - {key})[key := e], after - {key};
    assert forall k | k in rest :: k in left && k != key && left[k] == before[k] && rest[k] == left[k];
    SubmapIsDrop(before, rest);
    PutForgets(after, key, e);
  }

  lemma LostAreGone(before: map<Key, Entry>, after: map<Key, Entry>, key: Key, e: Entry, gone: set<Key>)
    requires after == (before - {key})[key := e] - gone
    requires gone <= before.Keys + {key}
    ensures LostKeys(before, after, key) - {key} == gone - {key}
  {
  }

  lemma LossIsRoom(before: map<Key, Entry>, after: map<Key, Entry>, key: Key, e: Entry, gone: set<Key>)
    requires Evicted((before - {key})[key := e], after, gone) && MakesRoom(before - {key}, key, e, gone)
    ensures LostForRoom(before, key, e, LostKeys(before, after, key))
  {
    assert gone <= before.Keys + {key};
    LostAreGone(before, after, key, e, gone);
  }

  /** Re-inserting the tombstone cannot exceed the limit: losing it meant a whole batch went. */
  lemma FencedSize(before: map<Key, Entry>, after: map<Key, Entry>, key: Key, e: Entry, gone: set<Key>)
    requires key !in before && Evicted(before[key := e], after, gone)
    requires |after| <= MAX_ENTRIES && |before| <= MAX_ENTRIES
    ensures |after[key := e]| <= MAX_ENTRIES
  {
    assert after[key := e].Keys == after.Keys + {key};
    if key !in after {
      assert before[key := e].Keys == before.Keys + {key};
      DropFacts(before[key := e], gone);
      assert key in gone;
    }
  }

  lemma FenceKeepsSound(entries: map<Key, Entry>, log: seq<C.Write<string>>, drawn: set<string>, lost: set<Key>, key: Key, e: Entry)
    requires Sound(entries, log, drawn) && lost <= entries.Keys && e.generation !in drawn && e.deleted && e.content == []
    ensures var after := (entries - lost)[key := e];
      var later := log + [C.Write(key, CellOf(e))];
      Sound(after, later, drawn + {e.generation})
      && C.Leads(C.State(Cells(entries), log), C.State(Cells(after), later))
  {
    DropKeepsSound(entries, log, drawn, lost);
    PutKeepsSound(entries - lost, log, drawn, key, e);
    C.LeadsStep(C.State(Cells(entries), log), C.State(Cells(entries - lost), log),
                C.State(Cells((entries - lost)[key := e]), log + [C.Write(key, CellOf(e))]));
  }

  lemma HeldIsIssued(s: C.State<string>, key: Key)
    requires C.Coherent(s) && key in s.cells && s.cells[key].branch == ""
    ensures C.Issued(s, key, C.Snapshot(s.cells[key].stamp, "", []))
  {
    assert C.IsLastWrite(s, key);
    var i :| C.LatestAt(s, key, i);
    assert C.IssuedAt(s, key, C.Snapshot(s.cells[key].stamp, "", []), i);
  }

  lemma WriteThenEvict(s: C.State<string>, t: C.State<string>, key: Key, c: C.Cell<string>)
    requires C.WriteStep(s, C.Put(s, key, c), key, c) && C.Leads(C.Put(s, key, c), t)
    ensures C.Leads(s, t)
  {
    C.LeadsRefl(s);
    C.LeadsStep(s, s, C.Put(s, key, c));
    C.LeadsTransitive(s, C.Put(s, key, c), t);
  }

  lemma VictimIsLeft(victims: seq<Key>, i: nat)
    requires i < |victims| && forall a, b | 0 <= a < b < |victims| :: victims[a] != victims[b]
    ensures victims[i] !in KeySet(victims[..i])
  {
  }

  lemma NextVictim(entries: map<Key, Entry>, victims: seq<Key>, i: nat)
    requires i < |victims| && forall a, b | 0 <= a < b < |victims| :: victims[a] != victims[b]
    requires KeySet(victims) <= entries.Keys
    ensures var left := entries - KeySet(victims[..i]);
      victims[i] in left && left - {victims[i]} == entries - KeySet(victims[..i + 1])
  {
    VictimIsLeft(victims, i);
    KeySetStep(victims, i);
    DropOneMore(entries, KeySet(victims[..i]), victims[i]);
  }
}
