/** The in-process Antigravity replay cache: a mutex-guarded map, one method per locked operation. */
module AntigravityLocal {
  import opened Base
  import opened ReplayItems
  import opened Eviction
  import C = FencedChain
  import N = NonceSupply

  const MAX_ENTRIES: nat := 10240
  const EVICT_BATCH: nat := 128

  datatype Entry = Entry(items: seq<Bytes>, timestamp: int, revision: nat, branch: string, deleted: bool)

  function CellOf(e: Entry): C.Cell<nat> {
    C.Cell(e.revision, e.branch, e.items, e.deleted)
  }

  function Times(entries: map<Key, Entry>): (times: map<Key, int>)
    ensures times.Keys == entries.Keys && |times| == |entries|
    ensures forall k | k in entries :: times[k] == entries[k].timestamp
  {
    var times := map k | k in entries :: entries[k].timestamp;
    assert times.Keys == entries.Keys;
    times
  }

  ghost function Cells(entries: map<Key, Entry>): map<Key, C.Cell<nat>> {
    map k | k in entries :: CellOf(entries[k])
  }

  ghost predicate IsNthWrite(log: seq<C.Write<nat>>, i: int, drawn: set<string>) {
    0 <= i < |log| ==> log[i].cell.stamp == i + 1 && log[i].cell.branch in drawn && log[i].cell.branch != ""
  }

  /** Revision r is the r-th write of the log, and every branch is a drawn nonce. */
  ghost predicate Sound(s: C.State<nat>, nextRevision: nat, drawn: set<string>) {
    && C.Coherent(s)
    && |s.log| == nextRevision
    && (forall i :: IsNthWrite(s.log, i, drawn))
  }

  lemma DropCells(entries: map<Key, Entry>, gone: set<Key>)
    requires gone <= entries.Keys
    ensures |entries - gone| == |entries| - |gone|
    ensures Cells(entries - gone) == Cells(entries) - gone
  {
    assert (entries - gone).Keys == entries.Keys - gone;
  }

  lemma DropKeepsSound(s: C.State<nat>, gone: set<Key>, nextRevision: nat, drawn: set<string>)
    requires Sound(s, nextRevision, drawn)
    ensures Sound(C.Drop(s, gone), nextRevision, drawn)
  {
    C.DropKeepsCoherent(s, gone);
  }

  lemma DrawKeepsSound(s: C.State<nat>, nextRevision: nat, drawn: set<string>, g: string)
    requires Sound(s, nextRevision, drawn) && g !in drawn
    ensures Sound(s, nextRevision, drawn + {g})
    ensures C.UnusedBranch(s.log, g) && C.UnusedStamp(s.log, nextRevision + 1)
  {
    forall i
      ensures IsNthWrite(s.log, i, drawn + {g})
      ensures 0 <= i < |s.log| ==> s.log[i].cell.branch != g && s.log[i].cell.stamp != nextRevision + 1
    {
      assert IsNthWrite(s.log, i, drawn);
    }
  }

  lemma WriteKeepsSound(s: C.State<nat>, k: Key, c: C.Cell<nat>, drawn: set<string>)
    requires c.stamp > 0 && Sound(s, c.stamp - 1, drawn) && c.branch in drawn && c.branch != ""
    requires C.Starts(s, c) || C.Continues(s, k, c)
    ensures Sound(C.Put(s, k, c), c.stamp, drawn)
  {
    C.WriteKeepsCoherent(s, C.Put(s, k, c), k, c);
    forall i
      ensures IsNthWrite(C.Put(s, k, c).log, i, drawn)
    {
      assert IsNthWrite(s.log, i, drawn);
    }
  }

  /** The part of a snapshot the protocol looks at: locally the stamp is the revision. */
  function View(snap: ReplaySnapshot): C.Snapshot<nat> {
    C.Snapshot(snap.revision, snap.branch, snap.items)
  }

  /** Trimming after a write: nothing below the limit, one batch of oldest entries above it. */
  ghost predicate Trims(entries: map<Key, Entry>, gone: set<Key>) {
    if |entries| > MAX_ENTRIES then OldestFirst(Times(entries), gone, EVICT_BATCH) else gone == {}
  }

  /** The effect of a write of `e` at `key` on the map, including the eviction it triggers. */
  ghost predicate Stored(before: map<Key, Entry>, after: map<Key, Entry>, key: Key, e: Entry, gone: set<Key>) {
    && Trims(before[key := e], gone)
    && after == before[key := e] - gone
    && |after| <= MAX_ENTRIES
    && ((forall k | k in before && k != key :: before[k].timestamp < e.timestamp) ==> key in after)
  }

  lemma TrimmedIsStored(before: map<Key, Entry>, key: Key, e: Entry, gone: set<Key>)
    requires Trims(before[key := e], gone) && |before[key := e] - gone| <= MAX_ENTRIES
    ensures Stored(before, before[key := e] - gone, key, e, gone)
  {
    var m := before[key := e];
    if |m| > MAX_ENTRIES && forall k | k in before && k != key :: before[k].timestamp < e.timestamp {
      NewestSurvives(Times(m), gone, EVICT_BATCH, key);
    }
  }

  /** An unconditional write: a new stamp, a new branch, then trimming. */
  ghost predicate Overwrites(before: map<Key, Entry>, after: map<Key, Entry>, s: C.State<nat>, t: C.State<nat>,
                             key: Key, items: seq<Bytes>, deleted: bool, now: int, gone: set<Key>)
  {
    && |t.log| > 0
    && var c := t.log[|t.log| - 1].cell;
    && c.items == items && c.deleted == deleted
    && C.Starts(s, c) && c.branch != ""
    && t == C.Drop(C.Put(s, key, c), gone)
    && Stored(before, after, key, Entry(items, now, c.stamp, c.branch, deleted), gone)
  }

  /** A committed publish: one admissible write by the protocol's rule, then trimming. */
  ghost predicate Publishes(before: map<Key, Entry>, after: map<Key, Entry>, s: C.State<nat>, t: C.State<nat>,
                            key: Key, snap: ReplaySnapshot, items: seq<Bytes>, now: int, gone: set<Key>)
  {
    && |t.log| > 0
    && var c := t.log[|t.log| - 1].cell;
    && C.PublishStep(s, C.Put(s, key, c), key, View(snap), items, c)
    && t == C.Drop(C.Put(s, key, c), gone)
    && Stored(before, after, key, Entry(items, now, c.stamp, c.branch, false), gone)
  }

  lemma PublishIsLegal(s: C.State<nat>, k0: Key, key: Key, snap: ReplaySnapshot, items: seq<Bytes>, branch: string,
                       revision: nat, drawn: set<string>)
    requires Sound(s, revision, drawn) && C.Issued(s, k0, View(snap)) && C.Admits(s, key, View(snap), items)
    requires if snap.branch != "" && snap.items <= items then branch == snap.branch else C.UnusedBranch(s.log, branch)
    ensures var c := C.Cell(revision + 1, branch, items, false);
      && C.PublishStep(s, C.Put(s, key, c), key, View(snap), items, c)
      && (C.Starts(s, c) || C.Continues(s, key, c))
    ensures branch == snap.branch != "" ==> branch in drawn
  {
    forall i | 0 <= i < |s.log|
      ensures s.log[i].cell.stamp != revision + 1 && s.log[i].cell.branch in drawn
    {
      assert IsNthWrite(s.log, i, drawn);
    }
    var c: C.Cell<nat> := C.Cell(revision + 1, branch, items, false);
    C.PublishIsNext(s, C.Put(s, key, c), k0, key, View(snap), items, c);
  }

  ghost function Expired(entries: map<Key, Entry>, now: int): set<Key> {
    set k | k in entries && now - entries[k].timestamp > REPLAY_TTL
  }

  lemma UnexpiredStay(entries: map<Key, Entry>, now: int)
    ensures entries - Expired(entries, now) == map k | k in entries && now - entries[k].timestamp <= REPLAY_TTL :: entries[k]
    ensures |Expired(entries, now)| == |entries| - |entries - Expired(entries, now)|
  {
    DropCells(entries, Expired(entries, now));
  }

  /** A miss on `key`: some keys dropped, then a tombstone on a new branch, pinned by `snap`. */
  ghost predicate Fenced(s: C.State<nat>, t: C.State<nat>, key: Key, gone: set<Key>, snap: ReplaySnapshot) {
    var c := C.Cell(snap.revision, snap.branch, [], true);
    && C.Starts(C.Drop(s, gone), c) && c.branch != ""
    && key !in C.Drop(s, gone).cells
    && t == C.Put(C.Drop(s, gone), key, c)
    && snap.loaded && snap.found && snap.items == []
  }

  /** The keys a miss drops: the expired entry itself, or nothing, or one batch of oldest entries if the cache is full. */
  ghost predicate MissCosts(before: map<Key, Entry>, key: Key, gone: set<Key>) {
    if key in before then gone == {key}
    else if |before| < MAX_ENTRIES then gone == {}
    else OldestFirst(Times(before), gone, EVICT_BATCH)
  }

  lemma FencedOver(s: C.State<nat>, t: C.State<nat>, key: Key, snap: ReplaySnapshot)
    requires Fenced(C.Drop(s, {key}), t, key, {}, snap)
    ensures Fenced(s, t, key, {key}, snap)
  {
    assert s.cells - {key} - {} == s.cells - {key};
  }

  lemma DropNothing(entries: map<Key, Entry>)
    ensures entries - {} == entries
  {
  }

  lemma FencedIsIssued(s: C.State<nat>, t: C.State<nat>, key: Key, gone: set<Key>, snap: ReplaySnapshot)
    requires Fenced(s, t, key, gone, snap)
    ensures C.Leads(s, t) && C.Issued(t, key, View(snap)) && C.Same(t, key, View(snap))
  {
    C.DropThenPut(s, gone, key, C.Cell(snap.revision, snap.branch, [], true));
    assert C.IssuedAt(t, key, View(snap), |t.log| - 1);
  }

  lemma HeldIsIssued(s: C.State<nat>, key: Key, snap: C.Snapshot<nat>)
    requires C.Coherent(s) && key in s.cells
    requires snap == C.Snapshot(s.cells[key].stamp, s.cells[key].branch, s.cells[key].items)
    ensures C.Issued(s, key, snap)
  {
    assert C.IsLastWrite(s, key);
    var i :| C.LatestAt(s, key, i);
    assert C.IssuedAt(s, key, snap, i);
  }

  lemma TombstoneIsEmpty(s: C.State<nat>, key: Key)
    requires C.Coherent(s) && key in s.cells
    ensures s.cells[key].deleted ==> s.cells[key].items == []
  {
    assert C.IsLastWrite(s, key);
    var i :| C.LatestAt(s, key, i);
    assert C.TombstoneIsEmpty(s.log, i);
  }

  class ReplayCache {
    const normalizer: Normalizer
    const supply: N.Supply
    var entries: map<Key, Entry>
    var nextRevision: nat
    var evictionEpoch: nat
    ghost var log: seq<C.Write<nat>>

    ghost function Abs(): C.State<nat>
      reads this
    {
      C.State(Cells(entries), log)
    }

    ghost predicate Consistent()
      reads this, supply
    {
      Sound(Abs(), nextRevision, supply.drawn)
    }

    ghost predicate Valid()
      reads this, supply
    {
      Consistent() && |entries| <= MAX_ENTRIES
    }

    /** The snapshot comes from some earlier read of this cache. */
    ghost predicate WasIssued(snap: ReplaySnapshot)
      reads this
    {
      snap.found && exists k0 :: C.Issued(Abs(), k0, View(snap))
    }

    constructor (normalizer: Normalizer, supply: N.Supply)
      ensures Valid() && entries == map[] && log == []
      ensures this.supply == supply && this.normalizer == normalizer
    {
      this.normalizer := normalizer;
      this.supply := supply;
      entries := map[];
      nextRevision := 0;
      evictionEpoch := 0;
      log := [];
    }

    method EvictOldest(count: nat) returns (ghost gone: set<Key>)
      modifies this`entries, this`evictionEpoch
      ensures OldestFirst(Times(old(entries)), gone, count)
      ensures entries == old(entries) - gone && |entries| == |old(entries)| - |gone|
      ensures evictionEpoch == old(evictionEpoch) + |gone|
      ensures Abs() == C.Drop(old(Abs()), gone)
    {
      ghost var was := entries;
      var victims := OldestKeys(Times(entries), count);
      gone := KeySet(victims);
      RemoveAll(victims);
      DropCells(was, gone);
    }

    method RemoveAll(victims: seq<Key>)
      modifies this`entries, this`evictionEpoch
      ensures entries == old(entries) - KeySet(victims) && evictionEpoch == old(evictionEpoch) + |victims|
    {
      for i := 0 to |victims|
        invariant entries == old(entries) - KeySet(victims[..i]) && evictionEpoch == old(evictionEpoch) + i
      {
        KeySetStep(victims, i);
        DropOneMore(old(entries), KeySet(victims[..i]), victims[i]);
        evictionEpoch := evictionEpoch + 1;
        entries := entries - {victims[i]};
      }
      TakeAll(victims);
    }

    method WriteEntry(key: Key, items: seq<Bytes>, now: int, branch: string, deleted: bool)
      requires Consistent()
      requires branch in supply.drawn && branch != ""
      requires var c := C.Cell(nextRevision + 1, branch, items, deleted);
        C.Starts(Abs(), c) || C.Continues(Abs(), key, c)
      modifies this`entries, this`nextRevision, this`log
      ensures Consistent()
      ensures nextRevision == old(nextRevision) + 1
      ensures entries == old(entries)[key := Entry(items, now, nextRevision, branch, deleted)]
      ensures Abs() == C.Put(old(Abs()), key, C.Cell(nextRevision, branch, items, deleted))
    {
      nextRevision := nextRevision + 1;
      entries := entries[key := Entry(items, now, nextRevision, branch, deleted)];
      log := log + [C.Write(key, C.Cell(nextRevision, branch, items, deleted))];
      assert Cells(entries) == Cells(old(entries))[key := C.Cell(nextRevision, branch, items, deleted)];
      WriteKeepsSound(old(Abs()), key, C.Cell(nextRevision, branch, items, deleted), supply.drawn);
    }

    method TrimAfterWrite() returns (ghost gone: set<Key>)
      requires Consistent() && |entries| <= MAX_ENTRIES + 1
      modifies this`entries, this`evictionEpoch
      ensures Valid()
      ensures Trims(old(entries), gone) && entries == old(entries) - gone
      ensures Abs() == C.Drop(old(Abs()), gone)
    {
      gone := {};
      if |entries| > MAX_ENTRIES {
        gone := EvictOldest(EVICT_BATCH);
      } else {
        assert entries == entries - {};
        assert Cells(entries) == Cells(entries) - {};
      }
      DropKeepsSound(old(Abs()), gone, nextRevision, supply.drawn);
    }

    /** Write, then trim: the tail of every unconditional or admitted write. */
    method Store(key: Key, items: seq<Bytes>, now: int, branch: string, deleted: bool) returns (ghost gone: set<Key>)
      requires Valid()
      requires branch in supply.drawn && branch != ""
      requires var c := C.Cell(nextRevision + 1, branch, items, deleted);
        C.Starts(Abs(), c) || C.Continues(Abs(), key, c)
      modifies this`entries, this`nextRevision, this`evictionEpoch, this`log
      ensures Valid()
      ensures Stored(old(entries), entries, key, Entry(items, now, old(nextRevision) + 1, branch, deleted), gone)
      ensures Abs() == C.Drop(C.Put(old(Abs()), key, C.Cell(old(nextRevision) + 1, branch, items, deleted)), gone)
      ensures C.Leads(old(Abs()), Abs())
    {
      ghost var c: C.Cell<nat> := C.Cell(nextRevision + 1, branch, items, deleted);
      ghost var s: C.State<nat> := Abs();
      ghost var before := entries;
      WriteEntry(key, items, now, branch, deleted);
      gone := TrimAfterWrite();
      C.PutThenDrop(s, key, c, gone);
      TrimmedIsStored(before, key, Entry(items, now, nextRevision, branch, deleted), gone);
    }

    method CacheItems(key: Key, items: seq<Bytes>, now: int) returns (ok: bool, ghost gone: set<Key>)
      requires Valid()
      modifies this`entries, this`nextRevision, this`evictionEpoch, this`log, supply
      ensures Valid() && C.Leads(old(Abs()), Abs())
      ensures ok <==> key != "" && Normalized(normalizer, items).Some?
      ensures !ok ==> entries == old(entries) && log == old(log) && evictionEpoch == old(evictionEpoch)
      ensures ok ==> Overwrites(old(entries), entries, old(Abs()), Abs(), key,
                                Normalized(normalizer, items).value, false, now, gone)
    {
      gone := {};
      C.LeadsRefl(Abs());
      if key == "" {
        return false, {};
      }
      var n := NormalizeItems(normalizer, items);
      if n.None? {
        return false, {};
      }
      gone := StoreOnNewBranch(key, n.value, now, false);
      ok := true;
    }

    method StoreOnNewBranch(key: Key, items: seq<Bytes>, now: int, deleted: bool) returns (ghost gone: set<Key>)
      requires Valid() && (deleted ==> items == [])
      modifies this`entries, this`nextRevision, this`evictionEpoch, this`log, supply
      ensures Valid() && C.Leads(old(Abs()), Abs())
      ensures Overwrites(old(entries), entries, old(Abs()), Abs(), key, items, deleted, now, gone)
    {
      var branch := supply.Draw();
      DrawKeepsSound(Abs(), nextRevision, old(supply.drawn), branch);
      gone := Store(key, items, now, branch, deleted);
    }

    /** Fences a miss with a tombstone of its own, so dropping another key cannot disturb it. */
    method ReserveAbsent(key: Key, now: int) returns (snap: ReplaySnapshot, ghost gone: set<Key>)
      requires Valid() && key !in entries
      modifies this`entries, this`nextRevision, this`evictionEpoch, this`log, supply
      ensures Valid()
      ensures |old(entries)| < MAX_ENTRIES ==> gone == {}
      ensures |old(entries)| == MAX_ENTRIES ==> OldestFirst(Times(old(entries)), gone, EVICT_BATCH)
      ensures Fenced(old(Abs()), Abs(), key, gone, snap) && snap.raw == [] && snap.epoch == evictionEpoch
      ensures entries == (old(entries) - gone)[key := Entry([], now, snap.revision, snap.branch, true)]
    {
      gone := {};
      assert C.Drop(Abs(), {}) == Abs() && entries - {} == entries;
      if |entries| >= MAX_ENTRIES {
        gone := EvictOldest(EVICT_BATCH);
        DropKeepsSound(old(Abs()), gone, nextRevision, supply.drawn);
      }
      var branch := supply.Draw();
      DrawKeepsSound(Abs(), nextRevision, old(supply.drawn), branch);
      WriteEntry(key, [], now, branch, true);
      snap := ReplaySnapshot([], [], true, true, nextRevision, branch, evictionEpoch);
    }

    /** An entry past its lifetime makes the room its tombstone needs. */
    method ReplaceExpired(key: Key, now: int) returns (snap: ReplaySnapshot)
      requires Valid() && key in entries
      modifies this`entries, this`nextRevision, this`evictionEpoch, this`log, supply
      ensures Valid() && Fenced(old(Abs()), Abs(), key, {key}, snap) && snap.raw == [] && snap.epoch == evictionEpoch
      ensures entries == (old(entries) - {key})[key := Entry([], now, snap.revision, snap.branch, true)]
    {
      evictionEpoch := evictionEpoch + 1;
      entries := entries - {key};
      DropCells(old(entries), {key});
      DropKeepsSound(old(Abs()), {key}, nextRevision, supply.drawn);
      ghost var gone;
      snap, gone := ReserveAbsent(key, now);
      DropNothing(old(entries) - {key});
      FencedOver(old(Abs()), Abs(), key, snap);
    }

    method GetWithSnapshot(key: Key, now: int) returns (items: Option<seq<Bytes>>, snap: ReplaySnapshot, ghost gone: set<Key>)
      requires Valid()
      modifies this`entries, this`nextRevision, this`evictionEpoch, this`log, supply
      ensures Valid() && C.Leads(old(Abs()), Abs())
      ensures key == "" ==> entries == old(entries) && log == old(log) && items == None && snap == NO_SNAPSHOT
      // What was read is what the cache now holds, and the snapshot pins that very write.
      ensures key != "" ==>
        && snap.loaded && WasIssued(snap) && snap.raw == [] && snap.epoch == evictionEpoch
        && C.Issued(Abs(), key, View(snap)) && C.Same(Abs(), key, View(snap))
        && snap.items == entries[key].items
        && items == (if entries[key].deleted || entries[key].items == [] then None else Some(entries[key].items))
      // A hit refreshes the timestamp and nothing else.
      ensures key != "" && key in old(entries) && now - old(entries)[key].timestamp <= REPLAY_TTL ==>
        && Abs() == old(Abs()) && evictionEpoch == old(evictionEpoch)
        && entries == old(entries)[key := old(entries)[key].(timestamp := now)]
      // A miss, or an entry past its lifetime, is fenced with a fresh tombstone.
      ensures key != "" && !(key in old(entries) && now - old(entries)[key].timestamp <= REPLAY_TTL) ==>
        && items == None && entries[key].deleted
        && Fenced(old(Abs()), Abs(), key, gone, snap) && MissCosts(old(entries), key, gone)
        && entries == (old(entries) - gone)[key := Entry([], now, snap.revision, snap.branch, true)]
    {
      gone := {};
      C.LeadsRefl(Abs());
      if key == "" {
        return None, NO_SNAPSHOT, {};
      }
      if key !in entries {
        snap, gone := ReserveAbsent(key, now);
        FencedIsIssued(old(Abs()), Abs(), key, gone, snap);
        return None, snap, gone;
      }
      var entry := entries[key];
      if now - entry.timestamp > REPLAY_TTL {
        snap := ReplaceExpired(key, now);
        FencedIsIssued(old(Abs()), Abs(), key, {key}, snap);
        return None, snap, {key};
      }
      entry := entry.(timestamp := now);
      entries := entries[key := entry];
      assert Cells(entries) == Cells(old(entries));
      snap := ReplaySnapshot([], [], true, true, entry.revision, entry.branch, evictionEpoch);
      if entry.deleted || |entry.items| == 0 {
        items := None;
        TombstoneIsEmpty(Abs(), key);
      } else {
        snap := snap.(items := entry.items);
        items := Some(entry.items);
      }
      HeldIsIssued(Abs(), key, View(snap));
    }

    /** Publishes a completed chain if nothing newer displaced what this request read. The lifetime is not checked. */
    method ReplaceIfUnchanged(key: Key, snapshot: ReplaySnapshot, items: seq<Bytes>, now: int)
      returns (ok: bool, invalid: bool, ghost gone: set<Key>)
      requires Valid() && (snapshot.loaded ==> WasIssued(snapshot))
      modifies this`entries, this`nextRevision, this`evictionEpoch, this`log, supply
      ensures Valid() && C.Leads(old(Abs()), Abs())
      ensures invalid <==> key != "" && Normalized(normalizer, items).None?
      ensures !ok ==> entries == old(entries) && log == old(log) && evictionEpoch == old(evictionEpoch)
      ensures key == "" || invalid ==> !ok
      ensures key != "" && !invalid && snapshot.loaded ==>
        (ok <==> C.Admits(old(Abs()), key, View(snapshot), Normalized(normalizer, items).value))
      ensures ok && snapshot.loaded ==>
        Publishes(old(entries), entries, old(Abs()), Abs(), key, snapshot, Normalized(normalizer, items).value, now, gone)
      ensures ok && !snapshot.loaded ==>
        exists n :: Normalized(normalizer, Normalized(normalizer, items).value) == Some(n)
          && Overwrites(old(entries), entries, old(Abs()), Abs(), key, n, false, now, gone)
    {
      gone := {};
      C.LeadsRefl(Abs());
      if key == "" {
        return false, false, {};
      }
      var n := NormalizeItems(normalizer, items);
      if n.None? {
        return false, true, {};
      }
      if !snapshot.loaded {
        ok, gone := CacheItems(key, n.value, now);
        return ok, false, gone;
      }
      var found := key in entries;
      var matchesSnapshot := found == snapshot.found
        && ((found && entries[key].revision == snapshot.revision) || (!found && snapshot.epoch == evictionEpoch));
      var leadsUp := false;
      if found {
        leadsUp := ItemsPrefix(entries[key].items, n.value);
      }
      var isDescendant := found && !entries[key].deleted && snapshot.branch != ""
        && entries[key].branch == snapshot.branch && leadsUp;
      if !matchesSnapshot && !isDescendant {
        return false, false, {};
      }
      gone := PublishAdmitted(key, snapshot, n.value, now, matchesSnapshot);
      ok, invalid := true, false;
    }

    method PublishAdmitted(key: Key, snapshot: ReplaySnapshot, items: seq<Bytes>, now: int, matchesSnapshot: bool)
      returns (ghost gone: set<Key>)
      requires Valid() && WasIssued(snapshot)
      requires C.Admits(Abs(), key, View(snapshot), items) && matchesSnapshot == C.Same(Abs(), key, View(snapshot))
      modifies this`entries, this`nextRevision, this`evictionEpoch, this`log, supply
      ensures Valid() && C.Leads(old(Abs()), Abs())
      ensures Publishes(old(entries), entries, old(Abs()), Abs(), key, snapshot, items, now, gone)
    {
      var keepsRead := ItemsPrefix(snapshot.items, items);
      var branch := snapshot.branch;
      ghost var k0 :| C.Issued(Abs(), k0, View(snapshot));
      C.BranchChoicesAgree(Abs(), k0, key, View(snapshot), items);
      if branch == "" || (matchesSnapshot && !keepsRead) {
        branch := supply.Draw();
        DrawKeepsSound(Abs(), nextRevision, old(supply.drawn), branch);
      }
      PublishIsLegal(Abs(), k0, key, snapshot, items, branch, nextRevision, supply.drawn);
      gone := Store(key, items, now, branch, false);
    }

    /** Retires an entry only if it is the very write this request read. */
    method DeleteIfUnchanged(key: Key, snapshot: ReplaySnapshot, now: int) returns (ok: bool, ghost gone: set<Key>)
      requires Valid() && (snapshot.loaded ==> WasIssued(snapshot))
      modifies this`entries, this`nextRevision, this`evictionEpoch, this`log, supply
      ensures Valid() && C.Leads(old(Abs()), Abs())
      ensures !ok || key == "" ==> entries == old(entries) && log == old(log) && evictionEpoch == old(evictionEpoch)
      ensures key == "" ==> !ok
      ensures key != "" ==> (ok <==> !snapshot.loaded || C.Same(old(Abs()), key, View(snapshot)))
      ensures ok ==> Overwrites(old(entries), entries, old(Abs()), Abs(), key, [], true, now, gone)
    {
      gone := {};
      C.LeadsRefl(Abs());
      if key == "" {
        return false, {};
      }
      if !snapshot.loaded {
        gone := Delete(key, now);
        return true, gone;
      }
      var found := key in entries;
      if found != snapshot.found || (found && entries[key].revision != snapshot.revision)
        || (!found && snapshot.epoch != evictionEpoch)
      {
        return false, {};
      }
      gone := StoreOnNewBranch(key, [], now, true);
      ok := true;
    }

    method Delete(key: Key, now: int) returns (ghost gone: set<Key>)
      requires Valid()
      modifies this`entries, this`nextRevision, this`evictionEpoch, this`log, supply
      ensures Valid() && C.Leads(old(Abs()), Abs())
      ensures key == "" ==> entries == old(entries) && log == old(log) && evictionEpoch == old(evictionEpoch)
      ensures key != "" ==> Overwrites(old(entries), entries, old(Abs()), Abs(), key, [], true, now, gone)
    {
      gone := {};
      C.LeadsRefl(Abs());
      if key != "" {
        gone := StoreOnNewBranch(key, [], now, true);
      }
    }

    method Clear()
      requires Valid()
      modifies this`entries, this`evictionEpoch
      ensures Valid() && C.Leads(old(Abs()), Abs())
      ensures entries == map[] && log == old(log) && evictionEpoch == old(evictionEpoch) + 1
    {
      entries := map[];
      evictionEpoch := evictionEpoch + 1;
      assert Cells(entries) == Cells(old(entries)) - old(entries).Keys;
      C.DropLeads(old(Abs()), old(entries).Keys);
      DropKeepsSound(old(Abs()), old(entries).Keys, nextRevision, supply.drawn);
    }

    /** Removes exactly the entries past their lifetime. */
    method PurgeExpired(now: int)
      requires Valid()
      modifies this`entries, this`evictionEpoch
      ensures Valid() && C.Leads(old(Abs()), Abs())
      ensures entries == map k | k in old(entries) && now - old(entries)[k].timestamp <= REPLAY_TTL :: old(entries)[k]
      ensures evictionEpoch == old(evictionEpoch) + |old(entries)| - |entries|
    {
      ghost var expired := Expired(entries, now);
      var rest := entries.Keys;
      SweepEnds(entries, expired);
      while rest != {}
        invariant rest <= old(entries).Keys
        invariant entries == old(entries) - (expired - rest)
        invariant evictionEpoch == old(evictionEpoch) + |expired - rest|
        decreases rest
      {
        var k :| k in rest;
        SweepStep(old(entries), expired, rest, k);
        if now - entries[k].timestamp > REPLAY_TTL {
          evictionEpoch := evictionEpoch + 1;
          entries := entries - {k};
        }
        rest := rest - {k};
      }
      DropCells(old(entries), expired);
      UnexpiredStay(old(entries), now);
      C.DropLeads(old(Abs()), expired);
      DropKeepsSound(old(Abs()), expired, nextRevision, supply.drawn);
    }
  }
}
