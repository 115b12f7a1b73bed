/** The Antigravity replay cache in Home mode: the same protocol, one remote command at a time. */
module AntigravityHome {
  import opened Base
  import opened ReplayItems
  import opened HomeStore
  import opened Contention
  import C = FencedChain
  import N = NonceSupply

  const MAX_SERIALIZED_BYTES: nat := 24 * 1024 * 1024
  const ATTEMPTS: nat := 4

  /** The two printers of raw values: a live list, and a tombstone, each under a generation and a branch. */
  datatype Printers = Printers(marshal: (seq<Bytes>, string, string) -> Bytes, tombstone: (string, string) -> Bytes)

  /** Reading back what the printers wrote, for the nonces the supply hands out. */
  ghost predicate Lawful(p: Printers, wire: Wire) {
    && Idempotent(wire.normalizer)
    && (forall items, g, b | N.IsNonce(g) && N.IsNonce(b) ::
          && wire.decode(p.marshal(items, g, b)) == Decoded(items, false, g, b)
          && wire.tag(p.marshal(items, g, b)) == g)
    && (forall g, b | N.IsNonce(g) && N.IsNonce(b) ::
          && wire.decode(p.tombstone(g, b)) == Decoded([], true, g, b)
          && wire.tag(p.tombstone(g, b)) == g)
  }

  /** In Home mode the stamp is the raw value. */
  function View(snap: ReplaySnapshot): C.Snapshot<Bytes> {
    C.Snapshot(snap.raw, snap.branch, snap.items)
  }

  /** What a request is left with when its read failed. It is used all the same. */
  const FAILED_READ := NO_SNAPSHOT.(loaded := true)

  /**
   `snap` comes from some read. A read that failed pins nothing; a value too
   large to decode leaves a snapshot without raw value, branch or items.
   */
  ghost predicate WasIssued(s: C.State<Bytes>, snap: ReplaySnapshot) {
    || snap == FAILED_READ
    || (snap.found && (snap.branch != "" ==> exists k0 :: C.Issued(s, k0, View(snap))))
  }

  lemma WasIssuedIsStable(s: C.State<Bytes>, t: C.State<Bytes>, snap: ReplaySnapshot)
    requires WasIssued(s, snap) && s.log <= t.log
    ensures WasIssued(t, snap)
  {
    if snap.branch != "" {
      var k0 :| C.Issued(s, k0, View(snap));
      C.IssuedIsStable(s, t, k0, View(snap));
    }
  }

  /** The items a reader accepts: live, not too many, and unchanged in number by normalization. */
  ghost function Readable(wire: Wire, raw: Bytes): Option<seq<Bytes>> {
    var c := CellOf(wire, raw);
    var n := Normalized(wire.normalizer, c.items);
    if |raw| <= MAX_SERIALIZED_BYTES && !c.deleted && |c.items| <= MAX_ITEMS_PER_ENTRY && n.Some? && |n.value| == |c.items|
    then n else None
  }

  /** What a request gets to see of the raw value it found. */
  ghost predicate ReadsAs(wire: Wire, raw: Bytes, snap: ReplaySnapshot, items: Option<seq<Bytes>>) {
    && items == Readable(wire, raw)
    && snap == ReplaySnapshot(
                 if |raw| <= MAX_SERIALIZED_BYTES then raw else [],
                 if items.Some? then items.value else [],
                 true, true, 0,
                 if |raw| <= MAX_SERIALIZED_BYTES then CellOf(wire, raw).branch else "", 0)
  }

  /**
   Reads `key`, fencing an absent key with a tombstone of its own; gives up
   after four lost races. A value that was already there is not touched.
   */
  method ReadOrReserve(kv: HomeKV, p: Printers, key: Key) returns (raw: Option<Bytes>)
    requires kv.Valid() && Lawful(p, kv.wire)
    modifies kv, kv.supply
    ensures kv.Valid() && C.Leads(old(kv.Abs()), kv.Abs())
    ensures raw.Some? ==>
      && HeldMeanwhile(old(kv.Abs()), kv.Abs(), key, raw.value)
      && (kv.mine == old(kv.mine) || Fenced(old(kv.Abs()), kv.Abs(), old(kv.mine), kv.mine, key, raw.value))
    ensures raw.None? ==> AtMostFenced(old(kv.Abs()), kv.Abs(), old(kv.mine), kv.mine, key)
    // It gives up only over a lost reply or four lost races; left alone, never.
    ensures kv.lost >= old(kv.lost) && kv.others >= old(kv.others)
    ensures raw.None? ==> kv.lost > old(kv.lost) || RacedOut(old(kv.Abs()), kv.Abs(), key, ATTEMPTS)
    ensures kv.lost == old(kv.lost) && kv.others == old(kv.others) ==>
      && raw.Some?
      && if key in old(kv.store) then raw.value == old(kv.store)[key] && kv.mine == old(kv.mine) else kv.mine != old(kv.mine)
  {
    C.LeadsRefl(kv.Abs());
    ghost var races: Races := [];
    for attempt := 0 to ATTEMPTS
      invariant kv.Valid() && C.Leads(old(kv.Abs()), kv.Abs()) && kv.mine == old(kv.mine)
      invariant kv.lost == old(kv.lost) && kv.others >= old(kv.others)
      invariant |races| == attempt && Raced(old(kv.Abs()), races, kv.Abs(), key)
      invariant kv.others == old(kv.others) ==> attempt == 0 && kv.store == old(kv.store)
    {
      ghost var s: C.State<Bytes> := kv.Abs();
      var lost;
      ghost var absent;
      raw, lost, absent := ReadOrReserveOnce(kv, p, key);
      ReadLater(old(kv.Abs()), s, kv.Abs(), old(kv.mine), kv.mine, key, raw);
      if lost || raw.Some? {
        return raw;
      }
      RacedOnceMore(old(kv.Abs()), races, s, absent, kv.Abs(), key);
      races := races + [Race(absent, kv.Abs())];
    }
    raw := None;
  }

  /** One read, and one attempt to fence the key if it is absent. No result and no loss: the race was lost. */
  method ReadOrReserveOnce(kv: HomeKV, p: Printers, key: Key) 
    returns (raw: Option<Bytes>, lost: bool, ghost absent: C.State<Bytes>)
    requires kv.Valid() && Lawful(p, kv.wire)
    modifies kv, kv.supply
    ensures kv.Valid() && C.Leads(old(kv.Abs()), kv.Abs())
    ensures raw.Some? ==>
      && HeldMeanwhile(old(kv.Abs()), kv.Abs(), key, raw.value)
      && (kv.mine == old(kv.mine) || Fenced(old(kv.Abs()), kv.Abs(), old(kv.mine), kv.mine, key, raw.value))
    ensures raw.None? ==> AtMostFenced(old(kv.Abs()), kv.Abs(), old(kv.mine), kv.mine, key)
    ensures kv.lost == old(kv.lost) + (if lost then 1 else 0) && kv.others >= old(kv.others)
    ensures raw.None? && !lost ==>
      && kv.mine == old(kv.mine)
      && C.Leads(old(kv.Abs()), absent) && key !in absent.cells && C.Leads(absent, kv.Abs()) && key in kv.Abs().cells
    ensures !lost && kv.others == old(kv.others) ==>
      && raw.Some?
      && if key in old(kv.store) then raw.value == old(kv.store)[key] && kv.mine == old(kv.mine) else kv.mine != old(kv.mine)
  {
    var got := kv.KVGet(key);
    absent := kv.Abs();
    if got.Lost? {
      return None, true, absent;
    }
    if got.value.Some? {
      HeldNow(old(kv.Abs()), kv.Abs(), key, got.value.value);
      return got.value, false, absent;
    }
    var reservation, swapped := Reserve(kv, p, key);
    C.LeadsTransitive(old(kv.Abs()), absent, kv.Abs());
    if kv.mine != old(kv.mine) { FencedEarlier(old(kv.Abs()), absent, kv.Abs(), old(kv.mine), kv.mine, key, reservation); }
    if swapped.Lost? {
      return None, true, absent;
    }
    if swapped.value {
      HeldNow(old(kv.Abs()), kv.Abs(), key, reservation);
      return Some(reservation), false, absent;
    }
    raw, lost := None, false;
  }

  /** One attempt to put a tombstone of its own at an absent key. */
  method Reserve(kv: HomeKV, p: Printers, key: Key) returns (reservation: Bytes, swapped: Reply<bool>)
    requires kv.Valid() && Lawful(p, kv.wire)
    modifies kv, kv.supply
    ensures kv.Valid() && C.Leads(old(kv.Abs()), kv.Abs())
    ensures kv.mine == old(kv.mine) || Fenced(old(kv.Abs()), kv.Abs(), old(kv.mine), kv.mine, key, reservation)
    ensures swapped == Answer(true) ==> kv.mine != old(kv.mine) && Finds(kv.Abs(), key, Some(reservation))
    ensures swapped == Answer(false) ==> kv.mine == old(kv.mine) && key in kv.Abs().cells
    ensures kv.lost == old(kv.lost) + (if swapped.Lost? then 1 else 0) && kv.others >= old(kv.others)
    ensures kv.others == old(kv.others) && swapped.Answer? ==> swapped.value == (key !in old(kv.store))
  {
    var generation := kv.Draw();
    var branch := kv.Draw();
    reservation := p.tombstone(generation, branch);
    ghost var s0: C.State<Bytes>, drawn0 := kv.Abs(), kv.supply.drawn;
    C.LeadsRefl(s0);
    swapped := kv.KVCompareAndSwap(key, None, reservation);
    if kv.mine != old(kv.mine) {
      SwapOpens(kv.wire, s0, s0, kv.Abs(), drawn0, old(kv.mine), kv.mine, key, reservation);
    }
  }

  /**
   Pins the value `key` held at some moment of the call, even if refreshing its
   lifetime fails, or reports a failure and pins nothing. The only write of its
   own is the tombstone that fences an absent key.
   */
  method GetWithSnapshot(kv: HomeKV, p: Printers, key: Key)
    returns (items: Option<seq<Bytes>>, snap: ReplaySnapshot, failed: bool, ghost raw: Bytes)
    requires kv.Valid() && Lawful(p, kv.wire)
    modifies kv, kv.supply
    ensures kv.Valid() && C.Leads(old(kv.Abs()), kv.Abs())
    ensures key == "" ==> items == None && snap == NO_SNAPSHOT && !failed && kv.mine == old(kv.mine)
    ensures key != "" ==> WasIssued(kv.Abs(), snap) && snap.loaded && (snap.found || (failed && snap == FAILED_READ))
    ensures key != "" && snap.found ==>
      && HeldMeanwhile(old(kv.Abs()), kv.Abs(), key, raw)
      && ReadsAs(kv.wire, raw, snap, Readable(kv.wire, raw))
      && (|raw| <= MAX_SERIALIZED_BYTES ==> C.Issued(kv.Abs(), key, View(snap)))
      && (kv.mine == old(kv.mine) || Fenced(old(kv.Abs()), kv.Abs(), old(kv.mine), kv.mine, key, raw))
    ensures key != "" && !snap.found ==> AtMostFenced(old(kv.Abs()), kv.Abs(), old(kv.mine), kv.mine, key)
    ensures items == if key != "" && !failed then Readable(kv.wire, raw) else None
    ensures failed ==> kv.lost > old(kv.lost) || RacedOut(old(kv.Abs()), kv.Abs(), key, ATTEMPTS)
    ensures key != "" && kv.lost == old(kv.lost) && kv.others == old(kv.others) ==>
      && !failed
      && (key in old(kv.store) ==> raw == old(kv.store)[key] && kv.mine == old(kv.mine))
  {
    raw := [];
    C.LeadsRefl(kv.Abs());
    if key == "" {
      return None, NO_SNAPSHOT, false, [];
    }
    var found := ReadOrReserve(kv, p, key);
    if found.None? {
      return None, FAILED_READ, true, [];
    }
    raw := found.value;
    if |found.value| > MAX_SERIALIZED_BYTES {
      return None, ReplaySnapshot([], [], true, true, 0, "", 0), false, raw;
    }
    items, snap := Inspect(kv.wire, found.value);
    ReadIsIssued(kv.wire, old(kv.Abs()), kv.Abs(), kv.supply.drawn, key, raw, snap, items);
    failed := false;
    if items.Some? {
      failed := Refresh(kv, old(kv.Abs()), old(kv.mine), key, raw, snap);
      if failed { items := None; }
    }
  }

  /** What a decodable raw value of tolerable size shows to the request. */
  method Inspect(wire: Wire, raw: Bytes) returns (items: Option<seq<Bytes>>, snap: ReplaySnapshot)
    requires |raw| <= MAX_SERIALIZED_BYTES
    ensures items == Readable(wire, raw) && ReadsAs(wire, raw, snap, items)
  {
    snap := ReplaySnapshot(raw, [], true, true, 0, "", 0);
    items := None;
    var decoded := wire.decode(raw);
    if decoded.Decoded? {
      snap := snap.(branch := decoded.branch);
      if !decoded.deleted && |decoded.items| > 0 && |decoded.items| <= MAX_ITEMS_PER_ENTRY {
        var n := NormalizeItems(wire.normalizer, decoded.items);
        if n.Some? && |n.value| == |decoded.items| {
          snap := snap.(items := n.value);
          items := n;
        }
      }
    }
  }

  /** Refreshing the lifetime changes nothing about what was read, whether it fails or not. */
  method Refresh(kv: HomeKV, ghost s0: C.State<Bytes>, ghost was: Ledger, key: Key, ghost raw: Bytes, ghost snap: ReplaySnapshot)
    returns (failed: bool)
    requires kv.Valid() && C.Leads(s0, kv.Abs()) && HeldMeanwhile(s0, kv.Abs(), key, raw)
    requires WasIssued(kv.Abs(), snap) && C.Issued(kv.Abs(), key, View(snap))
    requires kv.mine == was || Fenced(s0, kv.Abs(), was, kv.mine, key, raw)
    modifies kv, kv.supply
    ensures kv.Valid() && C.Leads(s0, kv.Abs()) && HeldMeanwhile(s0, kv.Abs(), key, raw)
    ensures WasIssued(kv.Abs(), snap) && C.Issued(kv.Abs(), key, View(snap))
    ensures kv.mine == was || Fenced(s0, kv.Abs(), was, kv.mine, key, raw)
    ensures kv.mine == old(kv.mine) && kv.others >= old(kv.others)
    ensures kv.lost == old(kv.lost) + if failed then 1 else 0
  {
    ghost var s: C.State<Bytes> := kv.Abs();
    var expired := kv.KVExpire(key);
    C.LeadsTransitive(s0, s, kv.Abs());
    HeldLater(s0, s, kv.Abs(), key, raw);
    WasIssuedIsStable(s, kv.Abs(), snap);
    C.IssuedIsStable(s, kv.Abs(), key, View(snap));
    if kv.mine != was { FencedLater(s0, s, kv.Abs(), was, kv.mine, key, raw); }
    failed := expired.Lost?;
  }

  lemma ReadIsIssued(wire: Wire, s: C.State<Bytes>, t: C.State<Bytes>, drawn: set<string>, key: Key, raw: Bytes,
                     snap: ReplaySnapshot, items: Option<seq<Bytes>>)
    requires C.Coherent(s) && Sound(wire, t, drawn) && HeldMeanwhile(s, t, key, raw)
    requires |raw| <= MAX_SERIALIZED_BYTES && ReadsAs(wire, raw, snap, items)
    ensures C.Issued(t, key, View(snap)) && WasIssued(t, snap)
  {
    var mid :| C.Leads(s, mid) && C.Leads(mid, t) && Finds(mid, key, Some(raw));
    C.LeadsKeepsCoherent(s, mid);
    C.LeadsKeepsCoherent(mid, t);
    assert C.IsLastWrite(mid, key);
    var i :| C.LatestAt(mid, key, i);
    assert WellWritten(wire, t.log, i, drawn);
    assert C.TombstoneIsEmpty(t.log, i);
    NormalizedIsShort(wire.normalizer, CellOf(wire, raw).items);
    assert C.IssuedAt(t, key, View(snap), i);
  }

  lemma NormalizedIsShort(f: Normalizer, items: seq<Bytes>)
    ensures Normalized(f, items).Some? ==> 0 < |items| <= MAX_ITEMS_PER_ENTRY
  {
  }

  /** The only write of its own was the last step, an admissible publish. */
  ghost predicate PublishedOnce(s: C.State<Bytes>, t: C.State<Bytes>, was: Ledger, now: Ledger,
                                key: Key, snap: ReplaySnapshot, items: seq<Bytes>)
  {
    exists pre, c :: C.Leads(s, pre) && C.PublishStep(pre, t, key, View(snap), items, c) && Wrote(was, now, key, c)
  }

  /** The only write of its own was the last step, a tombstone over the very value that was read. */
  ghost predicate RetiredOnce(s: C.State<Bytes>, t: C.State<Bytes>, was: Ledger, now: Ledger, key: Key, snap: ReplaySnapshot) {
    exists pre, c :: C.Leads(s, pre) && C.RetireStep(pre, t, key, View(snap), c) && Wrote(was, now, key, c)
  }

  /** What a confirmed replacement did. After a failed read nothing guards it but the absence of the key. */
  ghost predicate Replaced(s: C.State<Bytes>, t: C.State<Bytes>, was: Ledger, now: Ledger,
                           key: Key, snap: ReplaySnapshot, items: seq<Bytes>)
  {
    if snap.found then PublishedOnce(s, t, was, now, key, snap, items) else OpenedOnce(s, t, was, now, key, items, false)
  }

  ghost predicate Retired(s: C.State<Bytes>, t: C.State<Bytes>, was: Ledger, now: Ledger, key: Key, snap: ReplaySnapshot) {
    if snap.found then RetiredOnce(s, t, was, now, key, snap) else OpenedOnce(s, t, was, now, key, [], true)
  }

  /** A call that is not confirmed may have stored the items once, because replies get lost. */
  method CacheItems(kv: HomeKV, p: Printers, key: Key, items: seq<Bytes>) returns (ok: bool)
    requires kv.Valid() && Lawful(p, kv.wire)
    modifies kv, kv.supply
    ensures kv.Valid() && C.Leads(old(kv.Abs()), kv.Abs())
    ensures key == "" || Normalized(kv.wire.normalizer, items).None? ==> !ok && kv.mine == old(kv.mine)
    ensures (!ok && kv.mine == old(kv.mine))
      || (&& Normalized(kv.wire.normalizer, items).Some?
          && OverwroteOnce(old(kv.Abs()), kv.Abs(), old(kv.mine), kv.mine, key, Normalized(kv.wire.normalizer, items).value, false))
    ensures kv.lost >= old(kv.lost)
    ensures key != "" && Normalized(kv.wire.normalizer, items).Some? ==> ok || kv.lost > old(kv.lost)
  {
    C.LeadsRefl(kv.Abs());
    if key == "" {
      return false;
    }
    var n := NormalizeItems(kv.wire.normalizer, items);
    if n.None? {
      return false;
    }
    var branch := kv.Draw();
    var generation := kv.Draw();
    NormalizedIsFixed(kv.wire.normalizer, items);
    var raw := p.marshal(n.value, generation, branch);
    var written := kv.KVSet(key, raw);
    ok := written == Answer(true);
  }

  /** The branch a publish will write: the snapshot's own when it prolongs what was read, otherwise an unwritten one. */
  ghost predicate BranchFits(wire: Wire, log: seq<C.Write<Bytes>>, drawn: set<string>, snap: ReplaySnapshot,
                             items: seq<Bytes>, branch: string, expected: Option<Bytes>)
  {
    && N.IsNonce(branch) && branch in drawn
    && if snap.branch != "" && snap.items <= items then
        && expected.Some? && branch == snap.branch == CellOf(wire, expected.value).branch
        && CellOf(wire, expected.value).items <= items
      else
        NotUsedYet(wire, log, branch)
  }

  ghost predicate Descends(wire: Wire, snap: ReplaySnapshot, raw: Bytes, items: seq<Bytes>) {
    var c := CellOf(wire, raw);
    snap.branch != "" && !c.deleted && c.branch == snap.branch && c.items <= items
  }

  /** What the swap compares with: what was read, or a live descendant of it that was fetched since. */
  ghost predicate Expects(wire: Wire, snap: ReplaySnapshot, expected: Option<Bytes>, items: seq<Bytes>) {
    || expected == Pinned(snap)
    || (snap.found && expected.Some? && Descends(wire, snap, expected.value, items))
  }

  function Pinned(snap: ReplaySnapshot): Option<Bytes> {
    if snap.found then Some(snap.raw) else None
  }

  lemma SnapshotMayContinue(wire: Wire, s: C.State<Bytes>, drawn: set<string>, snap: ReplaySnapshot, items: seq<Bytes>)
    requires Sound(wire, s, drawn) && WasIssued(s, snap) && snap.branch != "" && snap.items <= items
    ensures BranchFits(wire, s.log, drawn, snap, items, snap.branch, Pinned(snap))
  {
    var k0 :| C.Issued(s, k0, View(snap));
    var i :| C.IssuedAt(s, k0, View(snap), i);
    assert WellWritten(wire, s.log, i, drawn);
  }

  lemma FitsMayReplace(wire: Wire, p: Printers, log: seq<C.Write<Bytes>>, drawn: set<string>, snap: ReplaySnapshot,
                       items: seq<Bytes>, branch: string, expected: Option<Bytes>, generation: string)
    requires Lawful(p, wire) && BranchFits(wire, log, drawn, snap, items, branch, expected)
    requires N.IsNonce(generation) && generation in drawn && NotUsedYet(wire, log, generation) && generation != branch
    requires Normalized(wire.normalizer, items) == Some(items)
    ensures MayReplace(wire, log, drawn, expected, p.marshal(items, generation, branch))
  {
  }

  /** A swap is a publish: the fetched value it replaced is what the publish guard asks for. */
  lemma SwapIsPublish(wire: Wire, s: C.State<Bytes>, mid: C.State<Bytes>, t: C.State<Bytes>, drawn: set<string>,
                      midDrawn: set<string>, was: Ledger, now: Ledger, key: Key, snap: ReplaySnapshot, items: seq<Bytes>,
                      branch: string, expected: Option<Bytes>, raw: Bytes)
    requires C.Leads(s, mid) && C.Coherent(mid) && Sound(wire, t, drawn)
    requires Expects(wire, snap, expected, items) && (snap.found || snap.branch == "")
    requires BranchFits(wire, mid.log, midDrawn, snap, items, branch, expected)
    requires CellOf(wire, raw) == C.Cell(raw, branch, items, false)
    requires Swapped(wire, mid, t, midDrawn, key, expected, raw) && Wrote(was, now, key, CellOf(wire, raw))
    ensures Replaced(s, t, was, now, key, snap, items)
  {
    if snap.found {
      var pre :| C.Leads(mid, pre) && Finds(pre, key, expected)
                 && Spares(wire, mid.log, pre.log, midDrawn)
                 && C.WriteStep(pre, t, key, CellOf(wire, raw));
      C.LeadsTransitive(s, mid, pre);
      C.LeadsKeepsCoherent(mid, pre);
      EarlierIsSound(wire, pre, t, drawn);
      HeldIsItsRaw(wire, pre, drawn, key);
      assert C.PublishStep(pre, t, key, View(snap), items, CellOf(wire, raw));
    } else {
      SwapOpens(wire, s, mid, t, midDrawn, was, now, key, raw);
    }
  }

  /** A live value on the snapshot's branch that a reader accepts and whose items lead up to the new ones. */
  ghost predicate LeadsUp(wire: Wire, snap: ReplaySnapshot, raw: Bytes, items: seq<Bytes>) {
    && snap.branch != "" && CellOf(wire, raw).branch == snap.branch
    && Readable(wire, raw).Some? && Readable(wire, raw).value <= items
  }

  ghost predicate HoldsDescendant(wire: Wire, s: C.State<Bytes>, key: Key, snap: ReplaySnapshot, items: seq<Bytes>) {
    key in s.cells && LeadsUp(wire, snap, s.cells[key].stamp, items)
  }

  /** The key holds what was read, or a readable live descendant that the new items prolong. */
  ghost predicate Fits(wire: Wire, s: C.State<Bytes>, key: Key, snap: ReplaySnapshot, items: seq<Bytes>) {
    Finds(s, key, Pinned(snap)) || HoldsDescendant(wire, s, key, snap, items)
  }

  /** At some moment of the call the key did not fit. */
  ghost predicate UnfitMeanwhile(wire: Wire, s: C.State<Bytes>, t: C.State<Bytes>, key: Key, snap: ReplaySnapshot, items: seq<Bytes>) {
    exists mid {:trigger Fits(wire, mid, key, snap, items)} ::
      C.Leads(s, mid) && C.Leads(mid, t) && !Fits(wire, mid, key, snap, items)
  }

  /** The expected value of a swap: what was read at first, later a descendant that the key held at `held`. */
  ghost predicate Awaits(wire: Wire, held: C.State<Bytes>, key: Key, snap: ReplaySnapshot, items: seq<Bytes>,
                         expected: Option<Bytes>, n: nat)
  {
    if n == 0 then expected == Pinned(snap)
    else expected.Some? && Finds(held, key, expected) && LeadsUp(wire, snap, expected.value, items)
  }

  /** What the next swap compares with was there at `held` and not at `gone`. */
  ghost predicate Overtaken(wire: Wire, held: C.State<Bytes>, gone: C.State<Bytes>, key: Key, snap: ReplaySnapshot,
                            items: seq<Bytes>, n: nat)
  {
    exists expected :: Awaits(wire, held, key, snap, items, expected, n) && !Finds(gone, key, expected)
  }

  ghost function Overtakes(wire: Wire, key: Key, snap: ReplaySnapshot, items: seq<Bytes>)
    : (C.State<Bytes>, C.State<Bytes>, nat) -> bool
  {
    (held: C.State<Bytes>, gone: C.State<Bytes>, n: nat) => Overtaken(wire, held, gone, key, snap, items, n)
  }

  /** As often as there are races, others replaced the value that the next swap was to compare with. */
  ghost predicate Contended(wire: Wire, s: C.State<Bytes>, races: Races, t: C.State<Bytes>, key: Key, snap: ReplaySnapshot,
                            items: seq<Bytes>)
  {
    LostInTurn(Earlier(), Overtakes(wire, key, snap, items), s, races, t)
  }

  lemma ContendedOnceMore(wire: Wire, s: C.State<Bytes>, races: Races, held: C.State<Bytes>, gone: C.State<Bytes>,
                          t: C.State<Bytes>, key: Key, snap: ReplaySnapshot, items: seq<Bytes>, expected: Option<Bytes>)
    requires Contended(wire, s, races, held, key, snap, items) && Awaits(wire, held, key, snap, items, expected, |races|)
    requires C.Leads(held, gone) && !Finds(gone, key, expected) && C.Leads(gone, t)
    ensures Contended(wire, s, races + [Race(held, gone)], t, key, snap, items)
  {
    C.LeadsRefl(held);
    OneMoreRace(Overtakes(wire, key, snap, items), s, races, held, held, gone, t);
  }

  /** Before anything else was contended, what had been read was. */
  lemma PinnedWasMissed(wire: Wire, s: C.State<Bytes>, races: Races, t: C.State<Bytes>, key: Key, snap: ReplaySnapshot,
                        items: seq<Bytes>)
    requires Contended(wire, s, races, t, key, snap, items) && races != []
    ensures MissedMeanwhile(s, t, key, Pinned(snap))
  {
    FirstOfRaces(Overtakes(wire, key, snap, items), s, races, t);
    assert Overtaken(wire, races[0].held, races[0].gone, key, snap, items, 0);
  }

  /** A raw value that was read and is gone does not come back. */
  lemma PinnedStaysGone(s: C.State<Bytes>, gone: C.State<Bytes>, t: C.State<Bytes>, key: Key, snap: ReplaySnapshot)
    requires C.Coherent(s) && WasIssued(s, snap) && snap.branch != "" && C.Leads(s, gone) && C.Leads(gone, t)
    requires !Finds(gone, key, Pinned(snap))
    ensures !Finds(t, key, Pinned(snap))
  {
    if Finds(t, key, Pinned(snap)) {
      var k0 :| C.Issued(s, k0, View(snap));
      C.LeadsKeepsCoherent(s, gone);
      C.LeadsKeepsCoherent(gone, t);
      C.IssuedIsStable(s, gone, k0, View(snap));
      C.IssuedIsStable(gone, t, k0, View(snap));
      C.CurrentIsOwnKey(t, k0, key, View(snap));
      var run :| C.Run(run) && run[0] == gone && run[|run| - 1] == t;
      C.NotSameLater(run, k0, key, View(snap));
    }
  }

  /** After a refused swap and a fetch that found no descendant: at one of the two moments the key did not fit. */
  lemma RefusedWasUnfit(wire: Wire, s: C.State<Bytes>, t: C.State<Bytes>, key: Key, snap: ReplaySnapshot, items: seq<Bytes>)
    requires C.Coherent(s) && WasIssued(s, snap) && MissedMeanwhile(s, t, key, Pinned(snap))
    requires C.Leads(s, t) && !HoldsDescendant(wire, t, key, snap, items)
    ensures UnfitMeanwhile(wire, s, t, key, snap, items)
  {
    var mid :| C.Leads(s, mid) && C.Leads(mid, t) && !Finds(mid, key, Pinned(snap));
    if snap.branch == "" {
      assert !Fits(wire, mid, key, snap, items);
    } else {
      PinnedStaysGone(s, mid, t, key, snap);
      C.LeadsRefl(t);
      assert !Fits(wire, t, key, snap, items);
    }
  }

  /** The next swap is to compare with `expected`, after others came first in all the races. */
  ghost predicate Racing(wire: Wire, s: C.State<Bytes>, races: Races, t: C.State<Bytes>, key: Key, snap: ReplaySnapshot,
                         items: seq<Bytes>, expected: Option<Bytes>)
  {
    Contended(wire, s, races, t, key, snap, items) && Awaits(wire, t, key, snap, items, expected, |races|)
  }

  /** A refused swap, then a fetch that found a descendant or none. */
  lemma AfterRefusal(wire: Wire, s: C.State<Bytes>, races: Races, held: C.State<Bytes>, gone: C.State<Bytes>, t: C.State<Bytes>,
                     key: Key, snap: ReplaySnapshot, items: seq<Bytes>, expected: Option<Bytes>, next: Option<Bytes>)
    requires C.Coherent(s) && WasIssued(s, snap) && C.Leads(s, t)
    requires Racing(wire, s, races, held, key, snap, items, expected)
    requires C.Leads(held, gone) && !Finds(gone, key, expected) && C.Leads(gone, t)
    requires next.Some? ==> Finds(t, key, next) && LeadsUp(wire, snap, next.value, items)
    ensures next.Some? ==> Racing(wire, s, races + [Race(held, gone)], t, key, snap, items, next)
    ensures next.None? && !HoldsDescendant(wire, t, key, snap, items) ==> UnfitMeanwhile(wire, s, t, key, snap, items)
  {
    ContendedOnceMore(wire, s, races, held, gone, t, key, snap, items, expected);
    if next.None? && !HoldsDescendant(wire, t, key, snap, items) {
      PinnedWasMissed(wire, s, races + [Race(held, gone)], t, key, snap, items);
      RefusedWasUnfit(wire, s, t, key, snap, items);
    }
  }

  /** What justifies that a replacement is refused. */
  ghost predicate Refusable(wire: Wire, s: C.State<Bytes>, t: C.State<Bytes>, key: Key, snap: ReplaySnapshot, items: seq<Bytes>) {
    || UnfitMeanwhile(wire, s, t, key, snap, items)
    || exists races | |races| == ATTEMPTS :: Contended(wire, s, races, t, key, snap, items)
  }

  /** For a snapshot that found something, what fits is what the publish guard admits and a reader can take. */
  lemma FitsIsAdmitted(wire: Wire, s: C.State<Bytes>, drawn: set<string>, key: Key, snap: ReplaySnapshot, items: seq<Bytes>)
    requires Sound(wire, s, drawn) && snap.found
    ensures Fits(wire, s, key, snap, items) ==> C.Admits(s, key, View(snap), items)
    ensures C.Admits(s, key, View(snap), items) && |s.cells[key].stamp| <= MAX_SERIALIZED_BYTES ==>
      Fits(wire, s, key, snap, items)
  {
    if key in s.cells {
      HeldIsItsRaw(wire, s, drawn, key);
      FetchedDescends(wire, s, drawn, key, s.cells[key].stamp);
    }
  }

  lemma FetchedDescends(wire: Wire, s: C.State<Bytes>, drawn: set<string>, key: Key, raw: Bytes)
    requires Sound(wire, s, drawn) && Finds(s, key, Some(raw))
    ensures var c := CellOf(wire, raw);
      c.branch != "" && !c.deleted ==> Normalized(wire.normalizer, c.items) == Some(c.items)
  {
    assert C.IsLastWrite(s, key);
    var i :| C.LatestAt(s, key, i);
    assert WellWritten(wire, s.log, i, drawn);
  }

  /**
   Confirmed, exactly one replacement took place; refused, nothing was written;
   failed, at most that replacement. A stale snapshot writes nothing at all.
   */
  method ReplaceIfUnchanged(kv: HomeKV, p: Printers, key: Key, snapshot: ReplaySnapshot, items: seq<Bytes>)
    returns (ok: bool, failed: bool)
    requires kv.Valid() && Lawful(p, kv.wire) && (snapshot.loaded ==> WasIssued(kv.Abs(), snapshot))
    modifies kv, kv.supply
    ensures kv.Valid() && C.Leads(old(kv.Abs()), kv.Abs())
    ensures key == "" || Normalized(kv.wire.normalizer, items).None? ==> !ok && kv.mine == old(kv.mine)
    ensures ok ==> !failed
    ensures ok && snapshot.loaded ==>
      && Normalized(kv.wire.normalizer, items).Some?
      && Replaced(old(kv.Abs()), kv.Abs(), old(kv.mine), kv.mine, key, snapshot, Normalized(kv.wire.normalizer, items).value)
    ensures !ok && snapshot.loaded && kv.mine != old(kv.mine) ==>
      && failed && Normalized(kv.wire.normalizer, items).Some?
      && Replaced(old(kv.Abs()), kv.Abs(), old(kv.mine), kv.mine, key, snapshot, Normalized(kv.wire.normalizer, items).value)
    ensures !snapshot.loaded && (ok || kv.mine != old(kv.mine)) ==>
      && Normalized(kv.wire.normalizer, items).Some?
      && OverwroteOnce(old(kv.Abs()), kv.Abs(), old(kv.mine), kv.mine, key, Normalized(kv.wire.normalizer, items).value, false)
    ensures snapshot.loaded && snapshot.found && Stale(old(kv.Abs()), snapshot) ==> !ok && kv.mine == old(kv.mine)
    // Valid input fails only over a lost reply, and is refused only for cause.
    ensures kv.lost >= old(kv.lost)
    ensures key != "" && Normalized(kv.wire.normalizer, items).Some? ==>
      && (failed || (!ok && !snapshot.loaded) ==> kv.lost > old(kv.lost))
      && (!ok && !failed && snapshot.loaded ==>
            Refusable(kv.wire, old(kv.Abs()), kv.Abs(), key, snapshot, Normalized(kv.wire.normalizer, items).value))
    ensures kv.lost == old(kv.lost) && kv.others == old(kv.others) ==>
      key != "" && Normalized(kv.wire.normalizer, items).Some? && snapshot.loaded ==>
        (ok <==> Fits(kv.wire, old(kv.Abs()), key, snapshot, Normalized(kv.wire.normalizer, items).value))
  {
    C.LeadsRefl(kv.Abs());
    if key == "" {
      return false, false;
    }
    var n := NormalizeItems(kv.wire.normalizer, items);
    if n.None? {
      return false, true;
    }
    NormalizedIsFixed(kv.wire.normalizer, items);
    if !snapshot.loaded {
      ok := CacheItems(kv, p, key, n.value);
      return ok, false;
    }
    ok, failed := PublishItems(kv, p, key, snapshot, n.value);
    StaleCommitsNothing(old(kv.Abs()), kv.Abs(), old(kv.mine), kv.mine, key, snapshot, n.value);
  }

  method PublishItems(kv: HomeKV, p: Printers, key: Key, snapshot: ReplaySnapshot, items: seq<Bytes>)
    returns (ok: bool, failed: bool)
    requires kv.Valid() && Lawful(p, kv.wire) && WasIssued(kv.Abs(), snapshot)
    requires Normalized(kv.wire.normalizer, items) == Some(items)
    modifies kv, kv.supply
    ensures kv.Valid() && C.Leads(old(kv.Abs()), kv.Abs())
    ensures Ended(kv.wire, old(kv.Abs()), kv.Abs(), old(kv.mine), kv.mine, key, snapshot, items, ok, failed)
    ensures kv.lost == old(kv.lost) + (if failed then 1 else 0) && kv.others >= old(kv.others)
    ensures kv.others == old(kv.others) && !failed ==> (ok <==> Fits(kv.wire, old(kv.Abs()), key, snapshot, items))
  {
    ghost var s: C.State<Bytes> := kv.Abs();
    C.LeadsRefl(s);
    var expected := if snapshot.found then Some(snapshot.raw) else None;
    var branch := snapshot.branch;
    var keepsRead := ItemsPrefix(snapshot.items, items);
    if branch == "" || !keepsRead {
      branch := kv.Draw();
    }
    if snapshot.branch != "" && snapshot.items <= items {
      SnapshotMayContinue(kv.wire, kv.Abs(), kv.supply.drawn, snapshot, items);
    }
    ok, failed := RetrySwaps(kv, p, s, key, snapshot, items, branch, expected);
  }

  method RetrySwaps(kv: HomeKV, p: Printers, ghost s: C.State<Bytes>, key: Key, snapshot: ReplaySnapshot, items: seq<Bytes>,
                    branch: string, pinned: Option<Bytes>)
    returns (ok: bool, failed: bool)
    requires kv.Valid() && Lawful(p, kv.wire) && WasIssued(s, snapshot) && s == kv.Abs() && pinned == Pinned(snapshot)
    requires Normalized(kv.wire.normalizer, items) == Some(items)
    requires BranchFits(kv.wire, kv.log, kv.supply.drawn, snapshot, items, branch, pinned)
    modifies kv, kv.supply
    ensures kv.Valid() && C.Leads(s, kv.Abs())
    ensures Ended(kv.wire, s, kv.Abs(), old(kv.mine), kv.mine, key, snapshot, items, ok, failed)
    ensures kv.lost == old(kv.lost) + (if failed then 1 else 0) && kv.others >= old(kv.others)
    ensures kv.others == old(kv.others) && !failed ==> (ok <==> Fits(kv.wire, s, key, snapshot, items))
  {
    FirstTry(kv.wire, s, kv.supply.drawn, key, snapshot, items, branch);
    var expected := pinned;
    ghost var races: Races := [];
    for attempt := 0 to ATTEMPTS
      invariant kv.Valid() && C.Leads(s, kv.Abs()) && kv.mine == old(kv.mine)
      invariant kv.lost == old(kv.lost) && kv.others >= old(kv.others)
      invariant |races| == attempt && Trying(kv.wire, s, races, kv.Abs(), kv.supply.drawn, key, snapshot, items, branch, expected)
      invariant kv.others == old(kv.others) ==> Alone(kv.wire, s, kv.Abs(), key, snapshot, items, expected, attempt)
    {
      var swapped, next;
      swapped, next, failed, races := SwapOrFetch(kv, p, s, races, key, snapshot, items, branch, expected);
      if swapped || next.None? {
        return swapped, failed;
      }
      expected := next;
    }
    OutOfTries(kv.wire, s, races, kv.Abs(), kv.supply.drawn, kv.mine, key, snapshot, items, branch, expected);
    ok, failed := false, false;
  }

  lemma FirstTry(wire: Wire, s: C.State<Bytes>, drawn: set<string>, key: Key, snap: ReplaySnapshot, items: seq<Bytes>, branch: string)
    requires BranchFits(wire, s.log, drawn, snap, items, branch, Pinned(snap))
    ensures C.Leads(s, s) && Trying(wire, s, [], s, drawn, key, snap, items, branch, Pinned(snap))
    ensures Alone(wire, s, s, key, snap, items, Pinned(snap), 0)
  {
    C.LeadsRefl(s);
  }

  lemma OutOfTries(wire: Wire, s: C.State<Bytes>, races: Races, t: C.State<Bytes>, drawn: set<string>, now: Ledger, key: Key,
                   snap: ReplaySnapshot, items: seq<Bytes>, branch: string, expected: Option<Bytes>)
    requires |races| == ATTEMPTS && Trying(wire, s, races, t, drawn, key, snap, items, branch, expected)
    ensures Ended(wire, s, t, now, now, key, snap, items, false, false)
    ensures !Alone(wire, s, t, key, snap, items, expected, ATTEMPTS)
  {
  }

  /** What a replacement came to: one write, or none and a reason, or an unknown one of the two. */
  ghost predicate Ended(wire: Wire, s: C.State<Bytes>, t: C.State<Bytes>, was: Ledger, now: Ledger, key: Key,
                        snap: ReplaySnapshot, items: seq<Bytes>, ok: bool, failed: bool)
  {
    && (ok ==> !failed && now != was)
    && (now == was || ((ok || failed) && Replaced(s, t, was, now, key, snap, items)))
    && (!ok && !failed ==> Refusable(wire, s, t, key, snap, items))
  }

  /** Another swap is due: what it expects, and the branch it will write. */
  ghost predicate Trying(wire: Wire, s: C.State<Bytes>, races: Races, t: C.State<Bytes>, drawn: set<string>, key: Key,
                         snap: ReplaySnapshot, items: seq<Bytes>, branch: string, expected: Option<Bytes>)
  {
    && BranchFits(wire, t.log, drawn, snap, items, branch, expected) && Expects(wire, snap, expected, items)
    && Racing(wire, s, races, t, key, snap, items, expected)
  }

  /** With no step of others a second attempt is made only over the descendant the key holds. */
  ghost predicate Alone(wire: Wire, s: C.State<Bytes>, t: C.State<Bytes>, key: Key, snap: ReplaySnapshot, items: seq<Bytes>,
                        expected: Option<Bytes>, n: nat)
  {
    t == s && n <= 1 && if n == 0 then expected == Pinned(snap) else HoldsDescendant(wire, s, key, snap, items) && Finds(s, key, expected)
  }

  /** One swap over what is expected; if that is refused, the descendant to expect next, if there is one. */
  method SwapOrFetch(kv: HomeKV, p: Printers, ghost s: C.State<Bytes>, ghost races: Races, key: Key, snapshot: ReplaySnapshot,
                     items: seq<Bytes>, branch: string, expected: Option<Bytes>)
    returns (ok: bool, next: Option<Bytes>, failed: bool, ghost more: Races)
    requires kv.Valid() && Lawful(p, kv.wire) && C.Leads(s, kv.Abs()) && (snapshot.found || snapshot.branch == "")
    requires Normalized(kv.wire.normalizer, items) == Some(items) && C.Coherent(s) && WasIssued(s, snapshot)
    requires Trying(kv.wire, s, races, kv.Abs(), kv.supply.drawn, key, snapshot, items, branch, expected)
    modifies kv, kv.supply
    ensures kv.Valid() && C.Leads(s, kv.Abs())
    ensures ok || next.None? ==>
      next.None? && Ended(kv.wire, s, kv.Abs(), old(kv.mine), kv.mine, key, snapshot, items, ok, failed)
    ensures next.Some? ==>
      && !failed && kv.mine == old(kv.mine)
      && |more| == |races| + 1 && Trying(kv.wire, s, more, kv.Abs(), kv.supply.drawn, key, snapshot, items, branch, next)
    ensures kv.lost == old(kv.lost) + (if failed then 1 else 0) && kv.others >= old(kv.others)
    ensures kv.others == old(kv.others) && !failed ==>
      && (ok <==> Finds(old(kv.Abs()), key, expected))
      && (!ok ==> kv.Abs() == old(kv.Abs()) && (next.Some? <==> HoldsDescendant(kv.wire, kv.Abs(), key, snapshot, items)))
  {
    ghost var held: C.State<Bytes> := kv.Abs();
    var swapped := TrySwap(kv, p, s, key, snapshot, items, branch, expected);
    if swapped.Lost? || swapped.value {
      return swapped == Answer(true), None, swapped.Lost?, races;
    }
    ghost var gone: C.State<Bytes> := kv.Abs();
    ok, more := false, races + [Race(held, gone)];
    next, failed := FetchDescendant(kv, s, key, snapshot, items, branch);
    AfterRefusal(kv.wire, s, races, held, gone, kv.Abs(), key, snapshot, items, expected, next);
  }

  /** One swap over what is expected, under a fresh generation. */
  method TrySwap(kv: HomeKV, p: Printers, ghost s: C.State<Bytes>, key: Key, snapshot: ReplaySnapshot, items: seq<Bytes>,
                 branch: string, expected: Option<Bytes>)
    returns (swapped: Reply<bool>)
    requires kv.Valid() && Lawful(p, kv.wire) && C.Leads(s, kv.Abs()) && (snapshot.found || snapshot.branch == "")
    requires Normalized(kv.wire.normalizer, items) == Some(items) && Expects(kv.wire, snapshot, expected, items)
    requires BranchFits(kv.wire, kv.log, kv.supply.drawn, snapshot, items, branch, expected)
    modifies kv, kv.supply
    ensures kv.Valid() && C.Leads(s, kv.Abs())
    ensures kv.mine == old(kv.mine) || Replaced(s, kv.Abs(), old(kv.mine), kv.mine, key, snapshot, items)
    ensures swapped == Answer(true) ==> kv.mine != old(kv.mine)
    ensures swapped == Answer(false) ==>
      && kv.mine == old(kv.mine) && old(kv.supply.drawn) <= kv.supply.drawn
      && Spares(kv.wire, old(kv.log), kv.log, old(kv.supply.drawn))
      && C.Leads(old(kv.Abs()), kv.Abs()) && !Finds(kv.Abs(), key, expected)
    ensures kv.lost == old(kv.lost) + (if swapped.Lost? then 1 else 0) && kv.others >= old(kv.others)
    ensures kv.others == old(kv.others) && swapped.Answer? ==> swapped.value == Finds(old(kv.Abs()), key, expected)
    ensures kv.others == old(kv.others) && swapped == Answer(false) ==> kv.Abs() == old(kv.Abs())
  {
    var generation := kv.Draw();
    FitsMayReplace(kv.wire, p, kv.log, kv.supply.drawn, snapshot, items, branch, expected, generation);
    ghost var s0: C.State<Bytes>, drawn0 := kv.Abs(), kv.supply.drawn;
    var raw := p.marshal(items, generation, branch);
    swapped := kv.KVCompareAndSwap(key, expected, raw);
    C.LeadsTransitive(s, s0, kv.Abs());
    if kv.mine != old(kv.mine) {
      SwapIsPublish(kv.wire, s, s0, kv.Abs(), kv.supply.drawn, drawn0, old(kv.mine), kv.mine, key, snapshot, items, branch,
                    expected, raw);
    }
  }

  /** After a refused swap: the value now held, if it is a live descendant that leads up to the new items. */
  method FetchDescendant(kv: HomeKV, ghost s: C.State<Bytes>, key: Key, snapshot: ReplaySnapshot, items: seq<Bytes>,
                         ghost branch: string)
    returns (next: Option<Bytes>, lost: bool)
    requires kv.Valid() && C.Leads(s, kv.Abs()) && (snapshot.found || snapshot.branch == "")
    requires N.IsNonce(branch) && branch in kv.supply.drawn
    requires if snapshot.branch != "" && snapshot.items <= items then branch == snapshot.branch
             else NotUsedYet(kv.wire, kv.log, branch)
    modifies kv, kv.supply
    ensures kv.Valid() && C.Leads(s, kv.Abs()) && kv.mine == old(kv.mine)
    ensures next.Some? ==>
      && Expects(kv.wire, snapshot, next, items)
      && BranchFits(kv.wire, kv.log, kv.supply.drawn, snapshot, items, branch, next)
      && Finds(kv.Abs(), key, next) && LeadsUp(kv.wire, snapshot, next.value, items)
    ensures next.None? && !lost ==> !HoldsDescendant(kv.wire, kv.Abs(), key, snapshot, items)
    ensures C.Leads(old(kv.Abs()), kv.Abs()) && (next.Some? ==> !lost)
    ensures kv.lost == old(kv.lost) + (if lost then 1 else 0) && kv.others >= old(kv.others)
    ensures kv.others == old(kv.others) ==> kv.Abs() == old(kv.Abs())
  {
    ghost var s1: C.State<Bytes> := kv.Abs();
    var current := kv.KVGet(key);
    C.LeadsTransitive(s, s1, kv.Abs());
    if current.Lost? {
      return None, true;
    }
    if current.value.None? || |current.value.value| > MAX_SERIALIZED_BYTES {
      return None, false;
    }
    var decoded := kv.wire.decode(current.value.value);
    if decoded.Undecodable? || decoded.deleted || snapshot.branch == "" || decoded.branch != snapshot.branch {
      return None, false;
    }
    var normalizedCurrent := NormalizeItems(kv.wire.normalizer, decoded.items);
    if normalizedCurrent.None? || |normalizedCurrent.value| != |decoded.items| {
      return None, false;
    }
    var leadsUp := ItemsPrefix(normalizedCurrent.value, items);
    if !leadsUp {
      return None, false;
    }
    FetchedDescends(kv.wire, kv.Abs(), kv.supply.drawn, key, current.value.value);
    next, lost := current.value, false;
  }

  /** Retires `key` if it still holds the raw value this request read. The same three outcomes as for a replacement. */
  method DeleteIfUnchanged(kv: HomeKV, p: Printers, key: Key, snapshot: ReplaySnapshot) returns (ok: bool, failed: bool)
    requires kv.Valid() && Lawful(p, kv.wire) && (snapshot.loaded ==> WasIssued(kv.Abs(), snapshot))
    modifies kv, kv.supply
    ensures kv.Valid() && C.Leads(old(kv.Abs()), kv.Abs())
    ensures key == "" ==> !ok && kv.mine == old(kv.mine)
    ensures ok && snapshot.loaded ==>
      !failed && Retired(old(kv.Abs()), kv.Abs(), old(kv.mine), kv.mine, key, snapshot)
    ensures !ok && kv.mine != old(kv.mine) ==>
      failed && snapshot.loaded && Retired(old(kv.Abs()), kv.Abs(), old(kv.mine), kv.mine, key, snapshot)
    ensures ok && !snapshot.loaded && (!failed || kv.mine != old(kv.mine)) ==>
      OverwroteOnce(old(kv.Abs()), kv.Abs(), old(kv.mine), kv.mine, key, [], true)
    ensures snapshot.loaded && snapshot.found && Stale(old(kv.Abs()), snapshot) ==> !ok && kv.mine == old(kv.mine)
    ensures kv.lost == old(kv.lost) + (if failed then 1 else 0)
    ensures key != "" && !snapshot.loaded ==> ok
    ensures key != "" && snapshot.loaded && !ok && !failed ==>
      MissedMeanwhile(old(kv.Abs()), kv.Abs(), key, Pinned(snapshot))
    ensures key != "" && snapshot.loaded && kv.lost == old(kv.lost) && kv.others == old(kv.others) ==>
      (ok <==> Finds(old(kv.Abs()), key, Pinned(snapshot)))
  {
    C.LeadsRefl(kv.Abs());
    if key == "" {
      return false, false;
    }
    if !snapshot.loaded {
      failed := Delete(kv, p, key);
      return true, failed;
    }
    var swapped := Retire(kv, p, key, snapshot);
    ok, failed := swapped == Answer(true), swapped.Lost?;
    StaleCommitsNothing(old(kv.Abs()), kv.Abs(), old(kv.mine), kv.mine, key, snapshot, []);
  }

  method Retire(kv: HomeKV, p: Printers, key: Key, snapshot: ReplaySnapshot) returns (swapped: Reply<bool>)
    requires kv.Valid() && Lawful(p, kv.wire)
    modifies kv, kv.supply
    ensures kv.Valid() && C.Leads(old(kv.Abs()), kv.Abs())
    ensures kv.mine == old(kv.mine) || Retired(old(kv.Abs()), kv.Abs(), old(kv.mine), kv.mine, key, snapshot)
    ensures swapped == Answer(true) ==> kv.mine != old(kv.mine)
    ensures swapped == Answer(false) ==>
      kv.mine == old(kv.mine) && MissedMeanwhile(old(kv.Abs()), kv.Abs(), key, Pinned(snapshot))
    ensures kv.lost == old(kv.lost) + if swapped.Lost? then 1 else 0
    ensures kv.others == old(kv.others) && swapped.Answer? ==> swapped.value == Finds(old(kv.Abs()), key, Pinned(snapshot))
  {
    var generation := kv.Draw();
    var branch := kv.Draw();
    var raw := p.tombstone(generation, branch);
    ghost var s0: C.State<Bytes>, drawn0 := kv.Abs(), kv.supply.drawn;
    C.LeadsRefl(s0);
    swapped := kv.KVCompareAndSwap(key, if snapshot.found then Some(snapshot.raw) else None, raw);
    C.LeadsRefl(kv.Abs());
    if kv.mine != old(kv.mine) {
      if snapshot.found {
        SwapIsRetire(kv.wire, s0, kv.Abs(), drawn0, old(kv.mine), kv.mine, key, snapshot, branch, raw);
      } else {
        SwapOpens(kv.wire, s0, s0, kv.Abs(), drawn0, old(kv.mine), kv.mine, key, raw);
      }
    }
  }

  lemma SwapIsRetire(wire: Wire, s: C.State<Bytes>, t: C.State<Bytes>, midDrawn: set<string>, was: Ledger, now: Ledger,
                     key: Key, snap: ReplaySnapshot, branch: string, raw: Bytes)
    requires CellOf(wire, raw) == C.Cell(raw, branch, [], true) && NotUsedYet(wire, s.log, branch)
    requires branch in midDrawn && Swapped(wire, s, t, midDrawn, key, Some(snap.raw), raw)
    requires Wrote(was, now, key, CellOf(wire, raw))
    ensures RetiredOnce(s, t, was, now, key, snap)
  {
    var pre :| C.Leads(s, pre) && Finds(pre, key, Some(snap.raw)) && Spares(wire, s.log, pre.log, midDrawn)
               && C.WriteStep(pre, t, key, CellOf(wire, raw));
    assert C.RetireStep(pre, t, key, View(snap), CellOf(wire, raw));
  }

  /** Not failing means that the tombstone was written; failing, that it may have been. */
  method Delete(kv: HomeKV, p: Printers, key: Key) returns (failed: bool)
    requires kv.Valid() && Lawful(p, kv.wire)
    modifies kv, kv.supply
    ensures kv.Valid() && C.Leads(old(kv.Abs()), kv.Abs())
    ensures key == "" ==> !failed && kv.mine == old(kv.mine)
    ensures key != "" && (!failed || kv.mine != old(kv.mine)) ==>
      OverwroteOnce(old(kv.Abs()), kv.Abs(), old(kv.mine), kv.mine, key, [], true)
    ensures kv.lost == old(kv.lost) + if failed then 1 else 0
  {
    C.LeadsRefl(kv.Abs());
    if key == "" {
      return false;
    }
    var generation := kv.Draw();
    var branch := kv.Draw();
    var written := kv.KVSet(key, p.tombstone(generation, branch));
    failed := written.Lost?;
  }

  // ------------------------------------------------------------- stale and unfenced snapshots

  /** What the snapshot read, at whatever key, is gone from there. */
  ghost predicate Stale(s: C.State<Bytes>, snap: ReplaySnapshot) {
    exists k0 :: C.Issued(s, k0, View(snap)) && !C.Current(s, k0, View(snap))
  }

  /** However often its key is written again, a snapshot that has gone stale neither publishes nor retires. */
  lemma StaleNeverCommits(s: C.State<Bytes>, t: C.State<Bytes>, u: C.State<Bytes>, was: Ledger, now: Ledger, k0: Key, key: Key,
                          snap: ReplaySnapshot, items: seq<Bytes>)
    requires C.Coherent(s) && C.Issued(s, k0, View(snap)) && !C.Current(s, k0, View(snap)) && C.Leads(s, t)
    ensures !PublishedOnce(t, u, was, now, key, snap, items) && !RetiredOnce(t, u, was, now, key, snap)
  {
    forall pre | C.Leads(t, pre)
      ensures !C.Admits(pre, key, View(snap), items)
    {
      C.LeadsTransitive(s, t, pre);
      var run :| C.Run(run) && run[0] == s && run[|run| - 1] == pre;
      C.StaleForever(run, 0, 0, |run| - 1, k0, key, View(snap), items);
    }
  }

  lemma StaleCommitsNothing(s: C.State<Bytes>, u: C.State<Bytes>, was: Ledger, now: Ledger, key: Key,
                            snap: ReplaySnapshot, items: seq<Bytes>)
    requires C.Coherent(s)
    ensures snap.found && Stale(s, snap) ==>
      !Replaced(s, u, was, now, key, snap, items) && !Retired(s, u, was, now, key, snap)
  {
    if Stale(s, snap) {
      var k0 :| C.Issued(s, k0, View(snap)) && !C.Current(s, k0, View(snap));
      C.LeadsRefl(s);
      StaleNeverCommits(s, s, u, was, now, k0, key, snap, items);
    }
  }

  /**
   A replacement is an admissible publish exactly if the read before it did not
   fail, as long as nobody ever stored an empty value.
   */
  lemma PublishesOnlyWhatWasRead(s: C.State<Bytes>, u: C.State<Bytes>, was: Ledger, now: Ledger, key: Key,
                                 snap: ReplaySnapshot, items: seq<Bytes>)
    requires C.Coherent(s) && WasIssued(s, snap) && Replaced(s, u, was, now, key, snap, items) && C.UnusedStamp(u.log, [])
    ensures PublishedOnce(s, u, was, now, key, snap, items) <==> snap.found
  {
    if snap == FAILED_READ {
      forall pre, c | C.Leads(s, pre) && u == C.Put(pre, key, c)
        ensures !C.Admits(pre, key, View(snap), items)
      {
        C.LeadsKeepsCoherent(s, pre);
        assert C.IsLastWrite(pre, key);
        if key in pre.cells {
          var i :| C.LatestAt(pre, key, i);
          assert u.log[i] == pre.log[i];
        }
      }
    }
  }

  /**
   The input the protocol does not guard against: a read of an absent key
   fails, another request creates the key, it expires, and the unfenced
   replacement goes through, while no snapshot anyone took of the key would be
   admitted.
   */
  lemma FailedReadIsNotFenced(s: C.State<Bytes>, key: Key, other: C.Cell<Bytes>, c: C.Cell<Bytes>, was: Ledger)
    requires C.Coherent(s) && key !in s.cells && C.Starts(s, other)
    requires C.Starts(C.Put(s, key, other), c) && !c.deleted
    ensures var mid := C.Drop(C.Put(s, key, other), {key});
      var u := C.Put(mid, key, c);
      && WasIssued(s, FAILED_READ) && C.Leads(s, mid) && Finds(mid, key, Pinned(FAILED_READ))
      && Replaced(s, u, was, was + [C.Write(key, c)], key, FAILED_READ, c.items)
      && (forall snap, items | C.Issued(mid, key, snap) :: !C.Admits(mid, key, snap, items))
  {
    var mid := C.Drop(C.Put(s, key, other), {key});
    C.PutThenDrop(s, key, other, {key});
    assert OpenedOnce(s, C.Put(mid, key, c), was, was + [C.Write(key, c)], key, c.items, false);
  }

  // ----------------------------------------------------------------- wire size

  /** Padded base64, section 4 of RFC 4648. */
  function Base64Length(n: nat): nat {
    4 * ((n + 2) / 3)
  }

  /** A JSON array of base64 strings without its brackets: quotes, and a comma after each element. */
  function ElementsLength(items: seq<Bytes>): nat {
    if items == [] then 0
    else ElementsLength(items[..|items| - 1]) + Base64Length(|items[|items| - 1]|) + 3
  }

  /** The marker object: its punctuation and keys, the 33 bytes of its type, and two nonces. */
  function MarkerLength(generation: string, branch: string): nat {
    72 + |generation| + |branch|
  }

  /** Brackets around the marker and the items; the last element has no comma. */
  function SerializedLength(items: seq<Bytes>, generation: string, branch: string): nat {
    1 + (Base64Length(MarkerLength(generation, branch)) + 3) + ElementsLength(items)
  }

  /** A tombstone is a list of one marker, which has 15 bytes more to say so. */
  function TombstoneLength(generation: string, branch: string): nat {
    Base64Length(MarkerLength(generation, branch) + 15) + 4
  }

  ghost predicate WireSized(p: Printers) {
    && (forall items, g, b | N.IsNonce(g) && N.IsNonce(b) :: |p.marshal(items, g, b)| == SerializedLength(items, g, b))
    && (forall g, b | N.IsNonce(g) && N.IsNonce(b) :: |p.tombstone(g, b)| == TombstoneLength(g, b))
  }

  lemma {:induction false} ElementsBound(items: seq<Bytes>)
    ensures 3 * ElementsLength(items) <= 4 * TotalBytes(items) + 17 * |items|
  {
    if items != [] {
      ElementsBound(items[..|items| - 1]);
    }
  }

  /**
   Every value a publish writes passes all the guards of the next read, which
   hands back the same items on the same branch. Nonces are at most 64 bytes.
   */
  lemma PublishedIsReadable(wire: Wire, p: Printers, input: seq<Bytes>, generation: string, branch: string)
    requires Lawful(p, wire) && WireSized(p) && Normalized(wire.normalizer, input).Some?
    requires N.IsNonce(generation) && N.IsNonce(branch) && |generation| <= 64 && |branch| <= 64
    ensures var items := Normalized(wire.normalizer, input).value;
      var raw := p.marshal(items, generation, branch);
      && |raw| <= MAX_SERIALIZED_BYTES
      && ReadsAs(wire, raw, ReplaySnapshot(raw, items, true, true, 0, branch, 0), Some(items))
  {
    var items := Normalized(wire.normalizer, input).value;
    NormalizedIsFixed(wire.normalizer, input);
    KeptIsFixed(wire.normalizer, input);
    ElementsBound(items);
  }

  /** A tombstone reads as a miss that still pins the tombstone. */
  lemma TombstoneIsFence(wire: Wire, p: Printers, generation: string, branch: string)
    requires Lawful(p, wire) && WireSized(p) && N.IsNonce(generation) && N.IsNonce(branch)
    requires |generation| <= 64 && |branch| <= 64
    ensures var raw := p.tombstone(generation, branch);
      && |raw| <= MAX_SERIALIZED_BYTES
      && ReadsAs(wire, raw, ReplaySnapshot(raw, [], true, true, 0, branch, 0), None)
      && CellOf(wire, raw) == C.Cell(raw, branch, [], true)
  {
    assert |p.tombstone(generation, branch)| == TombstoneLength(generation, branch);
  }
}
