/** The Kimi replay cache in Home mode: whole raw values, compared byte for byte. */
module KimiHome {
  import opened Base
  import opened HomeStore
  import opened Contention
  import K = KimiLocal
  import C = FencedChain
  import N = NonceSupply

  const MAX_SERIALIZED_BYTES: nat := K.MAX_BYTES_PER_ENTRY + 1024
  const ATTEMPTS: nat := 4

  /**
   The printer takes a generation, a tombstone flag and content. Printing
   rewrites content; `canon` is what is read back, or `None` if that is no
   longer valid content.
   */
  datatype Encoder = Encoder(encode: (string, bool, Bytes) -> Bytes, canon: Bytes -> Option<Bytes>)

  /** Reading back what was encoded; a live value holds one content array, and no value is on a branch. */
  ghost predicate Lawful(p: Encoder, wire: Wire) {
    && (forall g, content | N.IsNonce(g) ::
          var raw := p.encode(g, false, content);
          && wire.tag(raw) == g
          && wire.decode(raw) == match p.canon(content)
                                 case Some(c) => Decoded([c], false, g, "")
                                 case None => Undecodable)
    && (forall g | N.IsNonce(g) ::
          wire.tag(p.encode(g, true, [])) == g && wire.decode(p.encode(g, true, [])) == Decoded([], true, g, ""))
    && (forall raw :: wire.decode(raw).Decoded? ==>
          wire.decode(raw).branch == "" && (wire.decode(raw).deleted || |wire.decode(raw).items| == 1))
  }

  /** What a later reader finds stored of the content: one array, or nothing it can decode. */
  function Stored(p: Encoder, content: Bytes): seq<Bytes> {
    match p.canon(content)
    case Some(c) => [c]
    case None => []
  }

  /** In Home mode the stamp is the raw value. */
  function RawView(snap: K.KimiSnapshot): C.Snapshot<Bytes> {
    C.Snapshot(snap.raw, "", [])
  }

  /** What was held was written, so a snapshot of its raw value is a snapshot of that write. */
  lemma HeldIsIssued(s: C.State<Bytes>, t: C.State<Bytes>, wire: Wire, drawn: set<string>, key: Key, raw: Bytes)
    requires C.Coherent(s) && Sound(wire, t, drawn) && HeldMeanwhile(s, t, key, raw)
    requires CellOf(wire, raw).branch == ""
    ensures C.Issued(t, key, C.Snapshot(raw, "", []))
  {
    var mid :| C.Leads(s, mid) && C.Leads(mid, t) && Finds(mid, key, Some(raw));
    C.LeadsKeepsCoherent(s, mid);
    C.LeadsKeepsCoherent(mid, t);
    assert C.IsLastWrite(mid, key);
    var i :| C.LatestAt(mid, key, i);
    assert WellWritten(wire, t.log, i, drawn);
    assert C.IssuedAt(t, key, C.Snapshot(raw, "", []), i);
  }

  /** What is too large to be a value of this cache was there. */
  ghost predicate HeldTooLarge(s: C.State<Bytes>, t: C.State<Bytes>, key: Key) {
    exists raw | |raw| > MAX_SERIALIZED_BYTES :: HeldMeanwhile(s, t, key, raw)
  }

  /**
   Reads `key`, fencing an absent key with a tombstone of its own. A value that
   was already there is not touched. It gives up only over a lost reply, four
   lost races or a value that is too large.
   */
  method ReadOrReserve(kv: HomeKV, p: Encoder, key: Key) returns (raw: Option<Bytes>)
    requires kv.Valid() && Lawful(p, kv.wire)
    modifies kv, kv.supply
    ensures kv.Valid() && C.Leads(old(kv.Abs()), kv.Abs())
    ensures raw.Some? ==>
      && HeldMeanwhile(old(kv.Abs()), kv.Abs(), key, raw.value)
      && (kv.mine == old(kv.mine) || Fenced(old(kv.Abs()), kv.Abs(), old(kv.mine), kv.mine, key, raw.value))
    ensures raw.None? ==> AtMostFenced(old(kv.Abs()), kv.Abs(), old(kv.mine), kv.mine, key)
    ensures kv.lost >= old(kv.lost) && kv.others >= old(kv.others)
    ensures raw.None? ==>
      || kv.lost > old(kv.lost) || RacedOut(old(kv.Abs()), kv.Abs(), key, ATTEMPTS)
      || HeldTooLarge(old(kv.Abs()), kv.Abs(), key)
    ensures kv.lost == old(kv.lost) && kv.others == old(kv.others) ==>
      if key !in old(kv.store) then raw.Some? && kv.mine != old(kv.mine)
      else kv.mine == old(kv.mine) && raw == AsRead(old(kv.store)[key])
  {
    C.LeadsRefl(kv.Abs());
    ghost var races: Races := [];
    for attempt := 0 to ATTEMPTS
      invariant kv.Valid() && C.Leads(old(kv.Abs()), kv.Abs()) && kv.mine == old(kv.mine)
      invariant kv.lost == old(kv.lost) && kv.others >= old(kv.others)
      invariant |races| == attempt && Raced(old(kv.Abs()), races, kv.Abs(), key)
      invariant kv.others == old(kv.others) ==> attempt == 0 && kv.store == old(kv.store)
    {
      ghost var s: C.State<Bytes> := kv.Abs();
      var end;
      ghost var absent;
      raw, end, absent := ReadOrReserveOnce(kv, p, key);
      ReadLater(old(kv.Abs()), s, kv.Abs(), old(kv.mine), kv.mine, key, raw);
      if end || raw.Some? {
        if HeldTooLarge(s, kv.Abs(), key) { TooLargeEarlier(old(kv.Abs()), s, kv.Abs(), key); }
        return raw;
      }
      RacedOnceMore(old(kv.Abs()), races, s, absent, kv.Abs(), key);
      races := races + [Race(absent, kv.Abs())];
    }
    raw := None;
  }

  /** A value a reader takes, or none if it is too large. */
  function AsRead(raw: Bytes): Option<Bytes> {
    if |raw| > MAX_SERIALIZED_BYTES then None else Some(raw)
  }

  lemma TooLargeEarlier(s: C.State<Bytes>, t: C.State<Bytes>, u: C.State<Bytes>, key: Key)
    requires C.Leads(s, t) && HeldTooLarge(t, u, key)
    ensures HeldTooLarge(s, u, key)
  {
    var raw :| |raw| > MAX_SERIALIZED_BYTES && HeldMeanwhile(t, u, key, raw);
    HeldEarlier(s, t, u, key, raw);
  }

  /** One read, and one attempt to fence the key if it is absent. `end` says that there is no next one. */
  method ReadOrReserveOnce(kv: HomeKV, p: Encoder, key: Key)
    returns (raw: Option<Bytes>, end: bool, ghost absent: C.State<Bytes>)
    requires kv.Valid() && Lawful(p, kv.wire)
    modifies kv, kv.supply
    ensures kv.Valid() && C.Leads(old(kv.Abs()), kv.Abs())
    ensures raw.Some? ==>
      && HeldMeanwhile(old(kv.Abs()), kv.Abs(), key, raw.value)
      && (kv.mine == old(kv.mine) || Fenced(old(kv.Abs()), kv.Abs(), old(kv.mine), kv.mine, key, raw.value))
    ensures raw.None? ==> AtMostFenced(old(kv.Abs()), kv.Abs(), old(kv.mine), kv.mine, key)
    ensures kv.lost >= old(kv.lost) && kv.others >= old(kv.others)
    ensures !end ==> kv.lost == old(kv.lost)
    ensures raw.None? && end ==> kv.lost > old(kv.lost) || HeldTooLarge(old(kv.Abs()), kv.Abs(), key)
    ensures raw.None? && !end ==>
      && kv.mine == old(kv.mine)
      && C.Leads(old(kv.Abs()), absent) && key !in absent.cells && C.Leads(absent, kv.Abs()) && key in kv.Abs().cells
    ensures kv.lost == old(kv.lost) && kv.others == old(kv.others) ==>
      if key !in old(kv.store) then raw.Some? && kv.mine != old(kv.mine)
      else kv.mine == old(kv.mine) && raw == AsRead(old(kv.store)[key]) && (end || raw.Some?)
  {
    var got := kv.KVGet(key);
    absent := kv.Abs();
    if got.Lost? {
      return None, true, absent;
    }
    if got.value.Some? {
      HeldNow(old(kv.Abs()), kv.Abs(), key, got.value.value);
      if |got.value.value| > MAX_SERIALIZED_BYTES {
        return None, true, absent;
      }
      return got.value, false, absent;
    }
    var tombstone, swapped := Reserve(kv, p, key);
    C.LeadsTransitive(old(kv.Abs()), absent, kv.Abs());
    if kv.mine != old(kv.mine) { FencedEarlier(old(kv.Abs()), absent, kv.Abs(), old(kv.mine), kv.mine, key, tombstone); }
    if swapped.Lost? {
      return None, true, absent;
    }
    if swapped.value {
      HeldNow(old(kv.Abs()), kv.Abs(), key, tombstone);
      return Some(tombstone), false, absent;
    }
    raw, end := None, false;
  }

  method Reserve(kv: HomeKV, p: Encoder, key: Key) returns (tombstone: Bytes, swapped: Reply<bool>)
    requires kv.Valid() && Lawful(p, kv.wire)
    modifies kv, kv.supply
    ensures kv.Valid() && C.Leads(old(kv.Abs()), kv.Abs())
    ensures kv.mine == old(kv.mine) || Fenced(old(kv.Abs()), kv.Abs(), old(kv.mine), kv.mine, key, tombstone)
    ensures swapped == Answer(true) ==> kv.mine != old(kv.mine) && Finds(kv.Abs(), key, Some(tombstone))
    ensures swapped == Answer(false) ==> kv.mine == old(kv.mine) && key in kv.Abs().cells
    ensures kv.lost == old(kv.lost) + (if swapped.Lost? then 1 else 0) && kv.others >= old(kv.others)
    ensures kv.others == old(kv.others) && swapped.Answer? ==> swapped.value == (key !in old(kv.store))
  {
    var generation := kv.Draw();
    tombstone := p.encode(generation, true, []);
    ghost var s0: C.State<Bytes>, drawn0 := kv.Abs(), kv.supply.drawn;
    C.LeadsRefl(s0);
    swapped := kv.KVCompareAndSwap(key, None, tombstone);
    if kv.mine != old(kv.mine) {
      SwapOpens(kv.wire, s0, s0, kv.Abs(), drawn0, old(kv.mine), kv.mine, key, tombstone);
    }
  }

  /** What a request is left with when its read failed; the caller does not use it. */
  const FAILED_READ := K.NO_SNAPSHOT.(loaded := true)

  /**
   Either fails, or pins the raw value `key` held at some moment of the call.
   A legacy array without a generation is recorded with the empty generation.
   A lost reply to the refresh of the lifetime is not a failure. The only write
   of its own is the tombstone that fences an absent key.
   */
  method GetWithSnapshot(kv: HomeKV, p: Encoder, key: Key)
    returns (content: Option<Bytes>, snap: K.KimiSnapshot, failed: bool)
    requires kv.Valid() && Lawful(p, kv.wire)
    modifies kv, kv.supply
    ensures kv.Valid() && C.Leads(old(kv.Abs()), kv.Abs())
    ensures key == "" ==> content == None && snap == K.NO_SNAPSHOT && !failed && kv.mine == old(kv.mine)
    ensures failed ==> content == None
    ensures key != "" ==> snap.loaded && (snap.found || (failed && snap == FAILED_READ))
    ensures key != "" && snap.found ==>
      && HeldMeanwhile(old(kv.Abs()), kv.Abs(), key, snap.raw)
      && (kv.mine == old(kv.mine) || Fenced(old(kv.Abs()), kv.Abs(), old(kv.mine), kv.mine, key, snap.raw))
    ensures key != "" && !snap.found ==> AtMostFenced(old(kv.Abs()), kv.Abs(), old(kv.mine), kv.mine, key)
    ensures key != "" && !failed ==>
      && C.Issued(kv.Abs(), key, RawView(snap))
      && var c := CellOf(kv.wire, snap.raw);
         if c.deleted then content == None else content.Some? && c.items == [content.value]
    // It fails only over a lost reply, lost races, or a value it cannot take.
    ensures failed ==>
      || kv.lost > old(kv.lost) || RacedOut(old(kv.Abs()), kv.Abs(), key, ATTEMPTS)
      || HeldTooLarge(old(kv.Abs()), kv.Abs(), key) || (snap.found && kv.wire.decode(snap.raw).Undecodable?)
    ensures key != "" && kv.lost == old(kv.lost) && kv.others == old(kv.others) && key in old(kv.store) ==>
      && kv.mine == old(kv.mine)
      && (failed <==> |old(kv.store)[key]| > MAX_SERIALIZED_BYTES || kv.wire.decode(old(kv.store)[key]).Undecodable?)
      && (!failed ==> snap.raw == old(kv.store)[key])
  {
    C.LeadsRefl(kv.Abs());
    if key == "" {
      return None, K.NO_SNAPSHOT, false;
    }
    var raw := ReadOrReserve(kv, p, key);
    if raw.None? {
      return None, FAILED_READ, true;
    }
    content, snap, failed := Inspect(kv, p, old(kv.Abs()), old(kv.mine), key, raw.value);
  }

  /** What the raw value shows to the request, after its lifetime was refreshed. */
  method Inspect(kv: HomeKV, p: Encoder, ghost s: C.State<Bytes>, ghost was: Ledger, key: Key, raw: Bytes)
    returns (content: Option<Bytes>, snap: K.KimiSnapshot, failed: bool)
    requires kv.Valid() && Lawful(p, kv.wire) && C.Coherent(s) && C.Leads(s, kv.Abs())
    requires HeldMeanwhile(s, kv.Abs(), key, raw) && (kv.mine == was || Fenced(s, kv.Abs(), was, kv.mine, key, raw))
    modifies kv, kv.supply
    ensures kv.Valid() && C.Leads(s, kv.Abs())
    ensures HeldMeanwhile(s, kv.Abs(), key, raw) && (kv.mine == was || Fenced(s, kv.Abs(), was, kv.mine, key, raw))
    ensures snap.loaded && snap.found && snap.raw == raw && kv.mine == old(kv.mine)
    ensures kv.lost >= old(kv.lost) && kv.others >= old(kv.others)
    ensures failed <==> kv.wire.decode(raw).Undecodable?
    ensures failed ==> content == None
    ensures !failed ==>
      && C.Issued(kv.Abs(), key, RawView(snap))
      && var c := CellOf(kv.wire, raw);
         if c.deleted then content == None else content.Some? && c.items == [content.value]
  {
    snap := K.KimiSnapshot(raw, "", true, true);
    var decoded := kv.wire.decode(raw);
    if decoded.Undecodable? {
      return None, snap, true;
    }
    snap := snap.(generation := decoded.generation);
    ghost var t: C.State<Bytes> := kv.Abs();
    var _ := kv.KVExpire(key);
    C.LeadsTransitive(s, t, kv.Abs());
    HeldLater(s, t, kv.Abs(), key, raw);
    if kv.mine != was { FencedLater(s, t, kv.Abs(), was, kv.mine, key, raw); }
    HeldIsIssued(s, kv.Abs(), kv.wire, kv.supply.drawn, key, raw);
    content := if decoded.deleted then None else Some(decoded.items[0]);
    failed := false;
  }

  /** The only write of its own was the last step, over exactly the raw value the snapshot holds. */
  ghost predicate SwappedOnce(s: C.State<Bytes>, t: C.State<Bytes>, was: Ledger, now: Ledger, key: Key, snap: K.KimiSnapshot,
                              items: seq<Bytes>, deleted: bool)
  {
    exists pre, c :: C.Leads(s, pre) && C.Same(pre, key, RawView(snap)) && C.WriteStep(pre, t, key, c)
      && c.items == items && c.deleted == deleted && Wrote(was, now, key, c)
  }

  /** What a confirmed replacement did: a commit over what was read, or, for an absent key, over its absence. */
  ghost predicate Replaced(s: C.State<Bytes>, t: C.State<Bytes>, was: Ledger, now: Ledger, key: Key, snap: K.KimiSnapshot,
                           items: seq<Bytes>, deleted: bool)
  {
    if snap.found then SwappedOnce(s, t, was, now, key, snap, items, deleted) && C.Committed(s, t, key, RawView(snap))
    else OpenedOnce(s, t, was, now, key, items, deleted)
  }

  lemma SwapCommits(wire: Wire, s: C.State<Bytes>, t: C.State<Bytes>, drawn: set<string>, was: Ledger, now: Ledger,
                    key: Key, snap: K.KimiSnapshot, value: Bytes)
    requires Swapped(wire, s, t, drawn, key, if snap.found then Some(snap.raw) else None, value)
    requires Wrote(was, now, key, CellOf(wire, value))
    ensures Replaced(s, t, was, now, key, snap, CellOf(wire, value).items, CellOf(wire, value).deleted)
  {
    C.LeadsRefl(s);
    if snap.found {
      var pre :| C.Leads(s, pre) && Finds(pre, key, Some(snap.raw)) && C.WriteStep(pre, t, key, CellOf(wire, value));
      C.LeadsRefl(t);
      C.CommittedBy(s, pre, t, t, key, RawView(snap), CellOf(wire, value));
    } else {
      SwapOpens(wire, s, s, t, drawn, was, now, key, value);
    }
  }

  /** A call that is not confirmed may have stored the content once, because replies get lost. */
  method Cache(kv: HomeKV, p: Encoder, key: Key, content: Bytes, valid: bool) returns (ok: bool)
    requires kv.Valid() && Lawful(p, kv.wire)
    modifies kv, kv.supply
    ensures kv.Valid() && C.Leads(old(kv.Abs()), kv.Abs())
    ensures key == "" || !valid ==> !ok && kv.mine == old(kv.mine)
    ensures (!ok && kv.mine == old(kv.mine))
      || OverwroteOnce(old(kv.Abs()), kv.Abs(), old(kv.mine), kv.mine, key, Stored(p, content), false)
    ensures kv.lost >= old(kv.lost) && (key != "" && valid ==> ok || kv.lost > old(kv.lost))
  {
    C.LeadsRefl(kv.Abs());
    if key == "" || !valid {
      return false;
    }
    var generation := kv.Draw();
    var raw := p.encode(generation, false, content);
    var written := kv.KVSet(key, raw);
    ok := written == Answer(true);
  }

  /**
   `valid` says whether the content passes the size and shape check. Confirmed,
   exactly one replacement took place; refused, nothing was written; failed, at
   most that replacement.
   */
  method ReplaceIfUnchanged(kv: HomeKV, p: Encoder, key: Key, snapshot: K.KimiSnapshot, content: Bytes, valid: bool)
    returns (ok: bool, failed: bool)
    requires kv.Valid() && Lawful(p, kv.wire)
    modifies kv, kv.supply
    ensures kv.Valid() && C.Leads(old(kv.Abs()), kv.Abs())
    ensures key == "" || !valid ==> !ok && !failed && kv.mine == old(kv.mine)
    ensures ok ==> !failed && kv.mine != old(kv.mine)
    ensures !snapshot.loaded && kv.mine != old(kv.mine) ==>
      OverwroteOnce(old(kv.Abs()), kv.Abs(), old(kv.mine), kv.mine, key, Stored(p, content), false)
    ensures snapshot.loaded && kv.mine != old(kv.mine) ==>
      (ok || failed) && Replaced(old(kv.Abs()), kv.Abs(), old(kv.mine), kv.mine, key, snapshot, Stored(p, content), false)
    // Valid input fails only over a lost reply, and is refused only if the key did not hold what was read.
    ensures kv.lost >= old(kv.lost) && (failed ==> kv.lost > old(kv.lost))
    ensures key != "" && valid && !ok && !failed ==>
      if snapshot.loaded then MissedMeanwhile(old(kv.Abs()), kv.Abs(), key, Pinned(snapshot)) else kv.lost > old(kv.lost)
    ensures kv.lost == old(kv.lost) && kv.others == old(kv.others) && key != "" && valid && snapshot.loaded ==>
      (ok <==> Finds(old(kv.Abs()), key, Pinned(snapshot)))
  {
    C.LeadsRefl(kv.Abs());
    if key == "" || !valid {
      return false, false;
    }
    if !snapshot.loaded {
      ok := Cache(kv, p, key, content, valid);
      return ok, false;
    }
    var generation := kv.Draw();
    var raw := p.encode(generation, false, content);
    ok, failed := Commit(kv, key, snapshot, raw, generation);
  }

  function Pinned(snap: K.KimiSnapshot): Option<Bytes> {
    if snap.found then Some(snap.raw) else None
  }

  /** The compare-and-swap both conditional operations end in. */
  method Commit(kv: HomeKV, key: Key, snapshot: K.KimiSnapshot, raw: Bytes, ghost generation: string) returns (ok: bool, failed: bool)
    requires kv.Valid() && CellOf(kv.wire, raw).branch == "" && GenerationOf(kv.wire, raw) == generation
    requires N.IsNonce(generation) && generation in kv.supply.drawn && NotUsedYet(kv.wire, kv.log, generation)
    modifies kv, kv.supply
    ensures kv.Valid() && C.Leads(old(kv.Abs()), kv.Abs())
    ensures ok ==> !failed && kv.mine != old(kv.mine)
    ensures kv.mine != old(kv.mine) ==>
      && (ok || failed)
      && Replaced(old(kv.Abs()), kv.Abs(), old(kv.mine), kv.mine, key, snapshot,
                  CellOf(kv.wire, raw).items, CellOf(kv.wire, raw).deleted)
    ensures kv.lost == old(kv.lost) + if failed then 1 else 0
    ensures !ok && !failed ==> MissedMeanwhile(old(kv.Abs()), kv.Abs(), key, Pinned(snapshot))
    ensures kv.others == old(kv.others) && !failed ==> (ok <==> Finds(old(kv.Abs()), key, Pinned(snapshot)))
  {
    ghost var s0: C.State<Bytes>, drawn0 := kv.Abs(), kv.supply.drawn;
    var swapped := kv.KVCompareAndSwap(key, if snapshot.found then Some(snapshot.raw) else None, raw);
    C.LeadsRefl(kv.Abs());
    ok, failed := swapped.Answer? && swapped.value, swapped.Lost?;
    if kv.mine != old(kv.mine) {
      SwapCommits(kv.wire, s0, kv.Abs(), drawn0, old(kv.mine), kv.mine, key, snapshot, raw);
    }
  }

  method DeleteIfUnchanged(kv: HomeKV, p: Encoder, key: Key, snapshot: K.KimiSnapshot) returns (ok: bool, failed: bool)
    requires kv.Valid() && Lawful(p, kv.wire)
    modifies kv, kv.supply
    ensures kv.Valid() && C.Leads(old(kv.Abs()), kv.Abs())
    ensures key == "" ==> !ok && !failed && kv.mine == old(kv.mine)
    ensures ok && !failed ==> kv.mine != old(kv.mine)
    ensures !snapshot.loaded && kv.mine != old(kv.mine) ==>
      ok && OverwroteOnce(old(kv.Abs()), kv.Abs(), old(kv.mine), kv.mine, key, [], true)
    ensures snapshot.loaded && ok ==> !failed
    ensures snapshot.loaded && kv.mine != old(kv.mine) ==>
      (ok || failed) && Replaced(old(kv.Abs()), kv.Abs(), old(kv.mine), kv.mine, key, snapshot, [], true)
    ensures failed ==> kv.lost > old(kv.lost)
    ensures key != "" && !ok && !failed ==>
      snapshot.loaded && MissedMeanwhile(old(kv.Abs()), kv.Abs(), key, Pinned(snapshot))
    ensures kv.lost == old(kv.lost) && kv.others == old(kv.others) && key != "" && snapshot.loaded ==>
      (ok <==> Finds(old(kv.Abs()), key, Pinned(snapshot)))
  {
    C.LeadsRefl(kv.Abs());
    if key == "" {
      return false, false;
    }
    var generation := kv.Draw();
    var raw := p.encode(generation, true, []);
    if !snapshot.loaded {
      var written := kv.KVSet(key, raw);
      return true, written.Lost?;
    }
    ok, failed := Commit(kv, key, snapshot, raw, generation);
  }
}
