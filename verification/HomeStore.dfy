/**
 The remote key-value store as one client of the replay protocol sees it:
 atomic get, set and compare-and-swap on raw values, and between any two calls
 any number of steps by other clients or of key expiry.
 */
module HomeStore {
  import opened Base
  import opened ReplayItems
  import opened Contention
  import C = FencedChain
  import N = NonceSupply

  datatype Decoded = Undecodable | Decoded(items: seq<Bytes>, deleted: bool, generation: string, branch: string)

  /**
   How a client reads raw values, the generation each was printed with (empty
   if it has none), and how single items are normalized. A value keeps its
   generation even if its content does not decode.
   */
  datatype Wire = Wire(decode: Bytes -> Decoded, tag: Bytes -> string, normalizer: Normalizer)

  /** The cell a raw value stands for; the raw value itself is the stamp. */
  ghost function CellOf(wire: Wire, raw: Bytes): C.Cell<Bytes> {
    match wire.decode(raw)
    case Undecodable => C.Cell(raw, "", [], false)
    case Decoded(items, deleted, _, branch) => C.Cell(raw, branch, if deleted then [] else items, deleted)
  }

  ghost function GenerationOf(wire: Wire, raw: Bytes): string {
    wire.tag(raw)
  }

  ghost function Cells(wire: Wire, store: map<Key, Bytes>): map<Key, C.Cell<Bytes>> {
    map k | k in store :: CellOf(wire, store[k])
  }

  /** No value written so far carries `g` as its generation or its branch. */
  ghost predicate NotUsedYet(wire: Wire, log: seq<C.Write<Bytes>>, g: string) {
    forall i | 0 <= i < |log| :: log[i].cell.branch != g && GenerationOf(wire, log[i].cell.stamp) != g
  }

  /** Values on a branch were written by clients of this protocol, so their items are normalized. */
  ghost predicate WellWritten(wire: Wire, log: seq<C.Write<Bytes>>, i: int, drawn: set<string>) {
    0 <= i < |log| ==>
      var c := log[i].cell;
      && c == CellOf(wire, c.stamp)
      && (GenerationOf(wire, c.stamp) == "" || GenerationOf(wire, c.stamp) in drawn)
      && (c.branch != "" ==> c.branch in drawn && N.IsNonce(c.branch) && (c.deleted || Normalized(wire.normalizer, c.items) == Some(c.items)))
  }

  ghost predicate Sound(wire: Wire, s: C.State<Bytes>, drawn: set<string>) {
    && C.Coherent(s)
    && forall i :: WellWritten(wire, s.log, i, drawn)
  }

  /** Nonces drawn but not yet written stay unwritten: other clients use only nonces of their own. */
  ghost predicate Spares(wire: Wire, log: seq<C.Write<Bytes>>, later: seq<C.Write<Bytes>>, drawn: set<string>) {
    && log <= later
    && forall g | g in drawn && NotUsedYet(wire, log, g) :: NotUsedYet(wire, later, g)
  }

  /** `value` carries an unwritten generation, and no branch, an unwritten one, or the chain of `expected`. */
  ghost predicate MayReplace(wire: Wire, log: seq<C.Write<Bytes>>, drawn: set<string>, expected: Option<Bytes>, value: Bytes) {
    var c, g := CellOf(wire, value), GenerationOf(wire, value);
    && N.IsNonce(g) && g in drawn && NotUsedYet(wire, log, g)
    && (c.branch != "" ==>
          && N.IsNonce(c.branch) && c.branch in drawn
          && (c.deleted || Normalized(wire.normalizer, c.items) == Some(c.items)))
    && (|| c.branch == ""
        || (c.branch != g && NotUsedYet(wire, log, c.branch))
        || (&& expected.Some?
            && !c.deleted
            && CellOf(wire, expected.value).branch == c.branch
            && CellOf(wire, expected.value).items <= c.items))
  }

  ghost predicate IsUnchained(wire: Wire, log: seq<C.Write<Bytes>>, value: Bytes) {
    CellOf(wire, value).branch == "" || NotUsedYet(wire, log, CellOf(wire, value).branch)
  }

  ghost predicate Finds(s: C.State<Bytes>, key: Key, expected: Option<Bytes>) {
    if expected.Some? then key in s.cells && s.cells[key].stamp == expected.value else key !in s.cells
  }

  /** A permitted write is one step of the abstract protocol. */
  lemma PermittedWrite(wire: Wire, s: C.State<Bytes>, drawn: set<string>, key: Key, expected: Option<Bytes>, value: Bytes)
    requires Sound(wire, s, drawn) && MayReplace(wire, s.log, drawn, expected, value)
    requires IsUnchained(wire, s.log, value) || Finds(s, key, expected)
    ensures var t := C.Put(s, key, CellOf(wire, value));
      C.WriteStep(s, t, key, CellOf(wire, value)) && C.Next(s, t) && Sound(wire, t, drawn)
    ensures forall g | g in drawn && g != GenerationOf(wire, value) && g != CellOf(wire, value).branch
              && NotUsedYet(wire, s.log, g) :: NotUsedYet(wire, C.Put(s, key, CellOf(wire, value)).log, g)
  {
    var c := CellOf(wire, value);
    var t := C.Put(s, key, c);
    forall i | 0 <= i < |s.log|
      ensures s.log[i].cell.stamp != c.stamp
    {
      assert GenerationOf(wire, s.log[i].cell.stamp) != GenerationOf(wire, value);
    }
    if IsUnchained(wire, s.log, value) {
      assert C.Starts(s, c);
    } else {
      HeldIsItsRaw(wire, s, drawn, key);
      assert C.Continues(s, key, c);
    }
    assert C.WriteStep(s, t, key, c);
    C.WriteKeepsCoherent(s, t, key, c);
    forall i
      ensures WellWritten(wire, t.log, i, drawn)
    {
      assert WellWritten(wire, s.log, i, drawn);
    }
  }

  /** The last step from `s` to `t` wrote `value` over exactly what was expected. */
  ghost predicate Swapped(wire: Wire, s: C.State<Bytes>, t: C.State<Bytes>, drawn: set<string>,
                          key: Key, expected: Option<Bytes>, value: Bytes)
  {
    exists pre :: C.Leads(s, pre) && Finds(pre, key, expected)
                  && Spares(wire, s.log, pre.log, drawn)
                  && C.WriteStep(pre, t, key, CellOf(wire, value))
  }

  lemma SwapLeads(wire: Wire, s: C.State<Bytes>, pre: C.State<Bytes>, t: C.State<Bytes>, drawn: set<string>,
                  key: Key, expected: Option<Bytes>, value: Bytes)
    requires C.Leads(s, pre) && Finds(pre, key, expected) && Spares(wire, s.log, pre.log, drawn)
    requires C.WriteStep(pre, t, key, CellOf(wire, value))
    ensures Swapped(wire, s, t, drawn, key, expected, value) && C.Leads(s, t)
  {
    C.LeadsStep(s, pre, t);
  }

  lemma HeldIsItsRaw(wire: Wire, s: C.State<Bytes>, drawn: set<string>, key: Key)
    requires Sound(wire, s, drawn) && key in s.cells
    ensures s.cells[key] == CellOf(wire, s.cells[key].stamp)
  {
    assert C.IsLastWrite(s, key);
    var i :| C.LatestAt(s, key, i);
    assert WellWritten(wire, s.log, i, drawn);
  }

  lemma DrawKeepsSound(wire: Wire, s: C.State<Bytes>, drawn: set<string>, g: string)
    requires Sound(wire, s, drawn) && N.IsNonce(g)
    ensures Sound(wire, s, drawn + {g})
    ensures g !in drawn ==> NotUsedYet(wire, s.log, g)
  {
    forall i
      ensures WellWritten(wire, s.log, i, drawn + {g})
      ensures 0 <= i < |s.log| && g !in drawn ==>
        s.log[i].cell.branch != g && GenerationOf(wire, s.log[i].cell.stamp) != g
    {
      assert WellWritten(wire, s.log, i, drawn);
    }
  }

  lemma EarlierIsSound(wire: Wire, s: C.State<Bytes>, t: C.State<Bytes>, drawn: set<string>)
    requires Sound(wire, t, drawn) && C.Coherent(s) && s.log <= t.log
    ensures Sound(wire, s, drawn)
  {
    forall i
      ensures WellWritten(wire, s.log, i, drawn)
    {
      assert WellWritten(wire, t.log, i, drawn);
    }
  }

  /** Between `s` and `t` there was a moment when `key` held exactly `raw`. */
  ghost predicate HeldMeanwhile(s: C.State<Bytes>, t: C.State<Bytes>, key: Key, raw: Bytes) {
    exists mid :: C.Leads(s, mid) && C.Leads(mid, t) && Finds(mid, key, Some(raw))
  }

  lemma HeldNow(s: C.State<Bytes>, t: C.State<Bytes>, key: Key, raw: Bytes)
    requires C.Leads(s, t) && Finds(t, key, Some(raw))
    ensures HeldMeanwhile(s, t, key, raw)
  {
    C.LeadsRefl(t);
  }

  lemma HeldLater(s: C.State<Bytes>, t: C.State<Bytes>, u: C.State<Bytes>, key: Key, raw: Bytes)
    requires HeldMeanwhile(s, t, key, raw) && C.Leads(t, u)
    ensures HeldMeanwhile(s, u, key, raw)
  {
    var mid :| C.Leads(s, mid) && C.Leads(mid, t) && Finds(mid, key, Some(raw));
    C.LeadsTransitive(mid, t, u);
  }

  lemma HeldEarlier(s: C.State<Bytes>, t: C.State<Bytes>, u: C.State<Bytes>, key: Key, raw: Bytes)
    requires C.Leads(s, t) && HeldMeanwhile(t, u, key, raw)
    ensures HeldMeanwhile(s, u, key, raw)
  {
    var mid :| C.Leads(t, mid) && C.Leads(mid, u) && Finds(mid, key, Some(raw));
    C.LeadsTransitive(s, t, mid);
  }

  /** What one client wrote itself, in order. */
  type Ledger = seq<C.Write<Bytes>>

  /** One write of the client's own went from `was` to `now`. */
  ghost predicate Wrote(was: Ledger, now: Ledger, key: Key, c: C.Cell<Bytes>) {
    now == was + [C.Write(key, c)]
  }

  /** The client's only own step from `s` to `t` was the last one, an unconditional write that opens no old chain. */
  ghost predicate OverwroteOnce(s: C.State<Bytes>, t: C.State<Bytes>, was: Ledger, now: Ledger,
                                key: Key, items: seq<Bytes>, deleted: bool)
  {
    exists pre, c :: C.Leads(s, pre) && C.Starts(pre, c) && c.items == items && c.deleted == deleted
      && t == C.Put(pre, key, c) && Wrote(was, now, key, c)
  }

  /** The client's only own step was the last one, and it wrote over an absent key on no old chain. */
  ghost predicate OpenedOnce(s: C.State<Bytes>, t: C.State<Bytes>, was: Ledger, now: Ledger,
                             key: Key, items: seq<Bytes>, deleted: bool)
  {
    exists pre, c :: C.Leads(s, pre) && key !in pre.cells && C.Starts(pre, c) && c.items == items && c.deleted == deleted
      && t == C.Put(pre, key, c) && Wrote(was, now, key, c)
  }

  /** The client's only own step was to put the tombstone `raw` at an absent key. */
  ghost predicate Fenced(s: C.State<Bytes>, t: C.State<Bytes>, was: Ledger, now: Ledger, key: Key, raw: Bytes) {
    exists pre, c :: C.Leads(s, pre) && key !in pre.cells && C.Starts(pre, c) && c.deleted && c.stamp == raw
      && Wrote(was, now, key, c) && C.Leads(C.Put(pre, key, c), t)
  }

  ghost predicate AtMostFenced(s: C.State<Bytes>, t: C.State<Bytes>, was: Ledger, now: Ledger, key: Key) {
    now == was || exists raw :: Fenced(s, t, was, now, key, raw)
  }

  lemma FencedLater(s: C.State<Bytes>, t: C.State<Bytes>, u: C.State<Bytes>, was: Ledger, now: Ledger, key: Key, raw: Bytes)
    requires Fenced(s, t, was, now, key, raw) && C.Leads(t, u)
    ensures Fenced(s, u, was, now, key, raw)
  {
    var pre, c :| C.Leads(s, pre) && key !in pre.cells && C.Starts(pre, c) && c.deleted && c.stamp == raw
                  && Wrote(was, now, key, c) && C.Leads(C.Put(pre, key, c), t);
    C.LeadsTransitive(C.Put(pre, key, c), t, u);
  }

  lemma FencedEarlier(s: C.State<Bytes>, t: C.State<Bytes>, u: C.State<Bytes>, was: Ledger, now: Ledger, key: Key, raw: Bytes)
    requires C.Leads(s, t) && Fenced(t, u, was, now, key, raw)
    ensures Fenced(s, u, was, now, key, raw)
  {
    var pre, c :| C.Leads(t, pre) && key !in pre.cells && C.Starts(pre, c) && c.deleted && c.stamp == raw
                  && Wrote(was, now, key, c) && C.Leads(C.Put(pre, key, c), u);
    C.LeadsTransitive(s, t, pre);
  }

  /** A swap over an absent key with an unchained value. */
  lemma SwapOpens(wire: Wire, s: C.State<Bytes>, mid: C.State<Bytes>, t: C.State<Bytes>, drawn: set<string>,
                  was: Ledger, now: Ledger, key: Key, value: Bytes)
    requires C.Leads(s, mid) && Swapped(wire, mid, t, drawn, key, None, value)
    requires Wrote(was, now, key, CellOf(wire, value))
    ensures OpenedOnce(s, t, was, now, key, CellOf(wire, value).items, CellOf(wire, value).deleted)
    ensures CellOf(wire, value).deleted ==> Fenced(s, t, was, now, key, value)
  {
    var c := CellOf(wire, value);
    var pre :| C.Leads(mid, pre) && Finds(pre, key, None) && Spares(wire, mid.log, pre.log, drawn)
               && C.WriteStep(pre, t, key, c);
    C.LeadsTransitive(s, mid, pre);
    C.LeadsRefl(t);
  }

  /** The order of the states of a run. */
  ghost function Earlier(): (C.State<Bytes>, C.State<Bytes>) -> bool {
    (s, t) => C.Leads(s, t)
  }

  lemma EarlierIsOrder()
    ensures Order(Earlier())
  {
    forall s
      ensures Earlier()(s, s)
    {
      C.LeadsRefl(s);
    }
    forall s, t, u | Earlier()(s, t) && Earlier()(t, u)
      ensures Earlier()(s, u)
    {
      C.LeadsTransitive(s, t, u);
    }
  }

  type Races = seq<Race<C.State<Bytes>>>

  lemma OneMoreRace(lost: (C.State<Bytes>, C.State<Bytes>, nat) -> bool, s: C.State<Bytes>, races: Races, at: C.State<Bytes>,
                    held: C.State<Bytes>, gone: C.State<Bytes>, t: C.State<Bytes>)
    requires LostInTurn(Earlier(), lost, s, races, at) && C.Leads(at, held)
    requires C.Leads(held, gone) && lost(held, gone, |races|) && C.Leads(gone, t)
    ensures LostInTurn(Earlier(), lost, s, races + [Race(held, gone)], t)
  {
    EarlierIsOrder();
    LostLater(Earlier(), lost, s, races, at, held);
    LostOneMore(Earlier(), lost, s, races, held, gone, t);
  }

  lemma FirstOfRaces(lost: (C.State<Bytes>, C.State<Bytes>, nat) -> bool, s: C.State<Bytes>, races: Races, t: C.State<Bytes>)
    requires LostInTurn(Earlier(), lost, s, races, t) && races != []
    ensures lost(races[0].held, races[0].gone, 0) && C.Leads(s, races[0].gone) && C.Leads(races[0].gone, t)
  {
    EarlierIsOrder();
    FirstRace(Earlier(), lost, s, races, t);
  }

  /** The key was absent, and then it was there. */
  ghost function Filled(key: Key): (C.State<Bytes>, C.State<Bytes>, nat) -> bool {
    (absent: C.State<Bytes>, present: C.State<Bytes>, n: nat) => key !in absent.cells && key in present.cells
  }

  /** As often as there are races, one after the other, the key was absent and had been filled by the next moment. */
  ghost predicate Raced(s: C.State<Bytes>, races: Races, t: C.State<Bytes>, key: Key) {
    LostInTurn(Earlier(), Filled(key), s, races, t)
  }

  lemma RacedOnceMore(s: C.State<Bytes>, races: Races, t: C.State<Bytes>, absent: C.State<Bytes>, present: C.State<Bytes>, key: Key)
    requires Raced(s, races, t, key) && C.Leads(t, absent)
    requires key !in absent.cells && C.Leads(absent, present) && key in present.cells
    ensures Raced(s, races + [Race(absent, present)], present, key)
  {
    C.LeadsRefl(present);
    OneMoreRace(Filled(key), s, races, t, absent, present, present);
  }

  /** At some moment between `s` and `t` the key did not hold what was expected. */
  ghost predicate MissedMeanwhile(s: C.State<Bytes>, t: C.State<Bytes>, key: Key, expected: Option<Bytes>) {
    exists mid {:trigger Finds(mid, key, expected)} :: C.Leads(s, mid) && C.Leads(mid, t) && !Finds(mid, key, expected)
  }

  /** `n` times in a row the key was absent, and others had filled it before it could be fenced. */
  ghost predicate RacedOut(s: C.State<Bytes>, t: C.State<Bytes>, key: Key, n: nat) {
    exists races | |races| == n :: Raced(s, races, t, key)
  }

  /** What a read found, seen from an earlier state. */
  lemma ReadLater(s: C.State<Bytes>, t: C.State<Bytes>, u: C.State<Bytes>, was: Ledger, now: Ledger, key: Key, raw: Option<Bytes>)
    requires C.Leads(s, t) && C.Leads(t, u)
    requires raw.Some? ==> HeldMeanwhile(t, u, key, raw.value) && (now == was || Fenced(t, u, was, now, key, raw.value))
    requires raw.None? ==> AtMostFenced(t, u, was, now, key)
    ensures C.Leads(s, u)
    ensures raw.Some? ==> HeldMeanwhile(s, u, key, raw.value) && (now == was || Fenced(s, u, was, now, key, raw.value))
    ensures raw.None? ==> AtMostFenced(s, u, was, now, key)
  {
    C.LeadsTransitive(s, t, u);
    if raw.Some? {
      HeldEarlier(s, t, u, key, raw.value);
      if now != was { FencedEarlier(s, t, u, was, now, key, raw.value); }
    } else if now != was {
      var r :| Fenced(t, u, was, now, key, r);
      FencedEarlier(s, t, u, was, now, key, r);
    }
  }

  /** A reply that never arrived says nothing about whether the command took effect. */
  datatype Reply<T> = Lost | Answer(value: T)

  class HomeKV {
    const wire: Wire
    const supply: N.Supply
    var store: map<Key, Bytes>
    ghost var log: seq<C.Write<Bytes>>
    /** The writes of this client among them. Only `Write` adds to it. */
    ghost var mine: Ledger
    /** How many replies were lost, and how many steps others took. */
    ghost var lost: nat
    ghost var others: nat

    ghost function Abs(): C.State<Bytes>
      reads this
    {
      C.State(Cells(wire, store), log)
    }

    ghost predicate Valid()
      reads this, supply
    {
      Sound(wire, Abs(), supply.drawn)
    }

    constructor (wire: Wire, supply: N.Supply)
      ensures Valid() && this.wire == wire && this.supply == supply && store == map[] && log == []
      ensures mine == [] && lost == 0 && others == 0
    {
      this.wire := wire;
      this.supply := supply;
      store := map[];
      log := [];
      mine := [];
      lost, others := 0, 0;
    }

    /** Other clients and key expiry. This client's calls see only the contract. */
    method Interfere()
      requires Valid()
      modifies this, supply
      ensures Valid() && C.Leads(old(Abs()), Abs())
      ensures old(supply.drawn) <= supply.drawn
      ensures Spares(wire, old(log), log, old(supply.drawn)) && mine == old(mine)
      ensures lost == old(lost) && others >= old(others)
      ensures others == old(others) ==> store == old(store) && log == old(log)
    {
      C.LeadsRefl(Abs());
    }

    method Draw() returns (g: string)
      requires Valid()
      modifies supply
      ensures Valid() && N.IsNonce(g) && g !in old(supply.drawn) && supply.drawn == old(supply.drawn) + {g}
      ensures NotUsedYet(wire, log, g)
    {
      g := supply.Draw();
      DrawKeepsSound(wire, Abs(), old(supply.drawn), g);
    }

    method KVGet(key: Key) returns (r: Reply<Option<Bytes>>)
      requires Valid()
      modifies this, supply
      ensures Valid() && C.Leads(old(Abs()), Abs())
      ensures old(supply.drawn) <= supply.drawn
      ensures Spares(wire, old(log), log, old(supply.drawn)) && mine == old(mine)
      ensures lost == old(lost) + (if r.Lost? then 1 else 0) && others >= old(others)
      ensures others == old(others) ==> store == old(store) && log == old(log)
      ensures r.Answer? ==> r.value == if key in store then Some(store[key]) else None
    {
      Interfere();
      if * {
        lost := lost + 1;
        return Lost;
      }
      r := Answer(if key in store then Some(store[key]) else None);
    }

    method KVExpire(key: Key) returns (r: Reply<bool>)
      requires Valid()
      modifies this, supply
      ensures Valid() && C.Leads(old(Abs()), Abs())
      ensures old(supply.drawn) <= supply.drawn
      ensures Spares(wire, old(log), log, old(supply.drawn)) && mine == old(mine)
      ensures lost == old(lost) + (if r.Lost? then 1 else 0) && others >= old(others)
      ensures others == old(others) ==> store == old(store) && log == old(log)
    {
      Interfere();
      if * {
        lost := lost + 1;
        return Lost;
      }
      r := Answer(key in store);
    }

    method Write(key: Key, ghost expected: Option<Bytes>, value: Bytes)
      requires Valid() && MayReplace(wire, log, supply.drawn, expected, value)
      requires IsUnchained(wire, log, value) || Finds(Abs(), key, expected)
      modifies this`store, this`log, this`mine
      ensures Valid() && C.WriteStep(old(Abs()), Abs(), key, CellOf(wire, value)) && C.Next(old(Abs()), Abs())
      ensures Wrote(old(mine), mine, key, CellOf(wire, value))
    {
      PermittedWrite(wire, Abs(), supply.drawn, key, expected, value);
      store := store[key := value];
      log := log + [C.Write(key, CellOf(wire, value))];
      mine := mine + [C.Write(key, CellOf(wire, value))];
      assert Cells(wire, store) == Cells(wire, old(store))[key := CellOf(wire, value)];
    }

    method KVSet(key: Key, value: Bytes) returns (r: Reply<bool>)
      requires Valid() && MayReplace(wire, log, supply.drawn, None, value)
      modifies this, supply
      ensures Valid() && C.Leads(old(Abs()), Abs())
      ensures r.Answer? ==> r.value
      ensures (r.Lost? && mine == old(mine))
        || OverwroteOnce(old(Abs()), Abs(), old(mine), mine, key, CellOf(wire, value).items, CellOf(wire, value).deleted)
      ensures lost == old(lost) + if r.Lost? then 1 else 0
    {
      Interfere();
      ghost var pre: C.State<Bytes> := Abs();
      ghost var c: C.Cell<Bytes> := CellOf(wire, value);
      if * {
        lost := lost + 1;
        return Lost;
      }
      assert MayReplace(wire, log, supply.drawn, None, value);
      Write(key, None, value);
      C.LeadsStep(old(Abs()), pre, Abs());
      if * {
        lost := lost + 1;
        return Lost;
      }
      r := Answer(true);
    }

    /** One atomic comparison and write; a lost reply may hide either outcome. */
    method KVCompareAndSwap(key: Key, expected: Option<Bytes>, value: Bytes) returns (r: Reply<bool>)
      requires Valid() && MayReplace(wire, log, supply.drawn, expected, value)
      modifies this, supply
      ensures Valid() && C.Leads(old(Abs()), Abs())
      ensures old(supply.drawn) <= supply.drawn
      ensures r == Answer(false) ==> Spares(wire, old(log), log, old(supply.drawn)) && mine == old(mine)
      ensures r != Answer(false) ==>
        || (r.Lost? && mine == old(mine))
        || (&& Wrote(old(mine), mine, key, CellOf(wire, value))
            && Swapped(wire, old(Abs()), Abs(), old(supply.drawn), key, expected, value))
      ensures lost == old(lost) + (if r.Lost? then 1 else 0) && others >= old(others)
      ensures r == Answer(false) ==> !Finds(Abs(), key, expected)
      // Left alone, the answer is about the state the call began in.
      ensures others == old(others) && r.Answer? ==> r.value == Finds(old(Abs()), key, expected)
      ensures others == old(others) && mine == old(mine) ==> store == old(store) && log == old(log)
    {
      Interfere();
      ghost var pre: C.State<Bytes> := Abs();
      var drops: bool := *;
      if drops { lost := lost + 1; }
      var swapped := SwapIfReached(key, expected, value, drops);
      if mine != old(mine) { SwapLeads(wire, old(Abs()), pre, Abs(), old(supply.drawn), key, expected, value); }
      r := if drops then Lost else Answer(swapped);
    }

    /** The comparison and the write, unless the command itself is lost. */
    method SwapIfReached(key: Key, expected: Option<Bytes>, value: Bytes, drops: bool) returns (swapped: bool)
      requires Valid() && MayReplace(wire, log, supply.drawn, expected, value)
      modifies this`store, this`log, this`mine
      ensures Valid() && (swapped ==> Finds(old(Abs()), key, expected))
      ensures !drops ==> (swapped <==> Finds(old(Abs()), key, expected))
      ensures if swapped then
          Wrote(old(mine), mine, key, CellOf(wire, value)) && C.WriteStep(old(Abs()), Abs(), key, CellOf(wire, value))
        else store == old(store) && log == old(log) && mine == old(mine)
    {
      var matches := if expected.Some? then key in store && store[key] == expected.value else key !in store;
      var reached: bool := *;
      swapped := matches && (!drops || reached);
      if swapped { Write(key, expected, value); }
    }
  }
}
