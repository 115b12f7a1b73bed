/**
 The protocol both replay caches implement, without their storage.

 A key holds at most one cell. Every write carries a stamp nobody used before.
 A write either starts a new branch or extends the chain of the cell it
 replaces; any set of keys may be dropped at any time. A reader keeps a
 snapshot of the cell it saw, and may later publish over it or retire it.

 The log records every write in order. It is a history variable: no operation
 consults it, and the local and the Home cache both maintain it.
 */
module FencedChain {
  import opened Base

  /** `branch == ""` marks a value outside every chain. */
  datatype Cell<S> = Cell(stamp: S, branch: string, items: seq<Bytes>, deleted: bool)

  datatype Write<S> = Write(key: Key, cell: Cell<S>)

  datatype State<S> = State(cells: map<Key, Cell<S>>, log: seq<Write<S>>)

  datatype Snapshot<S> = Snapshot(stamp: S, branch: string, items: seq<Bytes>)

  ghost predicate UnusedStamp<S>(log: seq<Write<S>>, stamp: S) {
    forall i | 0 <= i < |log| :: log[i].cell.stamp != stamp
  }

  ghost predicate UnusedBranch<S>(log: seq<Write<S>>, branch: string) {
    forall i | 0 <= i < |log| :: log[i].cell.branch != branch
  }

  ghost function Put<S>(s: State<S>, k: Key, c: Cell<S>): State<S> {
    State(s.cells[k := c], s.log + [Write(k, c)])
  }

  ghost function Drop<S>(s: State<S>, gone: set<Key>): State<S> {
    State(s.cells - gone, s.log)
  }

  /** `c` opens a branch of its own (or none). */
  ghost predicate Starts<S>(s: State<S>, c: Cell<S>) {
    && UnusedStamp(s.log, c.stamp)
    && (c.branch == "" || UnusedBranch(s.log, c.branch))
    && (c.deleted ==> c.items == [])
  }

  /** `c` continues the chain of the cell it replaces. */
  ghost predicate Continues<S>(s: State<S>, k: Key, c: Cell<S>) {
    && UnusedStamp(s.log, c.stamp)
    && k in s.cells
    && c.branch == s.cells[k].branch != ""
    && s.cells[k].items <= c.items
    && !c.deleted
  }

  ghost predicate WriteStep<S>(s: State<S>, t: State<S>, k: Key, c: Cell<S>) {
    && (Starts(s, c) || Continues(s, k, c))
    && t == Put(s, k, c)
  }

  ghost predicate DropStep<S>(s: State<S>, t: State<S>, gone: set<Key>) {
    t == Drop(s, gone)
  }

  ghost predicate Next<S(!new)>(s: State<S>, t: State<S>) {
    || (exists k, c :: WriteStep(s, t, k, c))
    || (exists gone :: DropStep(s, t, gone))
  }

  /** A run: consecutive states are linked by steps. Reads change nothing and need no step. */
  ghost predicate Run<S(!new)>(run: seq<State<S>>) {
    && |run| > 0
    && forall i | 0 <= i < |run| - 1 :: Next(run[i], run[i + 1])
  }

  ghost predicate Leads<S(!new)>(s: State<S>, t: State<S>) {
    exists run :: Run(run) && run[0] == s && run[|run| - 1] == t
  }

  ghost predicate StampsDiffer<S>(log: seq<Write<S>>, i: int, j: int) {
    0 <= i < j < |log| ==> log[i].cell.stamp != log[j].cell.stamp
  }

  ghost predicate SameChain<S>(log: seq<Write<S>>, i: int, j: int) {
    0 <= i < j < |log| && log[i].cell.branch == log[j].cell.branch != "" ==>
      && log[i].key == log[j].key
      && !log[j].cell.deleted
      && log[i].cell.items <= log[j].cell.items
  }

  ghost predicate TombstoneIsEmpty<S>(log: seq<Write<S>>, i: int) {
    0 <= i < |log| && log[i].cell.deleted ==> log[i].cell.items == []
  }

  ghost predicate LatestAt<S>(s: State<S>, k: Key, i: int) {
    && k in s.cells
    && 0 <= i < |s.log|
    && s.log[i] == Write(k, s.cells[k])
    && forall j | i < j < |s.log| :: s.log[j].key != k
  }

  ghost predicate IsLastWrite<S>(s: State<S>, k: Key) {
    k in s.cells ==> exists i :: LatestAt(s, k, i)
  }

  /**
   What every run keeps: stamps are never reused, a branch belongs to one key,
   its item lists only grow, and a stored cell is the last write to its key.
   */
  ghost predicate Coherent<S>(s: State<S>) {
    && (forall i, j :: StampsDiffer(s.log, i, j))
    && (forall i, j :: SameChain(s.log, i, j))
    && (forall i :: TombstoneIsEmpty(s.log, i))
    && (forall k :: IsLastWrite(s, k))
  }

  /** `snap` is what a reader of `k` took from some write. Outside a chain its items are not used. */
  ghost predicate IssuedAt<S>(s: State<S>, k: Key, snap: Snapshot<S>, i: int) {
    && 0 <= i < |s.log|
    && s.log[i].key == k
    && s.log[i].cell.stamp == snap.stamp
    && s.log[i].cell.branch == snap.branch
    && (snap.branch != "" ==> snap.items == s.log[i].cell.items)
  }

  ghost predicate Issued<S>(s: State<S>, k: Key, snap: Snapshot<S>) {
    exists i :: IssuedAt(s, k, snap, i)
  }

  /** The cell is still the very write the snapshot saw. */
  ghost predicate Same<S>(s: State<S>, k: Key, snap: Snapshot<S>) {
    k in s.cells && s.cells[k].stamp == snap.stamp
  }

  ghost predicate Current<S>(s: State<S>, k: Key, snap: Snapshot<S>) {
    && k in s.cells
    && (s.cells[k].stamp == snap.stamp || (snap.branch != "" && s.cells[k].branch == snap.branch))
  }

  /** The publish guard: the same write, or a live descendant whose items lead up to the new ones. */
  ghost predicate Admits<S>(s: State<S>, k: Key, snap: Snapshot<S>, items: seq<Bytes>) {
    || Same(s, k, snap)
    || (&& k in s.cells
        && !s.cells[k].deleted
        && snap.branch != ""
        && s.cells[k].branch == snap.branch
        && s.cells[k].items <= items)
  }

  /** A publish keeps the snapshot's branch exactly when it prolongs what the snapshot read. */
  ghost predicate PublishStep<S>(s: State<S>, t: State<S>, k: Key, snap: Snapshot<S>, items: seq<Bytes>, c: Cell<S>) {
    && Admits(s, k, snap, items)
    && t == Put(s, k, c)
    && c.items == items
    && !c.deleted
    && UnusedStamp(s.log, c.stamp)
    && if snap.branch != "" && snap.items <= items then c.branch == snap.branch else UnusedBranch(s.log, c.branch)
  }

  /** Retiring demands the very same write and leaves a tombstone on a branch of its own. */
  ghost predicate RetireStep<S>(s: State<S>, t: State<S>, k: Key, snap: Snapshot<S>, c: Cell<S>) {
    && Same(s, k, snap)
    && t == Put(s, k, c)
    && c.deleted
    && Starts(s, c)
  }

  // ---------------------------------------------------------------- invariant

  lemma WriteKeepsChains<S>(s: State<S>, k: Key, c: Cell<S>, i: int)
    requires Coherent(s) && (Starts(s, c) || Continues(s, k, c))
    ensures SameChain(Put(s, k, c).log, i, |s.log|)
  {
    if 0 <= i < |s.log| && s.log[i].cell.branch == c.branch != "" {
      assert IsLastWrite(s, k);
      var last :| LatestAt(s, k, last);
      assert SameChain(s.log, last, i) && SameChain(s.log, i, last);
      PrefixTransitive(s.log[i].cell.items, s.cells[k].items, c.items);
    }
  }

  lemma WriteKeepsCoherent<S>(s: State<S>, t: State<S>, k: Key, c: Cell<S>)
    requires Coherent(s) && WriteStep(s, t, k, c)
    ensures Coherent(t)
  {
    var n := |s.log|;
    forall i, j
      ensures StampsDiffer(t.log, i, j)
    {
      assert StampsDiffer(s.log, i, j);
    }
    forall i, j
      ensures SameChain(t.log, i, j)
    {
      assert SameChain(s.log, i, j);
      WriteKeepsChains(s, k, c, i);
    }
    forall i
      ensures TombstoneIsEmpty(t.log, i)
    {
      assert TombstoneIsEmpty(s.log, i);
    }
    forall q
      ensures IsLastWrite(t, q)
    {
      if q == k {
        assert LatestAt(t, q, n);
      } else if q in t.cells {
        assert IsLastWrite(s, q);
        var i :| LatestAt(s, q, i);
        assert LatestAt(t, q, i);
      }
    }
  }

  lemma DropKeepsCoherent<S>(s: State<S>, gone: set<Key>)
    requires Coherent(s)
    ensures Coherent(Drop(s, gone))
  {
    var t := Drop(s, gone);
    forall q
      ensures IsLastWrite(t, q)
    {
      if q in t.cells {
        assert IsLastWrite(s, q);
        var i :| LatestAt(s, q, i);
        assert LatestAt(t, q, i);
      }
    }
  }

  lemma NextKeepsCoherent<S(!new)>(s: State<S>, t: State<S>)
    requires Coherent(s) && Next(s, t)
    ensures Coherent(t)
    ensures s.log <= t.log
  {
    if k, c :| WriteStep(s, t, k, c) {
      WriteKeepsCoherent(s, t, k, c);
    } else {
      var gone :| DropStep(s, t, gone);
      DropKeepsCoherent(s, gone);
    }
  }

  lemma {:induction false} RunKeepsCoherent<S(!new)>(run: seq<State<S>>, i: nat, j: nat)
    requires Run(run) && Coherent(run[0]) && i <= j < |run|
    ensures Coherent(run[i]) && Coherent(run[j]) && run[i].log <= run[j].log
    decreases j
  {
    if j > 0 {
      RunKeepsCoherent(run, if i < j then i else j - 1, j - 1);
      NextKeepsCoherent(run[j - 1], run[j]);
    }
  }

  lemma IssuedIsStable<S>(s: State<S>, t: State<S>, k: Key, snap: Snapshot<S>)
    requires Issued(s, k, snap) && s.log <= t.log
    ensures Issued(t, k, snap)
  {
    var i :| IssuedAt(s, k, snap, i);
    assert IssuedAt(t, k, snap, i);
  }

  // ------------------------------------------------------------ admissibility

  /** A snapshot can only be current for the key it was read from, and the cell then prolongs it. */
  lemma CurrentIsOwnKey<S>(s: State<S>, k0: Key, k: Key, snap: Snapshot<S>)
    requires Coherent(s) && Issued(s, k0, snap) && Current(s, k, snap)
    ensures k == k0
    ensures snap.branch != "" ==> s.cells[k].branch == snap.branch && snap.items <= s.cells[k].items
    ensures s.cells[k].stamp != snap.stamp ==> !s.cells[k].deleted
  {
    var i :| IssuedAt(s, k0, snap, i);
    assert IsLastWrite(s, k);
    var j :| LatestAt(s, k, j);
    assert StampsDiffer(s.log, i, j) && StampsDiffer(s.log, j, i);
    assert SameChain(s.log, i, j) && SameChain(s.log, j, i);
  }

  /**
   Whenever the publish guard holds, keeping the branch on a descendant without
   looking at the snapshot's items and keeping it only when those items are a
   prefix come to the same choice.
   */
  lemma BranchChoicesAgree<S>(s: State<S>, k0: Key, k: Key, snap: Snapshot<S>, items: seq<Bytes>)
    requires Coherent(s) && Issued(s, k0, snap) && Admits(s, k, snap, items)
    ensures (snap.branch == "" || (Same(s, k, snap) && !(snap.items <= items)))
            <==> !(snap.branch != "" && snap.items <= items)
  {
    CurrentIsOwnKey(s, k0, k, snap);
    if !Same(s, k, snap) {
      PrefixTransitive(snap.items, s.cells[k].items, items);
    }
  }

  lemma PublishIsNext<S(!new)>(s: State<S>, t: State<S>, k0: Key, k: Key, snap: Snapshot<S>, items: seq<Bytes>, c: Cell<S>)
    requires Coherent(s) && Issued(s, k0, snap) && PublishStep(s, t, k, snap, items, c)
    ensures WriteStep(s, t, k, c) && Next(s, t)
  {
    CurrentIsOwnKey(s, k0, k, snap);
    if snap.branch != "" && snap.items <= items {
      if Same(s, k, snap) {
        var i :| IssuedAt(s, k0, snap, i);
        assert IsLastWrite(s, k);
        var j :| LatestAt(s, k, j);
        assert StampsDiffer(s.log, i, j) && StampsDiffer(s.log, j, i);
      }
      assert Continues(s, k, c);
    }
    assert WriteStep(s, t, k, c);
  }

  lemma CurrentOnlyFromCurrent<S(!new)>(s: State<S>, t: State<S>, k: Key, snap: Snapshot<S>)
    requires Issued(s, k, snap) && Next(s, t) && Current(t, k, snap)
    ensures Current(s, k, snap)
    ensures Same(t, k, snap) ==> t.cells[k] == s.cells[k]
    ensures snap.branch != "" || Same(t, k, snap) ==> s.cells[k].items <= t.cells[k].items
  {
    var i :| IssuedAt(s, k, snap, i);
    if q, c :| WriteStep(s, t, q, c) {
      if q == k {
        assert s.log[i].cell.stamp != c.stamp;
        assert s.log[i].cell.branch == c.branch;
      }
    } else {
      var gone :| DropStep(s, t, gone);
    }
  }

  /** Held by `k` throughout `run[i..j]`: nothing evicted, expired, overwrote or retired it in between. */
  ghost predicate Unbroken<S>(run: seq<State<S>>, i: nat, j: nat, k: Key, snap: Snapshot<S>)
    requires i <= j < |run|
  {
    && (forall m | i <= m <= j :: Current(run[m], k, snap))
    && (forall m, n | i <= m <= n <= j && snap.branch != "" :: run[m].cells[k].items <= run[n].cells[k].items)
    && (Same(run[j], k, snap) ==> forall m | i <= m <= j :: run[m].cells[k] == run[j].cells[k])
  }

  lemma {:induction false} CurrentMeansHeld<S(!new)>(run: seq<State<S>>, i: nat, m: nat, j: nat, k: Key, snap: Snapshot<S>)
    requires Run(run) && Coherent(run[0]) && i <= m <= j < |run|
    requires Issued(run[i], k, snap) && Current(run[j], k, snap)
    ensures Current(run[m], k, snap)
    ensures Same(run[j], k, snap) ==> run[m].cells[k] == run[j].cells[k]
    ensures snap.branch != "" ==> run[m].cells[k].items <= run[j].cells[k].items
    decreases j
  {
    if m < j {
      RunKeepsCoherent(run, i, j - 1);
      IssuedIsStable(run[i], run[j - 1], k, snap);
      assert Next(run[j - 1], run[j - 1 + 1]);
      CurrentOnlyFromCurrent(run[j - 1], run[j], k, snap);
      CurrentMeansHeld(run, i, m, j - 1, k, snap);
    }
  }

  lemma CurrentMeansUnbroken<S(!new)>(run: seq<State<S>>, i: nat, j: nat, k: Key, snap: Snapshot<S>)
    requires Run(run) && Coherent(run[0]) && i <= j < |run|
    requires Issued(run[i], k, snap) && Current(run[j], k, snap)
    ensures Unbroken(run, i, j, k, snap)
  {
    forall m | i <= m <= j
      ensures Current(run[m], k, snap)
      ensures Same(run[j], k, snap) ==> run[m].cells[k] == run[j].cells[k]
    {
      CurrentMeansHeld(run, i, m, j, k, snap);
    }
    forall m, n | i <= m <= n <= j && snap.branch != ""
      ensures run[m].cells[k].items <= run[n].cells[k].items
    {
      CurrentMeansHeld(run, i, m, n, k, snap);
    }
  }

  /**
   Main safety result. If a snapshot read in `run[i]` is admitted by a publish
   in `run[j]`, then the publish is for the key that was read, the key was held
   without a break in between, and either its cell never changed or the chain
   runs from what the snapshot read through the present cell to the new items.
   */
  lemma AdmittedMeansUnbroken<S(!new)>(run: seq<State<S>>, i: nat, j: nat, k0: Key, k: Key, snap: Snapshot<S>, items: seq<Bytes>)
    requires Run(run) && Coherent(run[0]) && i <= j < |run|
    requires Issued(run[i], k0, snap) && Admits(run[j], k, snap, items)
    ensures k == k0
    ensures Unbroken(run, i, j, k, snap)
    ensures Same(run[j], k, snap) || (snap.items <= run[j].cells[k].items <= items)
  {
    RunKeepsCoherent(run, i, j);
    IssuedIsStable(run[i], run[j], k0, snap);
    CurrentIsOwnKey(run[j], k0, k, snap);
    CurrentMeansUnbroken(run, i, j, k, snap);
  }

  /**
   A snapshot of what a key held is admitted later exactly if that cell never
   changed since, or its branch was never left and the live items there lead up
   to the new ones.
   */
  lemma AdmittedIff<S(!new)>(run: seq<State<S>>, i: nat, j: nat, k: Key, snap: Snapshot<S>, items: seq<Bytes>)
    requires Run(run) && Coherent(run[0]) && i <= j < |run|
    requires Issued(run[i], k, snap) && k in run[i].cells && run[i].cells[k].stamp == snap.stamp
    ensures Admits(run[j], k, snap, items) <==>
      || (forall m | i <= m <= j :: k in run[m].cells && run[m].cells[k] == run[i].cells[k])
      || (&& snap.branch != ""
          && (forall m | i <= m <= j :: k in run[m].cells && run[m].cells[k].branch == snap.branch)
          && !run[j].cells[k].deleted && run[j].cells[k].items <= items)
  {
    if Admits(run[j], k, snap, items) {
      AdmittedMeansUnbroken(run, i, j, k, k, snap, items);
      if !Same(run[j], k, snap) {
        forall m | i <= m <= j
          ensures k in run[m].cells && run[m].cells[k].branch == snap.branch
        {
          RunKeepsCoherent(run, i, m);
          IssuedIsStable(run[i], run[m], k, snap);
          assert Current(run[m], k, snap);
          CurrentIsOwnKey(run[m], k, k, snap);
        }
      }
    }
  }

  /**
   A publish leaves the other readers of its branch current exactly if it
   prolongs what it had read; otherwise it ends the branch for all of them.
   */
  lemma PublishKeepsReadersIff<S>(s: State<S>, t: State<S>, k: Key, k1: Key, k2: Key, snap: Snapshot<S>, other: Snapshot<S>,
                                  items: seq<Bytes>, c: Cell<S>)
    requires Coherent(s) && Issued(s, k1, snap) && Issued(s, k2, other)
    requires PublishStep(s, t, k, snap, items, c) && Current(s, k, other) && other.branch != ""
    ensures Current(t, k, other) <==> snap.branch != "" && snap.items <= items
    ensures Current(t, k, other) ==> forall more | items <= more :: Admits(t, k, other, more)
  {
    CurrentIsOwnKey(s, k2, k, other);
    CurrentIsOwnKey(s, k1, k, snap);
    var i :| IssuedAt(s, k2, other, i);
    assert s.log[i].cell.stamp != c.stamp;
    if Same(s, k, snap) && snap.branch == "" {
      var j :| IssuedAt(s, k1, snap, j);
      assert IsLastWrite(s, k);
      var l :| LatestAt(s, k, l);
      assert StampsDiffer(s.log, j, l) && StampsDiffer(s.log, l, j);
    }
  }

  /** After a retirement no snapshot taken before is admitted at its key. */
  lemma RetireEndsReaders<S>(s: State<S>, t: State<S>, k: Key, snap: Snapshot<S>, k2: Key, other: Snapshot<S>, c: Cell<S>,
                             items: seq<Bytes>)
    requires Coherent(s) && RetireStep(s, t, k, snap, c) && Issued(s, k2, other)
    ensures t.cells[k].deleted && !Admits(t, k, other, items)
  {
    var i :| IssuedAt(s, k2, other, i);
    assert s.log[i].cell.stamp != c.stamp && (other.branch == "" || s.log[i].cell.branch != c.branch || c.branch == "");
  }

  /** Once a snapshot is stale it stays stale, even if its key is written again. */
  lemma StaleForever<S(!new)>(run: seq<State<S>>, i: nat, m: nat, j: nat, k0: Key, k: Key, snap: Snapshot<S>, items: seq<Bytes>)
    requires Run(run) && Coherent(run[0]) && i <= m <= j < |run|
    requires Issued(run[i], k0, snap) && !Current(run[m], k0, snap)
    ensures !Admits(run[j], k, snap, items) && !Same(run[j], k, snap)
  {
    if Admits(run[j], k, snap, items) {
      AdmittedMeansUnbroken(run, i, j, k0, k, snap, items);
    }
  }

  /** Of all calls that demand the very write a snapshot saw, at most one ever commits. */
  lemma AtMostOneWinner<S(!new)>(run: seq<State<S>>, i: nat, j1: nat, j2: nat, k0: Key, k1: Key, k2: Key, snap: Snapshot<S>, c: Cell<S>)
    requires Run(run) && Coherent(run[0]) && i <= j1 < j2 < |run|
    requires Issued(run[i], k0, snap)
    requires Same(run[j1], k1, snap) && WriteStep(run[j1], run[j1 + 1], k1, c)
    ensures !Same(run[j2], k2, snap)
  {
    if Same(run[j2], k2, snap) {
      RunKeepsCoherent(run, i, j1);
      RunKeepsCoherent(run, i, j1 + 1);
      RunKeepsCoherent(run, i, j2);
      IssuedIsStable(run[i], run[j1], k0, snap);
      IssuedIsStable(run[i], run[j1 + 1], k0, snap);
      IssuedIsStable(run[i], run[j2], k0, snap);
      CurrentIsOwnKey(run[j1], k0, k1, snap);
      CurrentIsOwnKey(run[j2], k0, k2, snap);
      var p :| IssuedAt(run[j1], k0, snap, p);
      CurrentMeansHeld(run, j1 + 1, j1 + 1, j2, k0, snap);
    }
  }

  /** All item lists ever written on one branch belong to one key and are ordered by prefix, in write order. */
  lemma BranchesOnlyGrow<S(!new)>(run: seq<State<S>>, j: nat, p: nat, q: nat)
    requires Run(run) && Coherent(run[0]) && j < |run|
    requires p <= q < |run[j].log|
    requires run[j].log[p].cell.branch == run[j].log[q].cell.branch != ""
    ensures run[j].log[p].key == run[j].log[q].key
    ensures run[j].log[p].cell.items <= run[j].log[q].cell.items
  {
    RunKeepsCoherent(run, 0, j);
    if p < q {
      assert SameChain(run[j].log, p, q);
    }
  }

  // ------------------------------------------------------------------ Leads

  lemma LeadsRefl<S(!new)>(s: State<S>)
    ensures Leads(s, s)
  {
    var run := [s];
    assert Run(run) && run[0] == s;
  }

  lemma LeadsStep<S(!new)>(s: State<S>, t: State<S>, u: State<S>)
    requires Leads(s, t) && Next(t, u)
    ensures Leads(s, u)
  {
    var run :| Run(run) && run[0] == s && run[|run| - 1] == t;
    var longer := run + [u];
    assert Run(longer) && longer[0] == s && longer[|longer| - 1] == u;
  }

  lemma LeadsTransitive<S(!new)>(s: State<S>, t: State<S>, u: State<S>)
    requires Leads(s, t) && Leads(t, u)
    ensures Leads(s, u)
  {
    var a :| Run(a) && a[0] == s && a[|a| - 1] == t;
    var b :| Run(b) && b[0] == t && b[|b| - 1] == u;
    var run := a + b[1..];
    forall i | 0 <= i < |run| - 1
      ensures Next(run[i], run[i + 1])
    {
      if i + 1 < |a| {
        assert Next(a[i], a[i + 1]);
      } else {
        var j := i + 1 - |a|;
        assert run[i] == b[j] && run[i + 1] == b[j + 1];
      }
    }
    assert run[|run| - 1] == u;
  }

  lemma PutThenDrop<S(!new)>(s: State<S>, k: Key, c: Cell<S>, gone: set<Key>)
    requires Starts(s, c) || Continues(s, k, c)
    ensures Leads(s, Drop(Put(s, k, c), gone))
  {
    LeadsRefl(s);
    assert WriteStep(s, Put(s, k, c), k, c);
    LeadsStep(s, s, Put(s, k, c));
    assert DropStep(Put(s, k, c), Drop(Put(s, k, c), gone), gone);
    LeadsStep(s, Put(s, k, c), Drop(Put(s, k, c), gone));
  }

  lemma DropLeads<S(!new)>(s: State<S>, gone: set<Key>)
    ensures Leads(s, Drop(s, gone))
  {
    LeadsRefl(s);
    assert DropStep(s, Drop(s, gone), gone);
    LeadsStep(s, s, Drop(s, gone));
  }

  lemma DropThenPut<S(!new)>(s: State<S>, gone: set<Key>, k: Key, c: Cell<S>)
    requires Starts(Drop(s, gone), c)
    ensures Leads(s, Put(Drop(s, gone), k, c))
  {
    LeadsRefl(s);
    assert DropStep(s, Drop(s, gone), gone);
    LeadsStep(s, s, Drop(s, gone));
    assert WriteStep(Drop(s, gone), Put(Drop(s, gone), k, c), k, c);
    LeadsStep(s, Drop(s, gone), Put(Drop(s, gone), k, c));
  }

  lemma LeadsKeepsCoherent<S(!new)>(s: State<S>, t: State<S>)
    requires Coherent(s) && Leads(s, t)
    ensures Coherent(t) && s.log <= t.log
  {
    var run :| Run(run) && run[0] == s && run[|run| - 1] == t;
    RunKeepsCoherent(run, 0, |run| - 1);
  }

  /** Somewhere between `s` and `t` a write replaced the very cell the snapshot saw. */
  ghost predicate Committed<S(!new)>(s: State<S>, t: State<S>, k: Key, snap: Snapshot<S>) {
    exists pre, mid, c :: Leads(s, pre) && Same(pre, k, snap) && WriteStep(pre, mid, k, c) && Leads(mid, t)
  }

  lemma CommittedBy<S(!new)>(s: State<S>, pre: State<S>, mid: State<S>, t: State<S>, k: Key, snap: Snapshot<S>, c: Cell<S>)
    requires Leads(s, pre) && Same(pre, k, snap) && WriteStep(pre, mid, k, c) && Leads(mid, t)
    ensures Committed(s, t, k, snap)
  {
  }

  lemma {:induction false} NotSameLater<S(!new)>(run: seq<State<S>>, k0: Key, k: Key, snap: Snapshot<S>)
    requires Run(run) && Coherent(run[0]) && Issued(run[0], k0, snap) && !Same(run[0], k0, snap)
    ensures !Same(run[|run| - 1], k, snap)
  {
    if Same(run[|run| - 1], k, snap) {
      var j := |run| - 1;
      RunKeepsCoherent(run, 0, j);
      IssuedIsStable(run[0], run[j], k0, snap);
      CurrentIsOwnKey(run[j], k0, k, snap);
      CurrentMeansHeld(run, 0, 0, j, k0, snap);
    }
  }

  /**
   Of two calls made with one snapshot, the second starting after the first
   ended, at most one commits, whatever happens around them.
   */
  lemma WinnerTakesAll<S(!new)>(s1: State<S>, t1: State<S>, s2: State<S>, t2: State<S>,
                                k0: Key, k1: Key, k2: Key, snap: Snapshot<S>)
    requires Coherent(s1) && Issued(s1, k0, snap)
    requires Committed(s1, t1, k1, snap) && Leads(t1, s2)
    ensures !Committed(s2, t2, k2, snap)
  {
    var pre, mid, c :| Leads(s1, pre) && Same(pre, k1, snap) && WriteStep(pre, mid, k1, c) && Leads(mid, t1);
    LeadsKeepsCoherent(s1, pre);
    IssuedIsStable(s1, pre, k0, snap);
    CurrentIsOwnKey(pre, k0, k1, snap);
    WriteKeepsCoherent(pre, mid, k1, c);
    IssuedIsStable(pre, mid, k0, snap);
    var i :| IssuedAt(pre, k0, snap, i);
    assert !Same(mid, k0, snap);
    LeadsTransitive(mid, t1, s2);
    forall pre2 | Leads(s2, pre2)
      ensures !Same(pre2, k2, snap)
    {
      LeadsTransitive(mid, s2, pre2);
      var run :| Run(run) && run[0] == mid && run[|run| - 1] == pre2;
      NotSameLater(run, k0, k2, snap);
    }
  }
}
