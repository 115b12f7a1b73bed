/**
 Cumulative releases: callers mark a sequence dirty and hold a ticket, a
 flusher sends the latest sequence of every dirty group to Home, and an
 acknowledgement closes every ticket it covers. Requests and replies may be
 lost, and a sequence may be sent again.
 */
module ReleaseProtocol {
  import opened Base

  datatype Group = Group(credential: string, model: string)

  type Ticket = nat

  datatype GroupState = GroupState(latest: int, acked: int, waiters: map<int, seq<Ticket>>)

  const FRESH_GROUP := GroupState(0, 0, map[])

  /** `issued[t]` is what ticket `t` waits for; `home` is the highest sequence Home has received. */
  datatype State = State(
    groups: map<Group, GroupState>, issued: seq<(Group, int)>, closed: set<Ticket>, home: map<Group, int>)

  function GroupOf(groups: map<Group, GroupState>, g: Group): GroupState {
    if g in groups then groups[g] else FRESH_GROUP
  }

  function HomeOf(home: map<Group, int>, g: Group): int {
    if g in home then home[g] else 0
  }

  function Max(a: int, b: int): int {
    if a < b then b else a
  }

  function WaitingAt(waiters: map<int, seq<Ticket>>, w: int): seq<Ticket> {
    if w in waiters then waiters[w] else []
  }

  // ------------------------------------------------------------------- steps

  function Marked(st: GroupState, sequence: int, t: Ticket): GroupState {
    GroupState(Max(st.latest, sequence), st.acked, st.waiters[sequence := WaitingAt(st.waiters, sequence) + [t]])
  }

  function MarkDirty(s: State, g: Group, sequence: int): State {
    var st, t := GroupOf(s.groups, g), |s.issued|;
    if sequence <= st.acked then
      s.(issued := s.issued + [(g, sequence)], closed := s.closed + {t})
    else
      s.(issued := s.issued + [(g, sequence)], groups := s.groups[g := Marked(st, sequence, t)])
  }

  /** Home receives a frame and keeps the maximum. */
  function Deliver(s: State, g: Group, sequence: int): State {
    s.(home := s.home[g := Max(HomeOf(s.home, g), sequence)])
  }

  function Remaining(waiters: map<int, seq<Ticket>>, acked: int): map<int, seq<Ticket>> {
    map w | w in waiters && acked < w :: waiters[w]
  }

  function Released(waiters: map<int, seq<Ticket>>, acked: int): set<Ticket> {
    set w, t | w in waiters && w <= acked && t in waiters[w] :: t
  }

  function Acknowledge(s: State, g: Group, sequence: int): State {
    var st := GroupOf(s.groups, g);
    if sequence <= st.acked then s.(groups := s.groups[g := st])
    else
      s.(groups := s.groups[g := GroupState(st.latest, sequence, Remaining(st.waiters, sequence))],
         closed := s.closed + Released(st.waiters, sequence))
  }

  ghost predicate MarkStep(s: State, t: State, g: Group, sequence: int) {
    sequence > 0 && t == MarkDirty(s, g, sequence)
  }

  /** Any sequence that was once the latest may arrive, any number of times, in any order. */
  ghost predicate DeliverStep(s: State, t: State, g: Group, sequence: int) {
    0 < sequence <= GroupOf(s.groups, g).latest && t == Deliver(s, g, sequence)
  }

  /** A reply can only confirm what Home has received. */
  ghost predicate AckStep(s: State, t: State, g: Group, sequence: int) {
    0 < sequence <= HomeOf(s.home, g) && t == Acknowledge(s, g, sequence)
  }

  ghost predicate Next(s: State, t: State) {
    exists g, q :: MarkStep(s, t, g, q) || DeliverStep(s, t, g, q) || AckStep(s, t, g, q)
  }

  // --------------------------------------------------------------- invariant

  /** Home is between what was acknowledged and what was marked; whoever waits, waits in that gap. */
  ghost predicate GroupSound(s: State, g: Group) {
    var st := GroupOf(s.groups, g);
    && 0 <= st.acked <= HomeOf(s.home, g) <= st.latest
    && (forall w | w in st.waiters :: st.acked < w <= st.latest && st.waiters[w] != [])
    && (st.latest > st.acked ==> st.latest in st.waiters)
  }

  /** A ticket is closed exactly when its sequence is acknowledged; until then it waits. */
  ghost predicate TicketSound(s: State, t: Ticket) {
    t < |s.issued| ==>
      var (g, q) := s.issued[t];
      var st := GroupOf(s.groups, g);
      && 0 < q <= st.latest
      && (t in s.closed <==> q <= st.acked)
      && (t !in s.closed ==> q in st.waiters && t in st.waiters[q])
  }

  /** Every waiting channel belongs to one ticket of that group and sequence, and is listed once. */
  ghost predicate WaiterSound(s: State, g: Group, w: int) {
    var ts := WaitingAt(GroupOf(s.groups, g).waiters, w);
    && (forall i | 0 <= i < |ts| :: ts[i] < |s.issued| && s.issued[ts[i]] == (g, w))
    && (forall i, j | 0 <= i < j < |ts| :: ts[i] != ts[j])
  }

  ghost predicate Sound(s: State) {
    && (forall g :: GroupSound(s, g))
    && (forall t :: TicketSound(s, t))
    && (forall g, w :: WaiterSound(s, g, w))
    && (forall t | t in s.closed :: t < |s.issued|)
  }

  lemma InitIsSound()
    ensures Sound(State(map[], [], {}, map[]))
  {
  }

  lemma MarkKeepsWaiters(s: State, g: Group, q: int, h: Group, w: int)
    requires Sound(s) && q > 0
    ensures WaiterSound(MarkDirty(s, g, q), h, w)
  {
    var t := MarkDirty(s, g, q);
    assert WaiterSound(s, h, w);
    var before, after := WaitingAt(GroupOf(s.groups, h).waiters, w), WaitingAt(GroupOf(t.groups, h).waiters, w);
    assert t.issued[..|s.issued|] == s.issued;
    assert after == before || (h == g && w == q && after == before + [|s.issued|]);
  }

  lemma MarkKeepsTickets(s: State, g: Group, q: int, u: Ticket)
    requires Sound(s) && q > 0
    ensures TicketSound(MarkDirty(s, g, q), u)
  {
    assert TicketSound(s, u) && GroupSound(s, g);
    assert MarkDirty(s, g, q).issued[..|s.issued|] == s.issued;
  }

  lemma MarkKeepsSound(s: State, g: Group, q: int)
    requires Sound(s) && q > 0
    ensures Sound(MarkDirty(s, g, q))
  {
    var t := MarkDirty(s, g, q);
    forall h
      ensures GroupSound(t, h)
    {
      assert GroupSound(s, h);
    }
    forall u: Ticket
      ensures TicketSound(t, u)
    {
      MarkKeepsTickets(s, g, q, u);
    }
    forall h, w
      ensures WaiterSound(t, h, w)
    {
      MarkKeepsWaiters(s, g, q, h, w);
    }
  }

  lemma DeliverKeepsSound(s: State, g: Group, q: int)
    requires Sound(s) && 0 < q <= GroupOf(s.groups, g).latest
    ensures Sound(Deliver(s, g, q))
  {
    var t := Deliver(s, g, q);
    forall h
      ensures GroupSound(t, h)
    {
      assert GroupSound(s, h);
    }
    forall u: Ticket
      ensures TicketSound(t, u)
    {
      assert TicketSound(s, u);
    }
    forall h, w
      ensures WaiterSound(t, h, w)
    {
      assert WaiterSound(s, h, w);
    }
  }

  lemma ReleasedAreOld(s: State, g: Group, q: int, u: Ticket)
    requires Sound(s)
    ensures u in Released(GroupOf(s.groups, g).waiters, q) <==>
            u < |s.issued| && s.issued[u].0 == g && GroupOf(s.groups, g).acked < s.issued[u].1 <= q
  {
    var st := GroupOf(s.groups, g);
    assert TicketSound(s, u) && GroupSound(s, g);
    if u in Released(st.waiters, q) {
      var w :| w in st.waiters && w <= q && u in st.waiters[w];
      assert WaiterSound(s, g, w);
    }
  }

  lemma AckKeepsSound(s: State, g: Group, q: int)
    requires Sound(s) && 0 < q <= HomeOf(s.home, g)
    ensures Sound(Acknowledge(s, g, q))
  {
    var t := Acknowledge(s, g, q);
    forall h
      ensures GroupSound(t, h)
    {
      assert GroupSound(s, h);
    }
    forall u: Ticket
      ensures TicketSound(t, u)
      ensures u in t.closed ==> u < |t.issued|
    {
      assert TicketSound(s, u);
      ReleasedAreOld(s, g, q, u);
    }
    forall h, w
      ensures WaiterSound(t, h, w)
    {
      assert WaiterSound(s, h, w);
    }
  }

  // -------------------------------------------------------------- over runs

  /** What only ever grows, whoever acts in between. */
  ghost predicate Later(s: State, t: State) {
    && s.issued <= t.issued
    && s.closed <= t.closed
    && forall g :: LaterGroup(s, t, g)
  }

  ghost predicate LaterGroup(s: State, t: State, g: Group) {
    && GroupOf(s.groups, g).latest <= GroupOf(t.groups, g).latest
    && GroupOf(s.groups, g).acked <= GroupOf(t.groups, g).acked
    && HomeOf(s.home, g) <= HomeOf(t.home, g)
  }

  lemma NextKeepsSound(s: State, t: State)
    requires Sound(s) && Next(s, t)
    ensures Sound(t) && Later(s, t)
  {
    var g, q :| MarkStep(s, t, g, q) || DeliverStep(s, t, g, q) || AckStep(s, t, g, q);
    if MarkStep(s, t, g, q) {
      MarkKeepsSound(s, g, q);
    } else if DeliverStep(s, t, g, q) {
      DeliverKeepsSound(s, g, q);
    } else {
      AckKeepsSound(s, g, q);
    }
    forall h
      ensures LaterGroup(s, t, h)
    {
    }
  }

  ghost predicate Run(run: seq<State>) {
    && |run| > 0 && run[0] == State(map[], [], {}, map[])
    && forall i | 0 <= i < |run| - 1 :: Next(run[i], run[i + 1])
  }

  lemma LaterTransitive(s: State, t: State, u: State)
    requires Later(s, t) && Later(t, u)
    ensures Later(s, u)
  {
    forall g
      ensures LaterGroup(s, u, g)
    {
      assert LaterGroup(s, t, g) && LaterGroup(t, u, g);
    }
  }

  lemma {:induction false} RunIsSound(run: seq<State>, i: nat, j: nat)
    requires Run(run) && i <= j < |run|
    ensures Sound(run[i]) && Sound(run[j]) && Later(run[i], run[j])
    decreases j
  {
    InitIsSound();
    if j > 0 {
      RunIsSound(run, if i < j then i else j - 1, j - 1);
      assert Next(run[j - 1], run[j - 1 + 1]);
      NextKeepsSound(run[j - 1], run[j]);
      if i < j {
        LaterTransitive(run[i], run[j - 1], run[j]);
      }
    }
    assert forall g :: LaterGroup(run[j], run[j], g);
  }

  /**
   Over every interleaving of marks, deliveries, losses and acknowledgements:
   Home's maximum lies between acknowledged and latest, and a ticket is closed
   in `run[j]` exactly when some acknowledged sequence has reached its own; it
   then stays closed.
   */
  lemma TicketsCloseExactlyWhenCovered(run: seq<State>, j: nat, k: nat, t: Ticket)
    requires Run(run) && j <= k < |run| && t < |run[j].issued|
    ensures var (g, q) := run[j].issued[t];
      && t < |run[k].issued| && run[k].issued[t] == (g, q)
      && GroupOf(run[j].groups, g).acked <= HomeOf(run[j].home, g) <= GroupOf(run[j].groups, g).latest
      && (t in run[j].closed <==> q <= GroupOf(run[j].groups, g).acked)
      && (t in run[j].closed ==> t in run[k].closed)
      && (t in run[k].closed ==> q <= HomeOf(run[k].home, g))
  {
    RunIsSound(run, j, k);
    var (g, q) := run[j].issued[t];
    assert TicketSound(run[j], t) && TicketSound(run[k], t);
    assert GroupSound(run[j], g) && GroupSound(run[k], g);
  }

  ghost predicate NoTicketOpen(s: State) {
    forall t: Ticket | t < |s.issued| :: t in s.closed
  }

  predicate Idle(groups: map<Group, GroupState>) {
    forall g | g in groups :: groups[g].latest <= groups[g].acked
  }

  /** No group is dirty exactly when every ticket ever issued is closed. */
  lemma IdleIffNoTicketOpen(s: State)
    requires Sound(s)
    ensures Idle(s.groups) <==> NoTicketOpen(s)
  {
    if Idle(s.groups) {
      forall t: Ticket | t < |s.issued|
        ensures t in s.closed
      {
        assert TicketSound(s, t);
      }
    } else {
      var g :| g in s.groups && s.groups[g].latest > s.groups[g].acked;
      assert GroupSound(s, g) && WaiterSound(s, g, s.groups[g].latest);
      var t := s.groups[g].waiters[s.groups[g].latest][0];
      assert TicketSound(s, t);
    }
  }

  /** A ticket whose group has since been acknowledged up to an earlier latest is closed. */
  lemma CoveredIsClosed(s: State, t: State, u: Ticket)
    requires Sound(s) && Sound(t) && Later(s, t) && u < |s.issued|
    requires var g := s.issued[u].0; GroupOf(t.groups, g).acked >= GroupOf(s.groups, g).latest
    ensures u in t.closed
  {
    assert TicketSound(s, u) && TicketSound(t, u);
  }
}
