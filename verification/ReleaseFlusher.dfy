/** The release flusher: maps changed under a lock, frames sent outside it. */
module ReleaseFlusher {
  import opened Base
  import opened ReleaseProtocol

  /** One frame that was sent, and whether its reply confirmed it. */
  datatype Frame = Frame(group: Group, sequence: int, confirmed: bool)

  class Flusher {
    /** Whether a send function was configured. */
    const canSend: bool
    var groups: map<Group, GroupState>
    /** The channels closed so far; a new channel gets the next number. */
    var closed: set<Ticket>
    var nextTicket: Ticket
    ghost var issued: seq<(Group, int)>
    ghost var home: map<Group, int>
    /** Every frame so far, and how often a waiting caller let time pass. */
    ghost var sent: seq<Frame>
    ghost var ticked: nat

    ghost function Abs(): State
      reads this
    {
      State(groups, issued, closed, home)
    }

    ghost predicate Valid()
      reads this
    {
      Sound(Abs()) && nextTicket == |issued|
    }

    constructor (canSend: bool)
      ensures Valid() && this.canSend == canSend && Abs() == State(map[], [], {}, map[])
    {
      this.canSend := canSend;
      groups := map[];
      closed := {};
      nextTicket := 0;
      issued := [];
      home := map[];
      sent, ticked := [], 0;
      InitIsSound();
    }

    /** Records the latest sequence of a group; the ticket is complete at once if it is already acknowledged. */
    method MarkDirtySequence(group: Group, sequence: int) returns (ticket: Option<Ticket>)
      requires Valid()
      modifies this
      ensures Valid() && Later(old(Abs()), Abs())
      ensures sequence <= 0 || group.credential == "" || group.model == "" ==> ticket == None && Abs() == old(Abs())
      ensures sequence > 0 && group.credential != "" && group.model != "" ==>
        ticket == Some(|old(issued)|) && Abs() == MarkDirty(old(Abs()), group, sequence)
    {
      LaterReflexive(Abs());
      if sequence <= 0 || group.credential == "" || group.model == "" {
        return None;
      }
      var done := nextTicket;
      nextTicket := nextTicket + 1;
      issued := issued + [(group, sequence)];
      var state := GroupOf(groups, group);
      if sequence <= state.acked {
        FreshIsOpen(old(Abs()), done);
        Close(done);
      } else {
        state := state.(waiters := state.waiters[sequence := WaitingAt(state.waiters, sequence) + [done]]);
        if sequence > state.latest {
          state := state.(latest := sequence);
        }
        groups := groups[group := state];
      }
      assert MarkStep(old(Abs()), Abs(), group, sequence);
      NextKeepsSound(old(Abs()), Abs());
      ticket := Some(done);
    }

    /** Closing a channel twice would panic. */
    method Close(done: Ticket)
      requires done !in closed
      modifies this`closed
      ensures closed == old(closed) + {done}
    {
      closed := closed + {done};
    }

    /** Other goroutines and late replies, while no lock is held. */
    method Interfere()
      requires Valid()
      modifies this
      ensures Valid() && Later(old(Abs()), Abs()) && sent == old(sent) && ticked == old(ticked)
    {
      LaterReflexive(Abs());
    }

    /** One frame: it may be lost, or arrive and its reply be lost, or be confirmed. */
    method Send(group: Group, sequence: int) returns (failed: bool)
      requires Valid() && 0 < sequence <= GroupOf(groups, group).latest
      modifies this
      ensures Valid() && Later(old(Abs()), Abs())
      ensures !failed ==> sequence <= HomeOf(home, group)
      ensures sent == old(sent) + [Frame(group, sequence, !failed)]
    {
      Interfere();
      ghost var s := Abs();
      assert LaterGroup(old(Abs()), s, group);
      var arrives: bool := *;
      if !arrives {
        sent := sent + [Frame(group, sequence, false)];
        return true;
      }
      home := home[group := Max(HomeOf(home, group), sequence)];
      assert DeliverStep(s, Abs(), group, sequence);
      NextKeepsSound(s, Abs());
      LaterTransitive(old(Abs()), s, Abs());
      ghost var t := Abs();
      Interfere();
      LaterTransitive(old(Abs()), t, Abs());
      assert LaterGroup(t, Abs(), group);
      failed := *;
      sent := sent + [Frame(group, sequence, !failed)];
    }

    /** Under the lock: raise the acknowledged sequence and close every channel it covers. */
    method AcknowledgeSequence(group: Group, sequence: int)
      requires Valid() && 0 < sequence <= HomeOf(home, group)
      modifies this
      ensures Valid() && Later(old(Abs()), Abs())
      ensures Abs() == Acknowledge(old(Abs()), group, sequence) && sent == old(sent)
    {
      var state := GroupOf(groups, group);
      if sequence > state.acked {
        var waiters := CloseCovered(group, sequence);
        state := state.(acked := sequence, waiters := waiters);
      }
      groups := groups[group := state];
      assert AckStep(old(Abs()), Abs(), group, sequence);
      NextKeepsSound(old(Abs()), Abs());
    }

    method CloseCovered(group: Group, acked: int) returns (waiters: map<int, seq<Ticket>>)
      requires Valid()
      modifies this`closed
      ensures waiters == Remaining(GroupOf(groups, group).waiters, acked)
      ensures closed == old(closed) + Released(GroupOf(groups, group).waiters, acked)
    {
      ghost var all := GroupOf(groups, group).waiters;
      waiters := GroupOf(groups, group).waiters;
      var rest := waiters.Keys;
      while rest != {}
        invariant rest <= all.Keys
        invariant waiters == map w | w in all && (w in rest || acked < w) :: all[w]
        invariant closed == old(closed) + ReleasedBut(all, acked, rest)
        decreases rest
      {
        SomeElement(rest);
        var w :| w in rest;
        rest := rest - {w};
        if w <= acked {
          CoveredAreOpen(old(Abs()), group, all, acked, rest + {w}, w);
          CloseAll(waiters[w]);
          waiters := waiters - {w};
        }
        ReleasedStep(all, acked, rest + {w}, w);
      }
    }

    method CloseAll(channels: seq<Ticket>)
      requires forall i | 0 <= i < |channels| :: channels[i] !in closed
      requires forall i, j | 0 <= i < j < |channels| :: channels[i] != channels[j]
      modifies this`closed
      ensures closed == old(closed) + set t | t in channels
    {
      for i := 0 to |channels|
        invariant closed == old(closed) + set t | t in channels[..i]
      {
        assert channels[..i + 1] == channels[..i] + [channels[i]];
        Close(channels[i]);
      }
      assert channels[..|channels|] == channels;
    }

    /** The latest sequence of every dirty group. */
    method PendingSequences() returns (pending: map<Group, int>)
      ensures pending == map g | g in groups && groups[g].latest > groups[g].acked :: groups[g].latest
    {
      pending := map[];
      var rest := groups.Keys;
      while rest != {}
        invariant rest <= groups.Keys
        invariant pending == map g | g in groups && g !in rest && groups[g].latest > groups[g].acked :: groups[g].latest
        decreases rest
      {
        var g :| g in rest;
        rest := rest - {g};
        if groups[g].latest > groups[g].acked {
          pending := pending[g := groups[g].latest];
        }
      }
    }

    /**
     One round: every group that was dirty when it began is sent once, at what
     was its latest sequence, whatever becomes of the others. Every ticket
     issued before the round whose group was not lost is closed when it ends.
     */
    method FlushRound() returns (failed: bool)
      requires Valid()
      modifies this
      ensures Valid() && Later(old(Abs()), Abs())
      ensures !canSend ==> !failed && Abs() == old(Abs()) && sent == old(sent)
      ensures old(sent) <= sent
      ensures canSend ==>
        && RoundOf(old(groups), sent[|old(sent)|..])
        && (failed <==> exists f | f in sent[|old(sent)|..] :: !f.confirmed)
        && forall t: Ticket | t < |old(issued)| && !Lost(sent[|old(sent)|..], old(issued)[t].0) :: t in closed
    {
      LaterReflexive(Abs());
      if !canSend {
        return false;
      }
      ghost var s := Abs();
      ghost var round: seq<Frame> := [];
      var pending := PendingSequences();
      failed := false;
      var rest := pending.Keys;
      while rest != {}
        invariant rest <= pending.Keys
        invariant Valid() && Later(s, Abs())
        invariant sent == old(sent) + round && RoundSoFar(Abs(), pending, pending.Keys - rest, round, failed)
        decreases rest
      {
        var g :| g in rest;
        ghost var before := Abs();
        PendingIsMarked(s, before, pending, g);
        var lost := SendAndAcknowledge(g, pending[g]);
        LaterTransitive(s, before, Abs());
        RoundGoesOn(before, Abs(), pending, pending.Keys - rest, g, round, failed, lost);
        assert pending.Keys - (rest - {g}) == pending.Keys - rest + {g};
        round := round + [Frame(g, pending[g], !lost)];
        rest := rest - {g};
        failed := failed || lost;
      }
      assert pending.Keys - {} == pending.Keys && sent[|old(sent)|..] == round;
      AllSent(s.groups, pending, round);
      AllPendingCovered(s, Abs(), pending, round);
    }

    method SendAndAcknowledge(group: Group, sequence: int) returns (failed: bool)
      requires Valid() && 0 < sequence <= GroupOf(groups, group).latest
      modifies this
      ensures Valid() && Later(old(Abs()), Abs())
      ensures !failed ==> sequence <= GroupOf(groups, group).acked
      ensures sent == old(sent) + [Frame(group, sequence, !failed)]
    {
      failed := Send(group, sequence);
      if !failed {
        ghost var s := Abs();
        AcknowledgeSequence(group, sequence);
        LaterTransitive(old(Abs()), s, Abs());
      }
    }

    method IsIdle() returns (idle: bool)
      requires Valid()
      ensures idle <==> NoTicketOpen(Abs())
    {
      IdleIffNoTicketOpen(Abs());
      var rest := groups.Keys;
      while rest != {}
        invariant rest <= groups.Keys
        invariant forall g | g in groups && g !in rest :: groups[g].latest <= groups[g].acked
        decreases rest
      {
        var g :| g in rest;
        rest := rest - {g};
        if groups[g].latest > groups[g].acked {
          return false;
        }
      }
      idle := true;
    }

    /** Time passes between two polls. */
    method Tick()
      requires Valid()
      modifies this
      ensures Valid() && Later(old(Abs()), Abs()) && ticked == old(ticked) + 1
    {
      Interfere();
      ticked := ticked + 1;
    }

    /** Polls until idle; `ticks` is how often the ticker fires before the context ends. It gives up only then. */
    method Flush(ticks: nat) returns (done: bool)
      requires Valid()
      modifies this
      ensures Valid() && Later(old(Abs()), Abs())
      ensures done ==> forall t: Ticket | t < |old(issued)| :: t in closed
      ensures done <==> NoTicketOpen(Abs())
      ensures !done ==> ticked == old(ticked) + ticks
    {
      Interfere();
      var left := ticks;
      while true
        invariant Valid() && Later(old(Abs()), Abs()) && ticked + left == old(ticked) + ticks
        decreases left
      {
        var idle := IsIdle();
        if idle {
          return true;
        }
        if left == 0 {
          return false;
        }
        left := left - 1;
        ghost var s := Abs();
        Tick();
        LaterTransitive(old(Abs()), s, Abs());
      }
    }
  }

  lemma SomeElement(s: set<int>)
    ensures s == {} || exists w :: w in s
  {
    if forall w :: w !in s {
      assert s == {};
    }
  }

  lemma LaterReflexive(s: State)
    ensures Later(s, s)
  {
    assert forall g :: LaterGroup(s, s, g);
  }

  lemma FreshIsOpen(s: State, t: Ticket)
    requires Sound(s) && t >= |s.issued|
    ensures t !in s.closed
  {
  }

  /** The channels covered by `acked` outside the sequences still to be visited. */
  ghost function ReleasedBut(waiters: map<int, seq<Ticket>>, acked: int, rest: set<int>): set<Ticket> {
    set w, t | w in waiters && w !in rest && w <= acked && t in waiters[w] :: t
  }

  lemma ReleasedStep(waiters: map<int, seq<Ticket>>, acked: int, rest: set<int>, w: int)
    requires w in rest && w in waiters
    ensures ReleasedBut(waiters, acked, rest - {w}) ==
            ReleasedBut(waiters, acked, rest) + if w <= acked then (set t | t in waiters[w]) else {}
    ensures ReleasedBut(waiters, acked, {}) == Released(waiters, acked)
    ensures ReleasedBut(waiters, acked, waiters.Keys) == {}
  {
  }

  /** The channels of one sequence are distinct, still open, and not among those of other sequences. */
  lemma CoveredAreOpen(s: State, g: Group, waiters: map<int, seq<Ticket>>, acked: int, rest: set<int>, w: int)
    requires Sound(s) && waiters == GroupOf(s.groups, g).waiters && w in waiters && w in rest
    ensures forall i | 0 <= i < |waiters[w]| ::
      waiters[w][i] !in s.closed && waiters[w][i] !in ReleasedBut(waiters, acked, rest)
    ensures forall i, j | 0 <= i < j < |waiters[w]| :: waiters[w][i] != waiters[w][j]
  {
    assert WaiterSound(s, g, w) && GroupSound(s, g);
    forall i | 0 <= i < |waiters[w]|
      ensures waiters[w][i] !in s.closed && waiters[w][i] !in ReleasedBut(waiters, acked, rest)
    {
      var t := waiters[w][i];
      assert TicketSound(s, t);
      forall v | v in waiters && t in waiters[v]
        ensures v == w
      {
        assert WaiterSound(s, g, v);
      }
    }
  }

  /** Some frame of the group was not confirmed. */
  ghost predicate Lost(round: seq<Frame>, g: Group) {
    exists f | f in round :: f.group == g && !f.confirmed
  }

  /** One frame for each dirty group, with its latest sequence, and no other. */
  ghost predicate RoundOf(groups: map<Group, GroupState>, round: seq<Frame>) {
    && (forall i, j | 0 <= i < j < |round| :: round[i].group != round[j].group)
    && (forall f | f in round :: f.group in groups && groups[f.group].acked < groups[f.group].latest == f.sequence)
    && (forall g | g in groups && groups[g].acked < groups[g].latest :: exists f :: f in round && f.group == g)
  }

  /** The groups in `done` have each been sent once. */
  ghost predicate SentSoFar(pending: map<Group, int>, done: set<Group>, round: seq<Frame>) {
    && (forall i, j | 0 <= i < j < |round| :: round[i].group != round[j].group)
    && (forall f | f in round :: f.group in done && f.group in pending && f.sequence == pending[f.group])
    && (forall g | g in done :: exists f :: f in round && f.group == g)
  }

  lemma SentOneMore(pending: map<Group, int>, done: set<Group>, g: Group, round: seq<Frame>, confirmed: bool)
    requires SentSoFar(pending, done, round) && g in pending && g !in done
    ensures SentSoFar(pending, done + {g}, round + [Frame(g, pending[g], confirmed)])
  {
    var more := round + [Frame(g, pending[g], confirmed)];
    forall h | h in done + {g}
      ensures exists f :: f in more && f.group == h
    {
      if h == g {
        assert more[|round|] in more;
      } else {
        var f :| f in round && f.group == h;
        assert f in more;
      }
    }
    forall i, j | 0 <= i < j < |more|
      ensures more[i].group != more[j].group
    {
      assert more[i] in round;
    }
  }

  lemma FailedSoFar(round: seq<Frame>, f: Frame)
    ensures (exists x | x in round + [f] :: !x.confirmed) <==> (exists x | x in round :: !x.confirmed) || !f.confirmed
  {
    assert f in round + [f] && forall x | x in round :: x in round + [f];
  }

  ghost predicate RoundSoFar(s: State, pending: map<Group, int>, done: set<Group>, round: seq<Frame>, failed: bool) {
    && SentSoFar(pending, done, round) && CoveredBut(s, pending, done, round)
    && (failed <==> exists f | f in round :: !f.confirmed)
  }

  lemma RoundGoesOn(s: State, t: State, pending: map<Group, int>, done: set<Group>, g: Group, round: seq<Frame>,
                    failed: bool, lost: bool)
    requires Later(s, t) && RoundSoFar(s, pending, done, round, failed)
    requires g in pending && g !in done && (!lost ==> pending[g] <= GroupOf(t.groups, g).acked)
    ensures RoundSoFar(t, pending, done + {g}, round + [Frame(g, pending[g], !lost)], failed || lost)
  {
    CoveredStays(s, t, pending, done, g, round, !lost);
    SentOneMore(pending, done, g, round, !lost);
    FailedSoFar(round, Frame(g, pending[g], !lost));
  }

  lemma AllSent(groups: map<Group, GroupState>, pending: map<Group, int>, round: seq<Frame>)
    requires pending == map g | g in groups && groups[g].latest > groups[g].acked :: groups[g].latest
    requires SentSoFar(pending, pending.Keys, round)
    ensures RoundOf(groups, round)
  {
    forall g | g in groups && groups[g].acked < groups[g].latest
      ensures exists f :: f in round && f.group == g
    {
      assert g in pending.Keys;
    }
  }

  /** What was sent and confirmed is acknowledged. */
  ghost predicate CoveredBut(s: State, pending: map<Group, int>, done: set<Group>, round: seq<Frame>) {
    forall g | g in done && g in pending && !Lost(round, g) :: pending[g] <= GroupOf(s.groups, g).acked
  }

  lemma CoveredStays(s: State, t: State, pending: map<Group, int>, done: set<Group>, g: Group, round: seq<Frame>, confirmed: bool)
    requires Later(s, t) && CoveredBut(s, pending, done, round)
    requires g in pending && (confirmed ==> pending[g] <= GroupOf(t.groups, g).acked)
    ensures CoveredBut(t, pending, done + {g}, round + [Frame(g, pending[g], confirmed)])
  {
    var more := round + [Frame(g, pending[g], confirmed)];
    forall h | h in done + {g} && h in pending && !Lost(more, h)
      ensures pending[h] <= GroupOf(t.groups, h).acked
    {
      assert LaterGroup(s, t, h);
      assert forall f | f in round :: f in more;
      assert more[|round|] in more;
    }
  }

  lemma PendingIsMarked(s: State, t: State, pending: map<Group, int>, g: Group)
    requires Sound(s) && Later(s, t) && g in pending
    requires pending == map h | h in s.groups && s.groups[h].latest > s.groups[h].acked :: s.groups[h].latest
    ensures 0 < pending[g] <= GroupOf(t.groups, g).latest
  {
    assert GroupSound(s, g) && LaterGroup(s, t, g);
  }

  lemma AllPendingCovered(s: State, t: State, pending: map<Group, int>, round: seq<Frame>)
    requires Sound(s) && Sound(t) && Later(s, t)
    requires pending == map g | g in s.groups && s.groups[g].latest > s.groups[g].acked :: s.groups[g].latest
    requires CoveredBut(t, pending, pending.Keys, round)
    ensures forall u: Ticket | u < |s.issued| && !Lost(round, s.issued[u].0) :: u in t.closed
  {
    forall u: Ticket | u < |s.issued| && !Lost(round, s.issued[u].0)
      ensures u in t.closed
    {
      var g := s.issued[u].0;
      assert LaterGroup(s, t, g);
      CoveredIsClosed(s, t, u);
    }
  }
}
