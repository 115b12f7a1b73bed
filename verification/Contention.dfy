/** Losing races: an order on moments, and what was so at one of them no longer being so at the next. */
module Contention {

  /** `before(s, t)`: t comes no earlier than s. */
  ghost predicate Order<T(!new)>(before: (T, T) -> bool) {
    && (forall s :: before(s, s))
    && (forall s, t, u :: before(s, t) && before(t, u) ==> before(s, u))
  }

  /** Something was there at `held` and gone at `gone`. */
  datatype Race<T> = Race(held: T, gone: T)

  /** The races were lost one after the other between `s` and `t`; `lost` says what it is to lose the n-th. */
  ghost predicate LostInTurn<T>(before: (T, T) -> bool, lost: (T, T, nat) -> bool, s: T, races: seq<Race<T>>, t: T)
    decreases |races|
  {
    if races == [] then before(s, t)
    else
      var n := |races| - 1;
      && LostInTurn(before, lost, s, races[..n], races[n].held)
      && before(races[n].held, races[n].gone) && lost(races[n].held, races[n].gone, n) && before(races[n].gone, t)
  }

  lemma LostLater<T(!new)>(before: (T, T) -> bool, lost: (T, T, nat) -> bool, s: T, races: seq<Race<T>>, t: T, u: T)
    requires Order(before) && LostInTurn(before, lost, s, races, t) && before(t, u)
    ensures LostInTurn(before, lost, s, races, u)
  {
  }

  lemma LostOneMore<T(!new)>(before: (T, T) -> bool, lost: (T, T, nat) -> bool, s: T, races: seq<Race<T>>, held: T, gone: T, t: T)
    requires LostInTurn(before, lost, s, races, held) && before(held, gone) && lost(held, gone, |races|) && before(gone, t)
    ensures LostInTurn(before, lost, s, races + [Race(held, gone)], t)
  {
    assert (races + [Race(held, gone)])[..|races|] == races;
  }

  /** The first of the races. */
  lemma {:induction false} FirstRace<T(!new)>(before: (T, T) -> bool, lost: (T, T, nat) -> bool, s: T, races: seq<Race<T>>, t: T)
    requires Order(before) && LostInTurn(before, lost, s, races, t) && races != []
    ensures lost(races[0].held, races[0].gone, 0) && before(s, races[0].gone) && before(races[0].gone, t)
    decreases |races|
  {
    var n := |races| - 1;
    if n > 0 {
      FirstRace(before, lost, s, races[..n], races[n].held);
      assert before(races[0].gone, races[n].gone);
    }
  }
}
