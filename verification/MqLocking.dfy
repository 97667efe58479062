/**
 `read` under contention: picking (FOR UPDATE SKIP LOCKED) and updating are separate steps,
 and the picked rows stay locked in between. Every interleaving of such reads with any other
 statements is a run of the atomic machine, so everything proved about runs carries over;
 and reads that overlap in time return disjoint sets.
 */
module MqLocking {
  import opened Wrappers
  import opened Collections
  import opened MqTables

  type Reader = nat

  /** The rows one reader holds locked, and the clock its statement started with. */
  datatype Hold = Hold(queue: QueueId, quantity: nat, at: int, ids: set<MsgId>)

  datatype Contended = Contended(db: Db, holds: map<Reader, Hold>)

  datatype Action =
    | Pick(reader: Reader, queue: QueueId, quantity: nat)
    | Update(reader: Reader, lease: nat, draw: MsgId -> Token)
    | Other(event: Event)

  ghost function Locked(c: Contended): set<MsgId> {
    set r, id | r in c.holds && id in c.holds[r].ids :: id
  }

  /** A statement that would change a locked row waits, and so does not happen now. */
  ghost predicate LeavesAlone(db: Db, e: Event, ids: set<MsgId>) {
    forall id | id in ids && id in db.messages ::
      id in Step(db, e).messages && Step(db, e).messages[id] == db.messages[id]
  }

  ghost predicate Enabled(c: Contended, a: Action) {
    match a
    case Pick(r, q, n) => r !in c.holds
    case Update(r, lease, draw) => r in c.holds
    case Other(e) => !e.Claim? && LeavesAlone(c.db, e, Locked(c))
  }

  ghost function Act(c: Contended, a: Action): Contended
    requires Enabled(c, a)
  {
    match a
    case Pick(r, q, n) =>
      c.(holds := c.holds[r := Hold(q, n, c.db.now, Lowest(VisibleIds(c.db, q, c.db.now) - Locked(c), n))])
    case Update(r, lease, draw) =>
      var h := c.holds[r];
      Contended(LeaseAll(c.db, h.ids, h.at + lease * SECOND, draw), c.holds - {r})
    case Other(e) => c.(db := Step(c.db, e))
  }

  type Schedule = seq<Action>

  /** The contended tables after `k` actions, if every action up to there was enabled. */
  ghost function Reach(sched: Schedule, k: nat): Option<Contended>
    requires k <= |sched|
  {
    if k == 0 then Some(Contended(EMPTY, map[]))
    else
      var before := Reach(sched, k - 1);
      if before.Some? && Enabled(before.value, sched[k - 1]) then Some(Act(before.value, sched[k - 1])) else None
  }

  // ----- Invariant: locked rows wait unchanged, and no row is locked twice -----

  ghost predicate Exclusive(c: Contended) {
    forall r, r' | r in c.holds && r' in c.holds && r != r' :: c.holds[r].ids !! c.holds[r'].ids
  }

  ghost predicate Waiting(c: Contended) {
    forall r | r in c.holds :: HoldOk(c.db, c.holds[r])
  }

  ghost predicate HoldOk(db: Db, h: Hold) {
    h.at <= db.now && |h.ids| <= h.quantity && h.ids <= VisibleIds(db, h.queue, h.at)
  }

  lemma PickTakesFreeRows(c: Contended, a: Action)
    requires a.Pick? && Enabled(c, a)
    ensures var c' := Act(c, a);
            && a.reader in c'.holds && c' == c.(holds := c.holds[a.reader := c'.holds[a.reader]])
            && HoldOk(c.db, c'.holds[a.reader]) && c'.holds[a.reader].ids !! Locked(c)
  {
  }

  lemma PickKeeps(c: Contended, a: Action)
    requires a.Pick? && Enabled(c, a) && Exclusive(c) && Waiting(c)
    ensures Exclusive(Act(c, a)) && Waiting(Act(c, a))
  {
    hide Act, Enabled, HoldOk;
    PickTakesFreeRows(c, a);
    forall r | r in c.holds
      ensures Act(c, a).holds[a.reader].ids !! c.holds[r].ids
    {
      assert c.holds[r].ids <= Locked(c);
    }
  }

  lemma UpdateKeeps(c: Contended, a: Action)
    requires a.Update? && Enabled(c, a) && Exclusive(c) && Waiting(c)
    ensures Exclusive(Act(c, a)) && Waiting(Act(c, a))
  {
  }

  lemma OtherKeeps(c: Contended, a: Action)
    requires a.Other? && Enabled(c, a) && Exclusive(c) && Waiting(c)
    ensures Exclusive(Act(c, a)) && Waiting(Act(c, a))
  {
    StepClock(c.db, a.event);
    hide Step;
    var c' := Act(c, a);
    forall r | r in c'.holds
      ensures HoldOk(c'.db, c'.holds[r])
    {
      assert HoldOk(c.db, c.holds[r]);
      assert c.holds[r].ids <= Locked(c);
    }
  }

  lemma {:induction false} LocksAreExclusive(sched: Schedule, k: nat)
    requires k <= |sched| && Reach(sched, k).Some?
    ensures Exclusive(Reach(sched, k).value) && Waiting(Reach(sched, k).value)
  {
    hide Act, Enabled;
    if k > 0 {
      LocksAreExclusive(sched, k - 1);
      var c, a := Reach(sched, k - 1).value, sched[k - 1];
      if a.Pick? {
        PickKeeps(c, a);
      } else if a.Update? {
        UpdateKeeps(c, a);
      } else {
        OtherKeeps(c, a);
      }
    }
  }

  // ----- Every schedule is a run of the atomic machine -----

  /** An update is one atomic claim that skipped whatever it did not hold; picking changes no table. */
  ghost function Linearize(c: Contended, a: Action): Run
    requires Enabled(c, a)
  {
    match a
    case Pick(r, q, n) => []
    case Update(r, lease, draw) =>
      var h := c.holds[r];
      [Claim(h.queue, h.quantity, lease, h.at, VisibleIds(c.db, h.queue, h.at) - h.ids, draw)]
    case Other(e) => [e]
  }

  lemma ClaimOfHeld(db: Db, h: Hold, e: Event)
    requires HoldOk(db, h) && e.Claim? && e.queue == h.queue && e.quantity == h.quantity && e.at == h.at
    requires e.skip == VisibleIds(db, h.queue, h.at) - h.ids
    ensures Claimed(db, e) == h.ids
  {
    assert VisibleIds(db, h.queue, h.at) - e.skip == h.ids;
    LowestUnique(h.ids, h.quantity, h.ids);
  }

  lemma UpdateIsClaim(c: Contended, a: Action)
    requires Enabled(c, a) && a.Update? && Waiting(c)
    ensures var e := Linearize(c, a)[0];
            && e.Claim? && e.at <= c.db.now
            && Claimed(c.db, e) == c.holds[a.reader].ids
            && Step(c.db, e) == Act(c, a).db
  {
    hide Claimed;
    var h := c.holds[a.reader];
    assert HoldOk(c.db, h);
    ClaimOfHeld(c.db, h, Linearize(c, a)[0]);
  }

  ghost function Project(sched: Schedule, k: nat): Run
    requires k <= |sched| && Reach(sched, k).Some?
  {
    if k == 0 then [] else Project(sched, k - 1) + Linearize(Reach(sched, k - 1).value, sched[k - 1])
  }

  lemma ClockedExtend(run: Run, e: Event)
    requires Clocked(run) && (e.Claim? ==> e.at <= After(run, |run|).now)
    ensures Clocked(run + [e]) && After(run + [e], |run| + 1) == Step(After(run, |run|), e)
  {
    hide Step;
    var longer := run + [e];
    forall k: nat | k <= |run|
      ensures After(longer, k) == After(run, k)
    {
      AfterPrefix(run, [e], k);
    }
  }

  /** An action changes the tables exactly as its projection does. */
  lemma LinearizeStep(c: Contended, a: Action)
    requires Enabled(c, a) && Waiting(c)
    ensures if a.Pick? then Linearize(c, a) == [] && Act(c, a).db == c.db
            else |Linearize(c, a)| == 1 && Act(c, a).db == Step(c.db, Linearize(c, a)[0])
                 && (Linearize(c, a)[0].Claim? ==> Linearize(c, a)[0].at <= c.db.now)
  {
    if a.Update? {
      UpdateIsClaim(c, a);
    }
  }

  /** The projected run is a legal run of the atomic machine and ends in the same tables. */
  lemma {:induction false} ContendedReadsAreAtomic(sched: Schedule, k: nat)
    requires k <= |sched| && Reach(sched, k).Some?
    ensures Clocked(Project(sched, k))
    ensures After(Project(sched, k), |Project(sched, k)|) == Reach(sched, k).value.db
  {
    hide Step, Enabled, Act, Linearize, Clocked;
    if k == 0 {
      EmptyClocked();
    } else {
      ContendedReadsAreAtomic(sched, k - 1);
      LocksAreExclusive(sched, k - 1);
      var run, c, a := Project(sched, k - 1), Reach(sched, k - 1).value, sched[k - 1];
      LinearizeStep(c, a);
      if a.Pick? {
        assert Project(sched, k) == run;
      } else {
        ClockedExtend(run, Linearize(c, a)[0]);
        assert Project(sched, k) == run + [Linearize(c, a)[0]];
      }
    }
  }

  lemma EmptyClocked()
    ensures Clocked([])
  {
  }

  /** The messages action `k` hands to its reader. */
  ghost function Returned(sched: Schedule, k: nat): set<MsgId>
    requires k < |sched| && sched[k].Update? && Reach(sched, k + 1).Some?
  {
    Reach(sched, k).value.holds[sched[k].reader].ids
  }

  lemma HoldStep(c: Contended, a: Action, r: Reader)
    requires Enabled(c, a) && r in c.holds && !(a.Update? && a.reader == r)
    ensures r in Act(c, a).holds && Act(c, a).holds[r] == c.holds[r]
  {
  }

  lemma {:induction false} HoldLasts(sched: Schedule, i: nat, j: nat, r: Reader)
    requires i <= j <= |sched| && Reach(sched, j).Some?
    requires Reach(sched, i).Some? && r in Reach(sched, i).value.holds
    requires forall k | i <= k < j :: !(sched[k].Update? && sched[k].reader == r)
    ensures r in Reach(sched, j).value.holds
    ensures Reach(sched, j).value.holds[r] == Reach(sched, i).value.holds[r]
  {
    hide Act, Enabled;
    if i < j {
      HoldLasts(sched, i, j - 1, r);
      HoldStep(Reach(sched, j - 1).value, sched[j - 1], r);
    }
  }

  /** The read that ends at `j` had picked its rows before another read ended at `i`. */
  ghost predicate Overlap(sched: Schedule, i: nat, j: nat)
    requires i < j < |sched| && sched[i].Update? && sched[j].Update? && Reach(sched, i + 1).Some?
  {
    && sched[i].reader != sched[j].reader && sched[j].reader in Reach(sched, i).value.holds
    && forall k | i <= k < j :: !(sched[k].Update? && sched[k].reader == sched[j].reader)
  }

  /** Reads that overlap in time share no message. */
  lemma OverlappingReadsDisjoint(sched: Schedule, i: nat, j: nat)
    requires i < j < |sched| && sched[i].Update? && sched[j].Update?
    ensures Reach(sched, i + 1).Some? && Reach(sched, j + 1).Some? && Overlap(sched, i, j) ==>
              Returned(sched, i) !! Returned(sched, j)
  {
    hide Act, Step;
    if Reach(sched, i + 1).Some? && Reach(sched, j + 1).Some? && Overlap(sched, i, j) {
      LocksAreExclusive(sched, i);
      HoldLasts(sched, i, j, sched[j].reader);
    }
  }
}
