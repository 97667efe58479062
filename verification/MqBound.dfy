/**
 Bounded redelivery. `read` dead-letters messages that have reached the queue's limit and
 then claims visible ones. Taken as one step it never delivers a message more than the
 limit allows; run as the two separate statements it is, it can, and the exact condition
 is told by what other clients and the clock do in between.
 */
module MqBound {
  import opened Wrappers
  import opened Collections
  import opened MqTables
  import opened MqLedger
  import opened MqRuns

  /** Every claim directly follows the dead-letter statement of the same read, on the same clock. */
  ghost predicate AtomicReads(run: Run) {
    forall k: nat | k < |run| && run[k].Claim? ::
      0 < k && run[k - 1] == DeadLetterDue(run[k].queue) && run[k].at == After(run, k).now
  }

  /** The queue's limit is positive and has been reached. */
  predicate AtLimit(db: Db, id: MsgId) {
    id in db.messages && 0 < Limit(db, db.messages[id].queue) <= db.messages[id].readCount
  }

  ghost predicate WithinLimit(db: Db) {
    forall id | id in db.messages ::
      var limit := Limit(db, db.messages[id].queue);
      0 < limit ==> db.messages[id].readCount <= limit
  }

  /** Foreign keys: every row belongs to an existing queue. */
  ghost predicate QueuesExist(db: Db) {
    && (forall id | id in db.messages :: db.messages[id].queue in db.limits)
    && (forall k | k in db.dlq :: k.queue in db.limits)
  }

  lemma QueuesStep(db: Db, e: Event)
    requires QueuesExist(db)
    ensures QueuesExist(Step(db, e))
  {
  }

  lemma {:induction false} QueuesAlwaysExist(run: Run, k: nat)
    requires k <= |run|
    ensures QueuesExist(After(run, k))
  {
    hide Step;
    if k > 0 {
      QueuesAlwaysExist(run, k - 1);
      QueuesStep(After(run, k - 1), run[k - 1]);
    }
  }

  lemma BoundStep(db: Db, e: Event)
    requires WithinLimit(db) && QueuesExist(db) && !e.Claim?
    ensures WithinLimit(Step(db, e))
  {
  }

  lemma DueLeavesNone(db: Db, q: QueueId)
    ensures var db' := Step(db, DeadLetterDue(q)); Due(db', q) == {} && db'.now == db.now
  {
  }

  /** A claim keeps the bound exactly when it takes no message that is at its limit. */
  lemma ClaimKeepsBoundIff(db: Db, e: Event)
    requires WithinLimit(db) && e.Claim?
    ensures WithinLimit(Step(db, e)) <==> forall id | id in Claimed(db, e) :: !AtLimit(db, id)
  {
    ClaimRows(db, e);
    hide Step, Claimed;
    if id :| id in Claimed(db, e) && AtLimit(db, id) {
      assert id in Step(db, e).messages;
    }
  }

  lemma NoneDueNoneAtLimit(db: Db, e: Event)
    requires e.Claim? && e.at == db.now && Due(db, e.queue) == {}
    ensures forall id | id in Claimed(db, e) :: !AtLimit(db, id)
  {
    forall id | id in Claimed(db, e)
      ensures !AtLimit(db, id)
    {
      assert id !in Due(db, e.queue);
    }
  }

  lemma EmptyWithinLimit()
    ensures WithinLimit(EMPTY)
  {
  }

  /** With atomic reads no row is ever read more often than its queue allows. */
  lemma {:induction false} ReadCountBounded(run: Run, k: nat)
    requires AtomicReads(run) && k <= |run|
    ensures WithinLimit(After(run, k))
  {
    hide Step, Due, WithinLimit, Claimed, AtLimit;
    if k == 0 {
      EmptyWithinLimit();
    } else {
      ReadCountBounded(run, k - 1);
      var before, e := After(run, k - 1), run[k - 1];
      if e.Claim? {
        DueLeavesNone(After(run, k - 2), e.queue);
        NoneDueNoneAtLimit(before, e);
        ClaimKeepsBoundIff(before, e);
      } else {
        QueuesAlwaysExist(run, k - 1);
        BoundStep(before, e);
      }
    }
  }

  // ----- Deliveries per send or reprocess -----

  /** How often `id` is delivered by events i, ..., j - 1. */
  function Deliveries(run: Run, i: nat, j: nat, id: MsgId): nat
    requires i <= j <= |run|
    decreases j
  {
    if i == j then 0 else Deliveries(run, i, j - 1, id) + One(id in Delivered(run, j - 1))
  }

  ghost predicate NotRevived(run: Run, i: nat, j: nat, id: MsgId)
    requires j <= |run|
  {
    forall k | i <= k < j :: !(run[k].Reprocess? && run[k].id == id && Revives(After(run, k), run[k].queue, id))
  }

  /** A row that is neither new nor revived keeps its queue and counts its deliveries. */
  lemma RowStep(db: Db, e: Event, id: MsgId)
    requires QueuesExist(db) && id in Step(db, e).messages
    requires !(e.Send? && e.id == id) && !(e.Reprocess? && e.id == id && Revives(db, e.queue, id))
    ensures id in db.messages
    ensures var m, m' := db.messages[id], Step(db, e).messages[id];
            && m'.queue == m.queue
            && m'.readCount == m.readCount + One(e.Claim? && id in Claimed(db, e))
            && Limit(Step(db, e), m.queue) == Limit(db, m.queue)
  {
  }

  lemma ClaimKeepsRow(db: Db, e: Event, id: MsgId)
    requires e.Claim? && id in Claimed(db, e)
    ensures id in db.messages && id in Step(db, e).messages
  {
  }

  /** What is known about a message `j` events into a run, counting from its state at event `i`. */
  ghost predicate LifeSoFar(run: Run, i: nat, j: nat, id: MsgId)
    requires i <= j <= |run| && id in After(run, i).messages
  {
    var m, db, d := After(run, i).messages[id], After(run, j), Deliveries(run, i, j, id);
    var limit := Limit(After(run, i), m.queue);
    && (0 < limit ==> m.readCount + d <= limit)
    && (id in db.messages ==>
          && db.messages[id].queue == m.queue
          && db.messages[id].readCount == m.readCount + d
          && Limit(db, m.queue) == limit)
  }

  lemma {:induction false} LifeStep(run: Run, i: nat, j: nat, id: MsgId)
    requires AtomicReads(run) && FreshIds(run) && i <= j < |run| && id in After(run, i).messages
    requires NotRevived(run, i, j + 1, id) && LifeSoFar(run, i, j, id)
    ensures LifeSoFar(run, i, j + 1, id)
  {
    hide Step, Claimed, Record;
    Conservation(run, i);
    IssuedForever(run, i, j, id);
    ReadCountBounded(run, j);
    ReadCountBounded(run, j + 1);
    var db, e := After(run, j), run[j];
    if e.Claim? && id in Claimed(db, e) {
      ClaimKeepsRow(db, e, id);
    }
    QueuesAlwaysExist(run, j);
    if id in Step(db, e).messages {
      RowStep(db, e, id);
    }
  }

  lemma {:induction false} LifeHolds(run: Run, i: nat, j: nat, id: MsgId)
    requires AtomicReads(run) && FreshIds(run) && i <= j <= |run| && id in After(run, i).messages
    requires NotRevived(run, i, j, id)
    ensures LifeSoFar(run, i, j, id)
  {
    hide Step, Claimed;
    if i == j {
      ReadCountBounded(run, i);
    } else {
      LifeHolds(run, i, j - 1, id);
      LifeStep(run, i, j - 1, id);
    }
  }

  /**
   Counting from any point of its life, a message that is not reprocessed is delivered at
   most as often as the limit leaves room for: the full limit right after a send or reprocess.
   */
  lemma DeliveredAtMostLimitTimes(run: Run, i: nat, j: nat, id: MsgId)
    requires AtomicReads(run) && FreshIds(run) && i <= j <= |run| && id in After(run, i).messages
    requires NotRevived(run, i, j, id)
    requires 0 < Limit(After(run, i), After(run, i).messages[id].queue)
    ensures After(run, i).messages[id].readCount + Deliveries(run, i, j, id)
            <= Limit(After(run, i), After(run, i).messages[id].queue)
  {
    hide Step, Claimed;
    LifeHolds(run, i, j, id);
  }

  // ----- Every productive read uses up budget -----

  function Remaining(db: Db, q: QueueId): MsgId -> int {
    id => if id in db.messages then Limit(db, q) + 1 - db.messages[id].readCount else 0
  }

  /** The deliveries and dead-letter moves still possible without new messages. */
  ghost function Budget(db: Db, q: QueueId): int {
    Sum(ActiveIds(db, q), Remaining(db, q))
  }

  /** What a whole read does to the rows: due ones leave, claimed ones count one delivery. */
  lemma ReadRows(db: Db, e: Event)
    requires e.Claim?
    ensures var mid := Step(db, DeadLetterDue(e.queue));
            var db' := Step(mid, e);
            && db'.limits == db.limits
            && Claimed(mid, e) <= VisibleIds(db, e.queue, e.at) - Due(db, e.queue)
            && db'.messages.Keys == db.messages.Keys - Due(db, e.queue)
            && forall id | id in db'.messages ::
                 && db'.messages[id].queue == db.messages[id].queue
                 && db'.messages[id].readCount == db.messages[id].readCount + One(id in Claimed(mid, e))
  {
    hide Step, Claimed, Due, VisibleIds;
    MidRows(db, e.queue, e.at);
    ClaimRows(Step(db, DeadLetterDue(e.queue)), e);
  }

  lemma MidRows(db: Db, q: QueueId, at: int)
    ensures var mid := Step(db, DeadLetterDue(q));
            && mid.messages == db.messages - Due(db, q) && mid.limits == db.limits && mid.now == db.now
            && VisibleIds(mid, q, at) <= VisibleIds(db, q, at) - Due(db, q)
  {
  }

  lemma ClaimRows(db: Db, e: Event)
    requires e.Claim?
    ensures Step(db, e).limits == db.limits && Step(db, e).messages.Keys == db.messages.Keys
    ensures Claimed(db, e) <= VisibleIds(db, e.queue, e.at)
    ensures forall id | id in db.messages ::
              && Step(db, e).messages[id].queue == db.messages[id].queue
              && Step(db, e).messages[id].readCount == db.messages[id].readCount + One(id in Claimed(db, e))
  {
  }

  /** Rows that leave, and rows that count one more delivery, bring the sum down. */
  lemma BudgetDrops(db: Db, db': Db, q: QueueId, due: set<MsgId>, claimed: set<MsgId>)
    requires Limit(db', q) == Limit(db, q)
    requires forall id | id in ActiveIds(db, q) :: db.messages[id].readCount <= Limit(db, q)
    requires due <= ActiveIds(db, q) && ActiveIds(db', q) == ActiveIds(db, q) - due && claimed <= ActiveIds(db', q)
    requires forall id | id in ActiveIds(db', q) ::
               db'.messages[id].readCount == db.messages[id].readCount + One(id in claimed)
    ensures 0 <= Budget(db', q) <= Budget(db, q)
    ensures due != {} || claimed != {} ==> Budget(db', q) < Budget(db, q)
  {
    hide Sum;
    var small, large, f, g := ActiveIds(db', q), ActiveIds(db, q), Remaining(db', q), Remaining(db, q);
    assert forall id | id in small :: id in large && 0 <= f(id) == g(id) - One(id in claimed);
    SumMonotone(small, large, f, g);
    SumNonNegative(small, f);
    if due != {} {
      var id :| id in due;
      assert id in large && id !in small;
    } else if claimed != {} {
      var id :| id in claimed;
      assert id in small && f(id) < g(id);
    }
  }

  /** A read that delivers or dead-letters anything leaves a smaller, never negative, budget. */
  lemma ReadSpendsBudget(db: Db, e: Event)
    requires e.Claim? && e.at == db.now
    requires WithinLimit(db) && 0 < Limit(db, e.queue)
    ensures var mid := Step(db, DeadLetterDue(e.queue));
            var db' := Step(mid, e);
            && 0 <= Budget(db', e.queue) <= Budget(db, e.queue)
            && (Due(db, e.queue) != {} || Claimed(mid, e) != {} ==> Budget(db', e.queue) < Budget(db, e.queue))
  {
    ReadRows(db, e);
    hide Step, Claimed, Budget;
    var mid := Step(db, DeadLetterDue(e.queue));
    var db' := Step(mid, e);
    assert ActiveIds(db', e.queue) == ActiveIds(db, e.queue) - Due(db, e.queue);
    assert Claimed(mid, e) <= ActiveIds(db', e.queue);
    BudgetDrops(db, db', e.queue, Due(db, e.queue), Claimed(mid, e));
  }

  // ----- The two statements taken apart -----

  ghost predicate ReadMeansLeased(db: Db) {
    forall id | id in db.messages && 0 < db.messages[id].readCount :: db.messages[id].leaseUntil.Some?
  }

  lemma StepLeased(db: Db, e: Event)
    requires ReadMeansLeased(db)
    ensures ReadMeansLeased(Step(db, e))
  {
  }

  lemma {:induction false} ReadRowsAreLeased(run: Run, k: nat)
    requires k <= |run|
    ensures ReadMeansLeased(After(run, k))
  {
    hide Step;
    if k > 0 {
      ReadRowsAreLeased(run, k - 1);
      StepLeased(After(run, k - 1), run[k - 1]);
    }
  }

  /** The row of `id` is inserted, by send or by reprocess. */
  predicate Arrives(db: Db, e: Event, id: MsgId) {
    || (e.Send? && e.id == id && e.queue in db.limits && id !in db.messages)
    || (e.Reprocess? && e.id == id && Revives(db, e.queue, id))
  }

  /** Event `k` brings the row of `id` in, hands it out or renews its lease. */
  predicate Touches(run: Run, k: nat, id: MsgId)
    requires k < |run|
  {
    var db, e := After(run, k), run[k];
    || Arrives(db, e, id)
    || id in Delivered(run, k)
    || Renews(run, k, id)
  }

  ghost predicate Untouched(run: Run, i: nat, j: nat, id: MsgId)
    requires j <= |run|
  {
    forall k | i <= k < j :: !Touches(run, k, id)
  }

  lemma KeptRow(db: Db, e: Event, id: MsgId)
    requires QueuesExist(db) && id in Step(db, e).messages && !Arrives(db, e, id)
    requires !(e.Claim? && id in Claimed(db, e))
    requires !(e.Extend? && e.id == id && Holds(db, e.queue, id, e.token))
    ensures id in db.messages && Step(db, e).messages[id] == db.messages[id]
    ensures Limit(Step(db, e), db.messages[id].queue) == Limit(db, db.messages[id].queue)
  {
  }

  /** A row that nothing touches is the row it was, in a queue with the same limit. */
  lemma {:induction false} UntouchedRow(run: Run, i: nat, j: nat, id: MsgId)
    requires i <= j <= |run| && Untouched(run, i, j, id) && id in After(run, j).messages
    ensures id in After(run, i).messages && After(run, j).messages[id] == After(run, i).messages[id]
    ensures AtLimit(After(run, j), id) <==> AtLimit(After(run, i), id)
    decreases j - i
  {
    hide Step, Claimed, QueuesExist, Holds;
    if i < j {
      QueuesAlwaysExist(run, j - 1);
      assert !Touches(run, j - 1, id);
      KeptRow(After(run, j - 1), run[j - 1], id);
      UntouchedRow(run, i, j - 1, id);
    }
  }

  /** The last event from `i` on that touched the row. */
  lemma {:induction false} LastTouch(run: Run, i: nat, j: nat, id: MsgId) returns (k: Option<nat>)
    requires i <= j <= |run|
    ensures k.None? ==> Untouched(run, i, j, id)
    ensures k.Some? ==> i <= k.value < j && Touches(run, k.value, id) && Untouched(run, k.value + 1, j, id)
    decreases j - i
  {
    hide Touches;
    if i == j {
      k := None;
    } else if Touches(run, j - 1, id) {
      k := Some(j - 1);
    } else {
      k := LastTouch(run, i, j - 1, id);
    }
  }

  // A read whose two statements are the events i < j of a run, with anything in between.

  /** At the limit and leased when the read began; the lease ran out before the claim. */
  ghost predicate Lapsed(run: Run, i: nat, j: nat, id: MsgId)
    requires i < j < |run| && run[j].Claim?
  {
    && Untouched(run, i + 1, j, id) && AtLimit(After(run, i + 1), id)
    && var m := After(run, i + 1).messages[id];
       m.leaseUntil.Some? && After(run, i).now < m.leaseUntil.value <= run[j].at
  }

  /** At the limit when its holder set a new deadline, at event `k`, that passed before the claim. */
  ghost predicate Shortened(run: Run, k: nat, j: nat, id: MsgId)
    requires k < j < |run| && run[j].Claim?
  {
    && Renews(run, k, id) && Untouched(run, k + 1, j, id) && AtLimit(After(run, k), id)
    && After(run, k).now + run[k].lease * SECOND <= run[j].at
  }

  /** Brought to the limit by another read, at event `k`, under a lease that ended before the claim. */
  ghost predicate ReadMeanwhile(run: Run, k: nat, j: nat, id: MsgId)
    requires k < j < |run| && run[j].Claim?
  {
    && id in Delivered(run, k) && Untouched(run, k + 1, j, id) && AtLimit(After(run, k + 1), id)
    && run[k].at + run[k].lease * SECOND <= run[j].at
  }

  /** What can make the claim at `j` overrun, told by what happened since the dead-letter statement at `i`. */
  ghost predicate AtRisk(run: Run, i: nat, j: nat, id: MsgId)
    requires i < j < |run| && run[j].Claim?
  {
    && Active(After(run, j), run[j].queue, id)
    && (|| Lapsed(run, i, j, id)
        || (exists k :: i < k < j && Shortened(run, k, j, id))
        || (exists k :: i < k < j && ReadMeanwhile(run, k, j, id)))
  }

  /** The two statements of one read: the claim starts after the dead-letter statement. */
  ghost predicate SplitRead(run: Run, i: nat, j: nat) {
    && i < j < |run| && run[j].Claim? && run[i] == DeadLetterDue(run[j].queue)
    && After(run, i).now <= run[j].at
  }

  lemma ArrivedRow(db: Db, e: Event, id: MsgId)
    requires Arrives(db, e, id)
    ensures !AtLimit(Step(db, e), id)
  {
  }

  lemma DeliveredRow(db: Db, e: Event, id: MsgId)
    requires e.Claim? && id in Claimed(db, e)
    ensures id in Step(db, e).messages
    ensures var m := Step(db, e).messages[id]; m.availableAt <= e.at && m.leaseUntil == Some(e.at + e.lease * SECOND)
  {
  }

  lemma RenewedRow(db: Db, e: Event, id: MsgId)
    requires e.Extend? && e.id == id && Holds(db, e.queue, id, e.token)
    ensures id in db.messages && id in Step(db, e).messages
    ensures Step(db, e).messages[id] == db.messages[id].(leaseUntil := Some(db.now + e.lease * SECOND))
    ensures db.messages[id].leaseUntil.Some?
    ensures AtLimit(Step(db, e), id) <==> AtLimit(db, id)
  {
  }

  /** After the dead-letter statement a row at the limit is out on a lease. */
  lemma NotDueIsLeased(db: Db, q: QueueId, id: MsgId)
    requires LeasedWereAvailable(db) && ReadMeansLeased(db) && Due(db, q) == {}
    requires Active(db, q, id) && AtLimit(db, id)
    ensures db.messages[id].leaseUntil.Some? && db.now < db.messages[id].leaseUntil.value
  {
    assert id !in Due(db, q);
  }

  /** If the claim could take a row at the limit, one of the three things happened to it. */
  lemma VisibleIsAtRisk(run: Run, i: nat, j: nat, id: MsgId)
    requires Clocked(run) && SplitRead(run, i, j)
    requires Active(After(run, j), run[j].queue, id) && AtLimit(After(run, j), id)
    requires After(run, j).messages[id].Visible(run[j].at)
    ensures AtRisk(run, i, j, id)
  {
    hide Step, Due, Claimed, Holds, Clocked;
    var k := LastTouch(run, i + 1, j, id);
    if k.None? {
      UntouchedRow(run, i + 1, j, id);
      DueLeavesNone(After(run, i), run[j].queue);
      LeasesAreAvailable(run, i + 1);
      ReadRowsAreLeased(run, i + 1);
      NotDueIsLeased(After(run, i + 1), run[j].queue, id);
      assert Lapsed(run, i, j, id);
    } else {
      var db, e := After(run, k.value), run[k.value];
      UntouchedRow(run, k.value + 1, j, id);
      if Arrives(db, e, id) {
        ArrivedRow(db, e, id);
      } else if id in Delivered(run, k.value) {
        DeliveredRow(db, e, id);
        assert ReadMeanwhile(run, k.value, j, id);
      } else {
        RenewedRow(db, e, id);
        assert Shortened(run, k.value, j, id);
      }
    }
  }

  /** And each of the three makes a row at the limit visible to the claim. */
  lemma AtRiskIsVisible(run: Run, i: nat, j: nat, id: MsgId)
    requires Clocked(run) && SplitRead(run, i, j) && AtRisk(run, i, j, id)
    ensures AtLimit(After(run, j), id) && After(run, j).messages[id].Visible(run[j].at)
  {
    hide Step, Due, Claimed, Holds, Clocked, AtLimit;
    if Lapsed(run, i, j, id) {
      UntouchedRow(run, i + 1, j, id);
      LeasesAreAvailable(run, i + 1);
      DueLeavesNone(After(run, i), run[j].queue);
    } else if k :| i < k < j && Shortened(run, k, j, id) {
      UntouchedRow(run, k + 1, j, id);
      LeasesAreAvailable(run, k);
      RenewedRow(After(run, k), run[k], id);
    } else {
      var k :| i < k < j && ReadMeanwhile(run, k, j, id);
      UntouchedRow(run, k + 1, j, id);
      DeliveredRow(After(run, k), run[k], id);
    }
  }

  /** The visible, unlocked rows that a claim takes before `id`. */
  function Ahead(db: Db, e: Event, id: MsgId): set<MsgId>
    requires e.Claim?
  {
    set x | x in VisibleIds(db, e.queue, e.at) - e.skip && x < id
  }

  lemma ClaimedIff(db: Db, e: Event, id: MsgId)
    requires e.Claim?
    ensures id in Claimed(db, e) <==>
            && Active(db, e.queue, id) && db.messages[id].Visible(e.at) && id !in e.skip
            && |Ahead(db, e, id)| < e.quantity
  {
    var s := VisibleIds(db, e.queue, e.at) - e.skip;
    if id in s {
      InLowestIff(s, e.quantity, id);
      assert Ahead(db, e, id) == set y | y in s && y < id;
    }
  }

  /**
   A read split by any events of any clients keeps the bound if and only if every unlocked row
   at risk has `quantity` visible rows ahead of it. At risk is a row at the limit whose lease
   lapsed since the dead-letter statement, or was cut short by its holder, or that another
   read brought to the limit meanwhile.
   */
  lemma SplitReadExact(run: Run, i: nat, j: nat)
    requires Clocked(run) && SplitRead(run, i, j) && WithinLimit(After(run, j))
    ensures WithinLimit(After(run, j + 1)) <==>
            forall id | AtRisk(run, i, j, id) && id !in run[j].skip ::
              run[j].quantity <= |Ahead(After(run, j), run[j], id)|
  {
    hide Step, Claimed, WithinLimit, AtRisk, Ahead, AtLimit;
    var db, e := After(run, j), run[j];
    ClaimKeepsBoundIff(db, e);
    forall id
      ensures AtRisk(run, i, j, id) && id !in e.skip && |Ahead(db, e, id)| < e.quantity <==>
              id in Claimed(db, e) && AtLimit(db, id)
    {
      ClaimedIff(db, e, id);
      if AtRisk(run, i, j, id) {
        AtRiskIsActive(run, i, j, id);
        AtRiskIsVisible(run, i, j, id);
      }
      if id in Claimed(db, e) && AtLimit(db, id) {
        VisibleIsAtRisk(run, i, j, id);
      }
    }
  }

  lemma AtRiskIsActive(run: Run, i: nat, j: nat, id: MsgId)
    requires SplitRead(run, i, j) && AtRisk(run, i, j, id)
    ensures Active(After(run, j), run[j].queue, id)
  {
  }

  // ----- Three runs that deliver a message of a limit-one queue twice -----

  const CREATE := CreateQueue(0, 1)
  const SEND := Send(0, 7, "x", 0)
  const DUE := DeadLetterDue(0)

  /** Claims one message of queue 0 at time `at`, giving it the token `token`. */
  function Take(lease: nat, at: int, token: Token): Event {
    Claim(0, 1, lease, at, {}, id => token)
  }

  // The lease lapses between the two statements of the second read.
  const LATE: Run := [CREATE, SEND, DUE, Take(1, 0, "t"), DUE, Tick(SECOND), Take(1, SECOND, "u")]
  // The holder gives its lease up between them; no time passes.
  const CUT_SHORT: Run := [CREATE, SEND, DUE, Take(1, 0, "t"), DUE, Extend(0, 7, "t", 0), Take(1, 0, "u")]
  // A whole other read comes between them, with a lease of 0 seconds; no time passes.
  const CROSSED: Run := [CREATE, SEND, DUE, DUE, Take(0, 0, "t"), Take(1, 0, "u")]

  function OneRow(now: int, m: Message): Db {
    Db(now, map[0 := 1], map[7 := m], map[], [])
  }

  const SENT := Message(0, "x", NO_HEADERS, 0, None, None, 0, 0)

  lemma SentState()
    ensures Step(Step(EMPTY, CREATE), SEND) == OneRow(0, SENT)
  {
  }

  lemma TakeState(now: int, m: Message, lease: nat, token: Token)
    requires m.queue == 0 && m.Visible(now)
    ensures Step(OneRow(now, m), Take(lease, now, token)) == OneRow(now, Leased(m, now + lease * SECOND, token))
  {
    var db := OneRow(now, m);
    assert VisibleIds(db, 0, now) - {} == {7};
    LowestUnique({7}, 1, {7});
  }

  lemma DueState(m: Message)
    requires m.readCount == 0 || m.InFlight(0)
    ensures Step(OneRow(0, m), DUE) == OneRow(0, m)
  {
    assert Due(OneRow(0, m), 0) == {};
  }

  lemma TickState(m: Message)
    ensures Step(OneRow(0, m), Tick(SECOND)) == OneRow(SECOND, m)
  {
  }

  lemma GiveUpState(m: Message)
    requires m.queue == 0 && m.token == Some("t") && m.InFlight(0)
    ensures Step(OneRow(0, m), Extend(0, 7, "t", 0)) == OneRow(0, m.(leaseUntil := Some(0)))
  {
  }

  /** The tables after a send, a first read and the first statement of the next one. */
  lemma FirstReads(run: Run)
    requires |run| >= 5 && run[..5] == [CREATE, SEND, DUE, Take(1, 0, "t"), DUE]
    ensures After(run, 3) == OneRow(0, SENT)
    ensures After(run, 4) == After(run, 5) == OneRow(0, Leased(SENT, SECOND, "t"))
  {
    hide Step, OneRow;
    assert forall k | 0 <= k < 5 :: run[k] == run[..5][k];
    SentState();
    DueState(SENT);
    TakeState(0, SENT, 1, "t");
    DueState(Leased(SENT, SECOND, "t"));
    assert After(run, 2) == Step(After(run, 1), run[1]) && After(run, 1) == Step(After(run, 0), run[0]);
  }

  /** A legal run whose read at `i` and `j` is the first to break the bound. */
  ghost predicate Overruns(run: Run, i: nat, j: nat) {
    && FreshIds(run) && Clocked(run) && SplitRead(run, i, j)
    && WithinLimit(After(run, j)) && !WithinLimit(After(run, j + 1))
  }

  lemma BoundOfOneRow(now: int, m: Message)
    requires m.queue == 0
    ensures WithinLimit(OneRow(now, m)) <==> m.readCount <= 1
    ensures OneRow(now, m).now == now
  {
    assert OneRow(now, m).messages[7] == m;
  }

  lemma SentOnce(run: Run)
    requires |run| > 1 && run[0] == CREATE && run[1] == SEND && forall k | 2 <= k < |run| :: !run[k].Send?
    ensures FreshIds(run)
  {
    assert LedgerAfter(run, 1).issued == map[];
  }

  lemma LateOverruns()
    ensures Overruns(LATE, 4, 6)
  {
    hide Step, OneRow, WithinLimit, Record;
    var m := Leased(SENT, SECOND, "t");
    SentOnce(LATE);
    FirstReads(LATE);
    TickState(m);
    TakeState(SECOND, m, 1, "u");
    assert After(LATE, 7) == OneRow(SECOND, Leased(m, 2 * SECOND, "u"));
    BoundOfOneRow(0, SENT);
    BoundOfOneRow(0, m);
    BoundOfOneRow(SECOND, m);
    BoundOfOneRow(SECOND, Leased(m, 2 * SECOND, "u"));
  }

  lemma CutShortOverruns()
    ensures Overruns(CUT_SHORT, 4, 6)
  {
    hide Step, OneRow, WithinLimit, Record;
    var m := Leased(SENT, SECOND, "t");
    var given := m.(leaseUntil := Some(0));
    SentOnce(CUT_SHORT);
    FirstReads(CUT_SHORT);
    GiveUpState(m);
    TakeState(0, given, 1, "u");
    assert After(CUT_SHORT, 7) == OneRow(0, Leased(given, SECOND, "u"));
    BoundOfOneRow(0, SENT);
    BoundOfOneRow(0, m);
    BoundOfOneRow(0, given);
    BoundOfOneRow(0, Leased(given, SECOND, "u"));
  }

  lemma CrossedOverruns()
    ensures Overruns(CROSSED, 2, 5)
  {
    hide Step, OneRow, WithinLimit, Record;
    var m := Leased(SENT, 0, "t");
    SentOnce(CROSSED);
    SentState();
    DueState(SENT);
    TakeState(0, SENT, 0, "t");
    TakeState(0, m, 1, "u");
    assert After(CROSSED, 2) == Step(After(CROSSED, 1), SEND) && After(CROSSED, 1) == Step(After(CROSSED, 0), CREATE);
    assert After(CROSSED, 4) == After(CROSSED, 2) == OneRow(0, SENT);
    assert After(CROSSED, 6) == OneRow(0, Leased(m, SECOND, "u"));
    BoundOfOneRow(0, SENT);
    BoundOfOneRow(0, m);
    BoundOfOneRow(0, Leased(m, SECOND, "u"));
  }
}
