/**
 What holds over every run of the message queue: inserts never collide, a message is
 completed at most once, tokens fence off stale consumers, leases are exclusive and
 the metrics partition the active rows.
 */
module MqRuns {
  import opened Wrappers
  import opened Collections
  import opened MqTables
  import opened MqLedger

  // ----- Consequences of conservation -----

  /**
   Neither ON CONFLICT DO NOTHING swallows a message that was just deleted, and neither
   the INSERT of send nor the explicit-id INSERT of reprocess meets an existing row.
   */
  lemma InsertsNeverCollide(run: Run, k: nat)
    requires FreshIds(run) && k < |run|
    ensures var db, e := After(run, k), run[k];
            && (e.Send? ==> e.id !in db.messages)
            && (e.DeadLetterDue? ==> forall id | id in Due(db, e.queue) :: DlqKey(e.queue, id) !in db.dlq)
            && (e.DeadLetter? && Active(db, e.queue, e.id) ==> DlqKey(e.queue, e.id) !in db.dlq)
            && (e.Reprocess? && DlqKey(e.queue, e.id) in db.dlq ==> e.id !in db.messages)
  {
    hide Step, Record;
    ActiveAndDeadDisjoint(run, k);
  }

  /** No message is active and dead-lettered at once, and every row is that of an issued message. */
  lemma ActiveAndDeadDisjoint(run: Run, k: nat)
    requires FreshIds(run) && k <= |run|
    ensures var db := After(run, k);
            && (forall q, id | Active(db, q, id) :: DlqKey(q, id) !in db.dlq)
            && (forall q, id | DlqKey(q, id) in db.dlq :: id !in db.messages)
            && (forall id | id in db.messages :: id in LedgerAfter(run, k).issued)
  {
    hide Step, Record;
    Conservation(run, k);
    var db, l := After(run, k), LedgerAfter(run, k);
    forall q, id | DlqKey(q, id) in db.dlq
      ensures id !in db.messages
    {
      assert l.issued[DlqKey(q, id).id].queue == q;
      assert Places(db, l, l.issued[id].queue, id) == 1;
    }
  }

  /** Event `k` is a successful ack or archive of `id`. */
  predicate Completes(run: Run, k: nat, id: MsgId)
    requires k < |run|
  {
    var e := run[k];
    (e.Ack? || e.Archive?) && e.id == id && Holds(After(run, k), e.queue, id, e.token)
  }

  /** Acknowledged, archived or discarded: no longer deliverable. */
  predicate Finished(run: Run, k: nat, id: MsgId)
    requires k <= |run|
  {
    var l := LedgerAfter(run, k);
    id in l.acked || id in l.discarded || Copies(After(run, k).archives, id) > 0
  }

  lemma FinishedStep(run: Run, k: nat, id: MsgId)
    requires FreshIds(run) && k < |run|
    requires Finished(run, k, id) || Completes(run, k, id)
    ensures Finished(run, k + 1, id)
  {
    Conservation(run, k);
    var db, e, l := After(run, k), run[k], LedgerAfter(run, k);
    if e.Archive? && Holds(db, e.queue, e.id, e.token) {
      CopiesAppend(db.archives, Step(db, e).archives[|db.archives|], id);
    } else if e.DropQueue? && Copies(db.archives, id) > 0 {
      if id !in l.issued {
        CopiesZero(db.archives, id);
      }
      DroppedIds(db, l, e.queue, id);
      CopiesWithoutQueue(db.archives, e.queue, l.issued[id].queue, id);
    }
  }

  lemma {:induction false} FinishedForever(run: Run, i: nat, j: nat, id: MsgId)
    requires FreshIds(run) && i < j <= |run|
    requires Completes(run, i, id)
    ensures Finished(run, j, id)
  {
    if j > i + 1 {
      FinishedForever(run, i, j - 1, id);
    }
    FinishedStep(run, j - 1, id);
  }

  /** No message is completed twice, not even across a dead-letter and reprocess cycle. */
  lemma CompletedAtMostOnce(run: Run, i: nat, j: nat, id: MsgId)
    requires FreshIds(run) && i < |run| && j < |run|
    requires Completes(run, i, id) && Completes(run, j, id)
    ensures i == j
  {
    if i != j {
      var first, second := if i < j then i else j, if i < j then j else i;
      FinishedForever(run, first, second, id);
      Conservation(run, second);
    }
  }

  // ----- Token fencing -----

  /** The delivery whose token the row of `id` carries, if any. */
  function Holder(run: Run, k: nat, id: MsgId): Option<nat>
    requires k <= |run|
  {
    if k == 0 then None
    else if id in Delivered(run, k - 1) then Some(k - 1)
    else if run[k - 1].Reprocess? && run[k - 1].id == id && Revives(After(run, k - 1), run[k - 1].queue, id) then None
    else Holder(run, k - 1, id)
  }

  function TokenOf(run: Run, holder: Option<nat>, id: MsgId): Option<Token>
    requires holder.Some? ==> holder.value < |run| && run[holder.value].Claim?
  {
    if holder.Some? then Some(run[holder.value].draw(id)) else None
  }

  lemma {:induction false} HolderIsLatestDelivery(run: Run, k: nat, id: MsgId)
    requires k <= |run|
    ensures var h := Holder(run, k, id);
            h.Some? ==> h.value < k && id in Delivered(run, h.value)
                        && forall i | h.value < i < k :: id !in Delivered(run, i)
  {
    hide Step, Claimed;
    if k > 0 {
      HolderIsLatestDelivery(run, k - 1, id);
    }
  }

  lemma {:induction false} UnissuedHasNoHolder(run: Run, k: nat, id: MsgId)
    requires FreshIds(run) && k <= |run| && id !in LedgerAfter(run, k).issued
    ensures Holder(run, k, id).None?
  {
    hide Step, PlacedOnce;
    if k > 0 {
      UnissuedHasNoHolder(run, k - 1, id);
      Conservation(run, k - 1);
    }
  }

  /** Where the token of a surviving row comes from. */
  lemma TokenStep(db: Db, e: Event, id: MsgId)
    requires id in Step(db, e).messages
    ensures var token := Step(db, e).messages[id].token;
            if e.Claim? && id in Claimed(db, e) then token == Some(e.draw(id))
            else if e.Reprocess? && e.id == id && Revives(db, e.queue, id) then token == None
            else if id in db.messages then token == db.messages[id].token
            else e.Send? && e.id == id && token == None
  {
  }

  /** The stored token is always that of the most recent delivery. */
  lemma {:induction false} TokenIsHolders(run: Run, k: nat, id: MsgId)
    requires FreshIds(run) && k <= |run| && id in After(run, k).messages
    ensures var h := Holder(run, k, id);
            && (h.Some? ==> h.value < |run| && run[h.value].Claim?)
            && After(run, k).messages[id].token == TokenOf(run, h, id)
  {
    hide Step, Claimed, Record;
    HolderIsLatestDelivery(run, k, id);
    TokenStep(After(run, k - 1), run[k - 1], id);
    if id in After(run, k - 1).messages {
      TokenIsHolders(run, k - 1, id);
    } else if run[k - 1].Send? {
      UnissuedHasNoHolder(run, k - 1, id);
    }
  }

  /** A message is never given the same token twice. */
  ghost predicate FreshTokens(run: Run) {
    forall i: nat, j: nat, id | i < j < |run| && id in Delivered(run, i) && id in Delivered(run, j) ::
      run[i].draw(id) != run[j].draw(id)
  }

  /**
   A successful ack, archive or extension carries the token of the latest delivery of its
   message, under an unexpired lease; no other delivery ever carried that token.
   */
  lemma Fencing(run: Run, k: nat) returns (d: nat)
    requires FreshIds(run) && FreshTokens(run) && k < |run|
    requires run[k].Ack? || run[k].Archive? || run[k].Extend?
    requires Holds(After(run, k), run[k].queue, run[k].id, run[k].token)
    ensures d < k && run[k].id in Delivered(run, d) && run[d].draw(run[k].id) == run[k].token
    ensures forall i | d < i < k :: run[k].id !in Delivered(run, i)
    ensures forall i: nat | i < k && run[k].id in Delivered(run, i) && run[i].draw(run[k].id) == run[k].token :: i == d
    ensures After(run, k).now < After(run, k).messages[run[k].id].leaseUntil.value
  {
    var id := run[k].id;
    TokenIsHolders(run, k, id);
    HolderIsLatestDelivery(run, k, id);
    d := Holder(run, k, id).value;
  }

  // ----- Exclusive leases -----

  /** Between `i` and `j` the holder never shortens the lease below `until`, and the message is not revived. */
  ghost predicate LeaseKept(run: Run, i: nat, j: nat, id: MsgId, until: int)
    requires j <= |run|
  {
    forall k | i < k < j ::
      var e, db := run[k], After(run, k);
      && (e.Extend? && e.id == id && Holds(db, e.queue, id, e.token) ==> until <= db.now + e.lease * SECOND)
      && (e.Reprocess? && e.id == id ==> !Revives(db, e.queue, id))
  }

  /** The row of `id`, if it is still there, is leased at least until `until` unless that time has come. */
  ghost predicate LeasedUntil(db: Db, id: MsgId, until: int) {
    id in db.messages ==>
      db.messages[id].leaseUntil.Some? && (until <= db.messages[id].leaseUntil.value || until <= db.now)
  }

  lemma LeaseStep(db: Db, e: Event, id: MsgId, until: int)
    requires e.Claim? ==> e.at <= db.now
    requires !(e.Send? && e.id == id)
    requires e.Extend? && e.id == id && Holds(db, e.queue, id, e.token) ==> until <= db.now + e.lease * SECOND
    requires e.Reprocess? && e.id == id ==> !Revives(db, e.queue, id)
    requires LeasedUntil(db, id, until)
    ensures LeasedUntil(Step(db, e), id, until)
  {
  }

  lemma ClaimLeases(db: Db, e: Event, id: MsgId)
    requires e.Claim? && id in Claimed(db, e)
    ensures id in db.messages && LeasedUntil(Step(db, e), id, e.at + e.lease * SECOND)
  {
  }

  lemma {:induction false} IssuedForever(run: Run, i: nat, j: nat, id: MsgId)
    requires i <= j <= |run| && id in LedgerAfter(run, i).issued
    ensures id in LedgerAfter(run, j).issued
  {
    hide Step;
    if i < j {
      IssuedForever(run, i, j - 1, id);
    }
  }

  lemma RenewalLeases(db: Db, e: Event, id: MsgId)
    requires e.Extend? && e.id == id && Holds(db, e.queue, id, e.token)
    ensures id in db.messages && LeasedUntil(Step(db, e), id, db.now + e.lease * SECOND)
  {
  }

  /** Event `k` is a successful extension: its holder sets the lease of `id` anew. */
  predicate Renews(run: Run, k: nat, id: MsgId)
    requires k < |run|
  {
    run[k].Extend? && run[k].id == id && Holds(After(run, k), run[k].queue, id, run[k].token)
  }

  /** Event `i` gives `id` a lease until `until`, in milliseconds: a delivery or a renewal. */
  ghost predicate SetsLease(run: Run, i: nat, id: MsgId, until: int)
    requires i < |run|
  {
    || (id in Delivered(run, i) && until == run[i].at + run[i].lease * 1000)
    || (Renews(run, i, id) && until == After(run, i).now + run[i].lease * 1000)
  }

  lemma LeaseIsSet(run: Run, i: nat, id: MsgId, until: int)
    requires i < |run| && SetsLease(run, i, id, until)
    ensures id in After(run, i).messages && LeasedUntil(After(run, i + 1), id, until)
  {
    hide Step, Claimed, Holds, LeasedUntil;
    if id in Delivered(run, i) {
      ClaimLeases(After(run, i), run[i], id);
    } else {
      RenewalLeases(After(run, i), run[i], id);
    }
  }

  lemma {:induction false} LeaseInForce(run: Run, i: nat, j: nat, id: MsgId, until: int)
    requires FreshIds(run) && Clocked(run) && i < j <= |run| && SetsLease(run, i, id, until)
    requires LeaseKept(run, i, j, id, until)
    ensures LeasedUntil(After(run, j), id, until)
  {
    hide Step, Claimed, Record, LeasedUntil, SetsLease;
    LeaseIsSet(run, i, id, until);
    if j > i + 1 {
      LeaseInForce(run, i, j - 1, id, until);
      Conservation(run, i);
      IssuedForever(run, i, j - 1, id);
      LeaseStep(After(run, j - 1), run[j - 1], id, until);
    }
  }

  /** A leased message is not handed out before the deadline of its delivery or of any renewal. */
  lemma ExclusiveLease(run: Run, i: nat, j: nat, id: MsgId, until: int)
    requires FreshIds(run) && Clocked(run) && i < j < |run|
    ensures SetsLease(run, i, id, until) && id in Delivered(run, j) && LeaseKept(run, i, j, id, until) ==>
              until <= After(run, j).now
  {
    hide Step, Record, LeaseKept, FreshIds, SetsLease;
    if SetsLease(run, i, id, until) && id in Delivered(run, j) && LeaseKept(run, i, j, id, until) {
      LeaseInForce(run, i, j, id, until);
    }
  }

  // ----- Metrics -----

  ghost predicate LeasedWereAvailable(db: Db) {
    forall id | id in db.messages && db.messages[id].leaseUntil.Some? :: db.messages[id].availableAt <= db.now
  }

  lemma StepAvailable(db: Db, e: Event)
    requires LeasedWereAvailable(db)
    requires e.Claim? ==> e.at <= db.now
    ensures LeasedWereAvailable(Step(db, e))
  {
  }

  lemma {:induction false} LeasesAreAvailable(run: Run, k: nat)
    requires Clocked(run) && k <= |run|
    ensures LeasedWereAvailable(After(run, k))
  {
    if k > 0 {
      LeasesAreAvailable(run, k - 1);
      StepAvailable(After(run, k - 1), run[k - 1]);
    }
  }

  function InFlightIds(db: Db, q: QueueId): set<MsgId> {
    set id | id in db.messages && db.messages[id].queue == q && db.messages[id].InFlight(db.now)
  }

  function DelayedIds(db: Db, q: QueueId): set<MsgId> {
    set id | id in db.messages && db.messages[id].queue == q && db.now < db.messages[id].availableAt
  }

  function ActiveIds(db: Db, q: QueueId): set<MsgId> {
    set id | id in db.messages && db.messages[id].queue == q
  }

  /** The two counts of `metrics` and the delayed rows partition the queue. */
  lemma MetricsPartition(run: Run, k: nat, q: QueueId)
    requires Clocked(run) && k <= |run|
    ensures var db := After(run, k);
            && |VisibleIds(db, q, db.now)| + |InFlightIds(db, q)| + |DelayedIds(db, q)| == |ActiveIds(db, q)|
            && VisibleIds(db, q, db.now) !! InFlightIds(db, q) !! DelayedIds(db, q)
  {
    LeasesAreAvailable(run, k);
    var db := After(run, k);
    var visible, inFlight, delayed := VisibleIds(db, q, db.now), InFlightIds(db, q), DelayedIds(db, q);
    assert ActiveIds(db, q) == visible + inFlight + delayed;
    assert visible * inFlight == {} && (visible + inFlight) * delayed == {};
  }
}
