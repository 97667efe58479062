/**
 The row of a message told by its history alone: when it may be delivered, how often it has
 been, until when it is leased, when it is dead-lettered, and whose token is accepted.
 Times are in milliseconds.
 */
module MqLives {
  import opened Wrappers
  import opened MqTables
  import opened MqLedger
  import opened MqRuns
  import opened MqBound

  /** The last arrival of `id` before event `k`, by send or reprocess, is event `i`. */
  ghost predicate ArrivedAt(run: Run, i: nat, k: nat, id: MsgId)
    requires k <= |run|
  {
    && i < k && Arrives(After(run, i), run[i], id)
    && forall j | i < j < k :: !Arrives(After(run, j), run[j], id)
  }

  /** A sent message waits for its delay, a reprocessed one for nothing. */
  function AvailableFrom(run: Run, i: nat): int
    requires i < |run|
  {
    After(run, i).now + if run[i].Send? then run[i].delay * 1000 else 0
  }

  /** Between events `i` and `k` nothing delivers `id` or renews its lease. */
  ghost predicate NoLease(run: Run, i: nat, k: nat, id: MsgId)
    requires k <= |run|
  {
    forall j | i < j < k :: id !in Delivered(run, j) && !Renews(run, j, id)
  }

  /** The last lease given to `id` between events `i` and `k`, by event `l`, ends at `until`. */
  ghost predicate LastLease(run: Run, i: nat, k: nat, id: MsgId, l: nat, until: int)
    requires k <= |run|
  {
    i < l < k && SetsLease(run, l, id, until) && NoLease(run, l, k, id)
  }

  /** By time `t` the last lease given to `id` between events `i` and `k`, if any, is over. */
  ghost predicate LeaseOver(run: Run, i: nat, k: nat, id: MsgId, t: int)
    requires k <= |run|
  {
    forall l: nat, until | LastLease(run, i, k, id, l, until) :: until <= t
  }

  lemma NewRow(db: Db, e: Event, id: MsgId)
    requires Arrives(db, e, id)
    ensures id in Step(db, e).messages
    ensures var m := Step(db, e).messages[id];
            && m.queue == e.queue && m.availableAt == db.now + (if e.Send? then e.delay * 1000 else 0)
            && m.readCount == 0 && m.leaseUntil.None? && m.token.None?
  {
  }

  lemma ClaimedRow(db: Db, e: Event, id: MsgId)
    requires e.Claim? && id in Claimed(db, e)
    ensures id in db.messages && id in Step(db, e).messages
    ensures Step(db, e).messages[id]
            == db.messages[id].(leaseUntil := Some(e.at + e.lease * 1000), token := Some(e.draw(id)),
                                readCount := db.messages[id].readCount + 1)
  {
  }

  /** What one event makes of the row of `id`. */
  lemma RowAfter(run: Run, k: nat, id: MsgId)
    requires k < |run| && id in After(run, k + 1).messages && !Arrives(After(run, k), run[k], id)
    ensures id in After(run, k).messages
    ensures var m, m' := After(run, k).messages[id], After(run, k + 1).messages[id];
            && m'.queue == m.queue && m'.availableAt == m.availableAt
            && m'.readCount == m.readCount + One(id in Delivered(run, k))
            && (id !in Delivered(run, k) ==> m'.token == m.token)
            && (id in Delivered(run, k) ==> m'.token == Some(run[k].draw(id)))
            && (id !in Delivered(run, k) && !Renews(run, k, id) ==> m'.leaseUntil == m.leaseUntil)
            && forall until | SetsLease(run, k, id, until) :: m'.leaseUntil == Some(until)
  {
    hide Step, Claimed, Holds, QueuesExist, Arrives;
    var db, e := After(run, k), run[k];
    if id in Delivered(run, k) {
      ClaimedRow(db, e, id);
    } else if Renews(run, k, id) {
      RenewedRow(db, e, id);
    } else {
      QueuesAlwaysExist(run, k);
      KeptRow(db, e, id);
    }
  }

  /** Queue, delay, deliveries and lease of a row, from the events since its arrival. */
  lemma {:induction false} RowByHistory(run: Run, i: nat, k: nat, id: MsgId)
    requires k <= |run| && ArrivedAt(run, i, k, id) && id in After(run, k).messages
    ensures var m := After(run, k).messages[id];
            && m.queue == run[i].queue && m.availableAt == AvailableFrom(run, i)
            && m.readCount == Deliveries(run, i + 1, k, id)
            && (NoLease(run, i, k, id) ==> m.leaseUntil.None?)
            && forall l: nat, until | LastLease(run, i, k, id, l, until) :: m.leaseUntil == Some(until)
    decreases k
  {
    hide Step, Claimed, Holds, Arrives, SetsLease, Renews, Delivered;
    if k == i + 1 {
      NewRow(After(run, i), run[i], id);
    } else {
      RowAfter(run, k - 1, id);
      RowByHistory(run, i, k - 1, id);
      var m := After(run, k).messages[id];
      forall l: nat, until | LastLease(run, i, k, id, l, until)
        ensures m.leaseUntil == Some(until)
      {
        if l < k - 1 {
          assert LastLease(run, i, k - 1, id, l, until);
        }
      }
    }
  }

  lemma {:induction false} FindLease(run: Run, i: nat, k: nat, id: MsgId) returns (l: nat, until: int)
    requires i < k <= |run| && !NoLease(run, i, k, id)
    ensures LastLease(run, i, k, id, l, until)
    decreases k
  {
    hide Step, Claimed, Holds;
    if id in Delivered(run, k - 1) {
      l, until := k - 1, run[k - 1].at + run[k - 1].lease * 1000;
    } else if Renews(run, k - 1, id) {
      l, until := k - 1, After(run, k - 1).now + run[k - 1].lease * 1000;
    } else {
      l, until := FindLease(run, i, k - 1, id);
    }
  }

  /** A message can be seen exactly when its delay has passed and every lease since its arrival is over. */
  lemma VisibleIff(run: Run, i: nat, k: nat, id: MsgId, t: int)
    requires k <= |run| && ArrivedAt(run, i, k, id) && id in After(run, k).messages
    ensures id in VisibleIds(After(run, k), run[i].queue, t) <==>
            AvailableFrom(run, i) <= t && LeaseOver(run, i, k, id, t)
  {
    hide Step, Claimed, Holds, Arrives, SetsLease, Renews, AvailableFrom, NoLease, LastLease;
    RowByHistory(run, i, k, id);
    if NoLease(run, i, k, id) {
      NoLeaseNoLast(run, i, k, id);
    } else {
      var l, until := FindLease(run, i, k, id);
    }
  }

  lemma NoLeaseNoLast(run: Run, i: nat, k: nat, id: MsgId)
    requires k <= |run| && NoLease(run, i, k, id)
    ensures forall l: nat, until :: !LastLease(run, i, k, id, l, until)
  {
    hide Step, Claimed, Holds;
  }

  lemma DueRows(db: Db, q: QueueId, id: MsgId)
    requires id in db.messages
    ensures id !in Step(db, DeadLetterDue(q)).messages <==>
            && id in VisibleIds(db, q, db.now)
            && q in db.limits && 0 < db.limits[q] <= db.messages[id].readCount
  {
  }

  /**
   The dead-letter statement of a read takes a message exactly when it can be seen and has been
   delivered, since its send or last reprocess, at least as often as its queue's positive limit.
   */
  lemma DeadLetteredIff(run: Run, i: nat, k: nat, q: QueueId, id: MsgId)
    requires k < |run| && run[k] == DeadLetterDue(q)
    requires ArrivedAt(run, i, k, id) && id in After(run, k).messages
    ensures var db := After(run, k);
            id !in After(run, k + 1).messages <==>
            && run[i].queue == q && AvailableFrom(run, i) <= db.now && LeaseOver(run, i, k, id, db.now)
            && q in db.limits && 0 < db.limits[q] <= Deliveries(run, i + 1, k, id)
  {
    hide Step, Claimed, Holds, Arrives, SetsLease, Renews, AvailableFrom, NoLease, LeaseOver, LastLease;
    DueRows(After(run, k), q, id);
    RowByHistory(run, i, k, id);
    VisibleIff(run, i, k, id, After(run, k).now);
    InItsQueue(After(run, k), q, id);
  }

  lemma InItsQueue(db: Db, q: QueueId, id: MsgId)
    ensures id in VisibleIds(db, q, db.now) ==> id in db.messages && db.messages[id].queue == q
  {
  }

  /** A row's last arrival. */
  lemma {:induction false} Arrival(run: Run, k: nat, id: MsgId) returns (i: nat)
    requires k <= |run| && id in After(run, k).messages
    ensures ArrivedAt(run, i, k, id)
  {
    hide Step, Arrives, Claimed, SetsLease, Holds;
    if Arrives(After(run, k - 1), run[k - 1], id) {
      i := k - 1;
    } else {
      RowAfter(run, k - 1, id);
      i := Arrival(run, k - 1, id);
    }
  }

  // ----- Whose token is accepted -----

  /** Between events `i` and `k` nothing delivers `id`. */
  ghost predicate NotDelivered(run: Run, i: nat, k: nat, id: MsgId)
    requires k <= |run|
  {
    forall j | i < j < k :: id !in Delivered(run, j)
  }

  /** The token of a row is that of the last delivery since its arrival. */
  lemma {:induction false} TokenByHistory(run: Run, i: nat, k: nat, id: MsgId)
    requires k <= |run| && ArrivedAt(run, i, k, id) && id in After(run, k).messages
    ensures var token := After(run, k).messages[id].token;
            && (NotDelivered(run, i, k, id) ==> token.None?)
            && forall d: nat | i < d < k && id in Delivered(run, d) && NotDelivered(run, d, k, id) ::
                 token == Some(run[d].draw(id))
    decreases k
  {
    hide Step, Claimed, Holds, Arrives, SetsLease, Renews;
    if k == i + 1 {
      NewRow(After(run, i), run[i], id);
    } else {
      RowAfter(run, k - 1, id);
      TokenByHistory(run, i, k - 1, id);
    }
  }

  /** Event `d` is the last delivery of `id` before `k`, under `token`, and `id` has not arrived anew since. */
  ghost predicate HandedOut(run: Run, d: nat, k: nat, id: MsgId, token: Token)
    requires k <= |run|
  {
    && d < k && id in Delivered(run, d) && run[d].draw(id) == token && NotDelivered(run, d, k, id)
    && forall j | d < j < k :: !Arrives(After(run, j), run[j], id)
  }

  /** The lease in force since delivery `d`, given by event `l`, lasts beyond `now`. */
  ghost predicate StillLeased(run: Run, d: nat, k: nat, id: MsgId, l: nat, now: int)
    requires k <= |run|
  {
    && d <= l < k && NoLease(run, l, k, id)
    && exists until :: SetsLease(run, l, id, until) && now < until
  }

  /** The caller has the latest delivery of a message that is still active, under a running lease. */
  ghost predicate Entitled(run: Run, k: nat, q: QueueId, id: MsgId, token: Token)
    requires k <= |run|
  {
    && id in After(run, k).messages && After(run, k).messages[id].queue == q
    && exists d: nat, l: nat :: HandedOut(run, d, k, id, token) && StillLeased(run, d, k, id, l, After(run, k).now)
  }

  lemma {:induction false} FindDelivery(run: Run, i: nat, k: nat, id: MsgId) returns (d: nat)
    requires i < k <= |run| && !NotDelivered(run, i, k, id)
    ensures i < d < k && id in Delivered(run, d) && NotDelivered(run, d, k, id)
    decreases k
  {
    hide Step, Claimed;
    if id in Delivered(run, k - 1) {
      d := k - 1;
    } else {
      d := FindDelivery(run, i, k - 1, id);
    }
  }

  lemma EntitledIsAccepted(run: Run, k: nat, q: QueueId, id: MsgId, token: Token)
    requires k <= |run| && Entitled(run, k, q, id, token)
    ensures Holds(After(run, k), q, id, token)
  {
    hide Step, Claimed, After, SetsLease;
    var d: nat, l: nat :|
      HandedOut(run, d, k, id, token) && StillLeased(run, d, k, id, l, After(run, k).now);
    var until :| SetsLease(run, l, id, until) && After(run, k).now < until;
    var i := Arrival(run, k, id);
    assert i < d;
    TokenByHistory(run, i, k, id);
    RowByHistory(run, i, k, id);
    assert LastLease(run, i, k, id, l, until);
  }

  lemma AcceptedIsEntitled(run: Run, k: nat, q: QueueId, id: MsgId, token: Token)
    requires k <= |run| && Holds(After(run, k), q, id, token)
    ensures Entitled(run, k, q, id, token)
  {
    hide Step, Claimed, After, SetsLease, Arrives, Renews;
    var i := Arrival(run, k, id);
    TokenByHistory(run, i, k, id);
    RowByHistory(run, i, k, id);
    var d := FindDelivery(run, i, k, id);
    var l, until := FindLease(run, i, k, id);
    assert HandedOut(run, d, k, id, token) && StillLeased(run, d, k, id, l, After(run, k).now);
  }
}
