/**
 The operations of `MqStore` over the tables they update, with their validation and error
 paths. The store carries the run of all statements it has issued; every operation extends
 it by its own, so the theorems about runs hold of the store and show in its contracts.
 The clock, the ids a sequence hands out, the random part of tokens, the rows locked by
 others and the JSON syntax check are parameters.
 */
module MqStoreOps {
  import opened Wrappers
  import opened Collections
  import opened Casts
  import opened MqTables
  import opened MqHistory
  import opened MqLives
  import opened Validation
  import Decimal
  import MqLedger
  import MqRuns
  import MqBound

  datatype Limits = Limits(
    maxBatchSize: int, maxPayloadBytes: nat, maxVisibilityTimeoutSeconds: int, maxRedeliveryCount: int)

  datatype Metrics = Metrics(visible: nat, inFlight: nat, archived: nat, dead: nat)

  predicate IsSpace(c: char) {
    c == ' ' || c == '\t' || c == '\n' || c == '\r' || c == '\U{0b}' || c == '\U{0c}'
  }

  predicate ValidToken(token: Token) {
    |token| <= 256 && exists i :: 0 <= i < |token| && !IsSpace(token[i])
  }

  /** The statements of a batch. */
  function Sends(q: QueueId, ids: seq<MsgId>, payloads: seq<string>, delay: nat): Run
    requires |ids| == |payloads|
  {
    seq(|ids|, i requires 0 <= i < |ids| => Send(q, ids[i], payloads[i], delay))
  }

  lemma SendsAppend(q: QueueId, ids: seq<MsgId>, payloads: seq<string>, delay: nat, i: nat)
    requires |ids| == |payloads| && i < |ids|
    ensures Sends(q, ids[..i + 1], payloads[..i + 1], delay)
            == Sends(q, ids[..i], payloads[..i], delay) + [Send(q, ids[i], payloads[i], delay)]
  {
  }

  function NewMessage(q: QueueId, payload: string, delay: nat, now: int): Message {
    Message(q, payload, NO_HEADERS, now + delay * SECOND, None, None, 0, now)
  }

  /** One more send of a legal run: its id is free, and only its id is issued. */
  lemma SendNext(run: Run, e: Event)
    requires Legal(run) && e.Send? && e.queue in Final(run).limits && e.id !in Books(run).issued
    ensures e.id !in Final(run).messages && Legal(run + [e])
    ensures Final(run + [e])
            == Final(run).(messages := Final(run).messages[
                             e.id := NewMessage(e.queue, e.payload, e.delay, Final(run).now)])
    ensures Books(run + [e]).issued.Keys == Books(run).issued.Keys + {e.id}
  {
    MqRuns.ActiveAndDeadDisjoint(run, |run|);
    LegalAppend(run, e);
    FinalAppend(run, e);
    hide Legal, After, Books;
  }

  /** `taken` are the first `n` of `ids`, in order. */
  ghost predicate TakesFirst(ids: set<MsgId>, n: int, taken: set<MsgId>) {
    && taken <= ids
    && |taken| == (if n < |ids| then n else |ids|)
    && forall x, y | x in taken && y in ids && y !in taken :: x < y
  }

  /** Not delayed, not leased, and not yet delivered as often as the queue's limit. */
  ghost function Deliverable(db: Db, q: QueueId, now: int): set<MsgId> {
    set id | id in db.messages && Ripe(db.messages[id], q, now)
             && !(q in db.limits && 0 < db.limits[q] <= db.messages[id].readCount)
  }

  /** Not delayed, not leased, and delivered as often as the queue's limit. */
  ghost predicate UsedUp(db: Db, q: QueueId, now: int, id: MsgId) {
    && id in db.messages && Ripe(db.messages[id], q, now)
    && q in db.limits && 0 < db.limits[q] <= db.messages[id].readCount
  }

  predicate Ripe(m: Message, q: QueueId, now: int) {
    m.queue == q && m.availableAt <= now && (m.leaseUntil.None? || m.leaseUntil.value <= now)
  }

  /** The dead-letter statement moves what is used up; what the claim can then see is deliverable. */
  lemma ReadSpelledOut(db: Db, q: QueueId)
    ensures var mid := Step(db, DeadLetterDue(q));
            && VisibleIds(mid, q, db.now) == Deliverable(db, q, db.now)
            && (forall id | id in db.messages ::
                  if UsedUp(db, q, db.now, id) then id !in mid.messages
                  else id in mid.messages && mid.messages[id] == db.messages[id])
            && mid.limits == db.limits && (forall id | id in mid.messages :: id in db.messages)
  {
  }

  lemma UsedUpMoves(db: Db, q: QueueId, id: MsgId)
    requires UsedUp(db, q, db.now, id) && DlqKey(q, id) !in db.dlq
    ensures var dlq, m := Step(db, DeadLetterDue(q)).dlq, db.messages[id];
            && DlqKey(q, id) in dlq
            && dlq[DlqKey(q, id)] == DlqRow(m.payload, m.headers, m.readCount, m.enqueuedAt, db.now,
                                            "max_redelivery_count=" + Decimal.Print(db.limits[q]))
  {
    hide Decimal.Print;
  }

  lemma AllUsedUpMove(db: Db, q: QueueId)
    requires forall id | Active(db, q, id) :: DlqKey(q, id) !in db.dlq
    ensures var dlq := Step(db, DeadLetterDue(q)).dlq;
            forall id | UsedUp(db, q, db.now, id) ::
              && id in db.messages && q in db.limits && DlqKey(q, id) in dlq
              && var m := db.messages[id];
                 dlq[DlqKey(q, id)] == DlqRow(m.payload, m.headers, m.readCount, m.enqueuedAt, db.now,
                                              "max_redelivery_count=" + Decimal.Print(db.limits[q]))
  {
    forall id | UsedUp(db, q, db.now, id)
      ensures DlqKey(q, id) !in db.dlq
    {
      assert Active(db, q, id);
    }
    hide Step, Decimal.Print;
    forall id | UsedUp(db, q, db.now, id)
      ensures var dlq, m := Step(db, DeadLetterDue(q)).dlq, db.messages[id];
              && DlqKey(q, id) in dlq
              && dlq[DlqKey(q, id)] == DlqRow(m.payload, m.headers, m.readCount, m.enqueuedAt, db.now,
                                              "max_redelivery_count=" + Decimal.Print(db.limits[q]))
    {
      UsedUpMoves(db, q, id);
    }
  }

  lemma DueAreUsedUp(db: Db, q: QueueId)
    ensures forall id :: id in Due(db, q) <==> UsedUp(db, q, db.now, id)
  {
  }

  lemma FirstDeliverable(db: Db, q: QueueId, now: int, skip: set<MsgId>, n: int, taken: set<MsgId>)
    requires TakesFirst(Deliverable(db, q, now) - skip, n, taken)
    ensures forall id | id in taken ::
              id in db.messages && !UsedUp(db, q, now, id)
              && !(q in db.limits && 0 < db.limits[q] <= db.messages[id].readCount)
  {
  }

  lemma DeadLettersStay(db: Db, q: QueueId)
    ensures forall k | k in db.dlq ::
              k in Step(db, DeadLetterDue(q)).dlq && Step(db, DeadLetterDue(q)).dlq[k] == db.dlq[k]
  {
  }

  lemma ClaimedAreFirst(db: Db, e: Event, taken: set<MsgId>)
    requires e.Claim? && TakesFirst(VisibleIds(db, e.queue, e.at) - e.skip, e.quantity, taken)
    ensures Claimed(db, e) == taken
  {
    hide VisibleIds, Lowest;
    LowestUnique(VisibleIds(db, e.queue, e.at) - e.skip, e.quantity, taken);
  }

  /** The tables a claim leaves behind, row by row. */
  lemma ClaimRowByRow(db: Db, e: Event, messages: map<MsgId, Message>)
    requires e.Claim? && messages.Keys == db.messages.Keys
    requires forall id | id in messages ::
               messages[id] == if id in Claimed(db, e)
                               then Leased(db.messages[id], e.at + e.lease * SECOND, e.draw(id))
                               else db.messages[id]
    ensures Step(db, e) == db.(messages := messages)
  {
  }

  /** The dead letters that a sweep leaves; without a positive retention it leaves all. */
  function Retained(dlq: map<DlqKey, DlqRow>, days: int, now: int): (r: map<DlqKey, DlqRow>)
    ensures forall k :: k in r <==>
                        k in dlq && !(0 < days && dlq[k].deadLetteredAt < now - days * 86_400_000)
    ensures forall k | k in r :: r[k] == dlq[k]
  {
    if days <= 0 then dlq
    else map k | k in dlq && !(dlq[k].deadLetteredAt < now - days * DAY) :: dlq[k]
  }

  lemma SweptRows(db: Db, days: int)
    ensures Step(db, SweepDlq(days)) == db.(dlq := Retained(db.dlq, days, db.now))
  {
    assert SweepDead(db, days).dlq == Retained(db.dlq, days, db.now);
  }

  function OtherMessages(messages: map<MsgId, Message>, q: QueueId): (r: map<MsgId, Message>)
    ensures forall id :: id in r <==> id in messages && messages[id].queue != q
  {
    map id | id in messages && messages[id].queue != q :: messages[id]
  }

  function OtherDeadLetters(dlq: map<DlqKey, DlqRow>, q: QueueId): (r: map<DlqKey, DlqRow>)
    ensures forall k :: k in r <==> k in dlq && k.queue != q
  {
    map k | k in dlq && k.queue != q :: dlq[k]
  }

  lemma DroppedRows(db: Db, q: QueueId)
    ensures Step(db, DropQueue(q))
            == Db(db.now, db.limits - {q}, OtherMessages(db.messages, q), OtherDeadLetters(db.dlq, q),
                  WithoutQueue(db.archives, q))
  {
  }

  lemma PurgedRows(db: Db, q: QueueId)
    ensures Step(db, PurgeDlq(q)) == db.(dlq := OtherDeadLetters(db.dlq, q))
    ensures db.dlq.Keys - OtherDeadLetters(db.dlq, q).Keys == DeadRows(db, q)
  {
  }

  lemma DeadLetteredRow(db: Db, q: QueueId, id: MsgId, reason: string)
    ensures Step(db, DeadLetter(q, id, reason))
            == if !Active(db, q, id) then db
               else db.(messages := db.messages - {id},
                        dlq := map[DlqKey(q, id) := ToDlq(db, db.messages[id], reason)] + db.dlq)
  {
    if Active(db, q, id) {
      hide MoveToDlq, ToDlq;
      var moved := MoveToDlq(db, q, {id}, reason);
      var dlq := map[DlqKey(q, id) := ToDlq(db, db.messages[id], reason)] + db.dlq;
      assert moved.dlq.Keys == dlq.Keys;
      assert moved.dlq == dlq;
    }
  }

  /** The tables the dead-letter statement leaves behind, row by row. */
  lemma DeadLetterRowByRow(db: Db, q: QueueId, dlq: map<DlqKey, DlqRow>)
    requires forall k :: k in dlq <==> k in db.dlq || (k.queue == q && k.id in Due(db, q))
    requires forall k | k in dlq ::
               if k in db.dlq then dlq[k] == db.dlq[k]
               else k.id in db.messages && dlq[k] == ToDlq(db, db.messages[k.id], LimitReason(db, q))
    ensures Step(db, DeadLetterDue(q)) == db.(messages := db.messages - Due(db, q), dlq := dlq)
  {
    hide LimitReason, Due, ToDlq;
    assert MoveToDlq(db, q, Due(db, q), LimitReason(db, q)).dlq == dlq;
  }

  class MqStore {
    const limits: Limits
    const transientEnabled: bool
    const isJson: string -> bool

    var names: map<string, QueueId>
    var redelivery: map<QueueId, int>
    var messages: map<MsgId, Message>
    var dlq: map<DlqKey, DlqRow>
    var archives: seq<ArchiveRow>

    /** Every statement so far, with the clock. */
    ghost var history: Run

    constructor (limits: Limits, transientEnabled: bool, isJson: string -> bool)
      ensures Valid() && history == [] && Tables(0) == EMPTY && names == map[]
      ensures this.limits == limits && this.transientEnabled == transientEnabled && this.isJson == isJson
    {
      this.limits := limits;
      this.transientEnabled := transientEnabled;
      this.isJson := isJson;
      names, redelivery, messages, dlq, archives := map[], map[], map[], map[], [];
      history := [];
      new;
      EmptyLegal();
    }

    /** The tables as a statement that starts at `now` sees them. */
    function Tables(now: int): Db
      reads this
    {
      Db(now, redelivery, messages, dlq, archives)
    }

    /** When the last statement ran. */
    ghost function Clock(): int
      reads this
    {
      Final(history).now
    }

    /** The history up to `now`. */
    ghost function Past(now: int): Run
      requires Clock() <= now
      reads this
    {
      Until(history, now)
    }

    /** Names point at different existing queues, and the tables are what a legal run has left. */
    ghost predicate Valid()
      reads this
    {
      && (forall name | name in names :: names[name] in redelivery)
      && (forall a, b | a in names && b in names && names[a] == names[b] :: a == b)
      && Legal(history) && Final(history) == Tables(Clock())
    }

    /** The one statement issued, at `now`, was `e`. */
    twostate predicate Did(e: Event, now: int)
      requires old(Clock()) <= now
      reads this
    {
      history == old(Past(now)) + [e] && Tables(now) == Step(old(Tables(now)), e)
    }

    /** The caller has the latest delivery of an active message of `q`, under a running lease. */
    ghost predicate MayAct(q: QueueId, id: MsgId, token: Token, now: int)
      requires Clock() <= now
      reads this
    {
      Entitled(Past(now), |Past(now)|, q, id, token)
    }

    /** The caller's token is that of the latest delivery, and nobody has completed the message. */
    ghost predicate OwnsLatestDelivery(id: MsgId, token: Token, now: int)
      requires Clock() <= now
      reads this
    {
      (exists d :: LatestDelivery(Past(now), d, id, token)) && NeverCompleted(Past(now), id)
    }

    function QueueOf(name: string): (r: Result<QueueId>)
      reads this
    {
      if !ValidIdentifier(name) then Err(InvalidArgument)
      else if name !in names then Err(NotFound)
      else Ok(names[name])
    }

    predicate LeaseAllowed(seconds: int) {
      0 <= seconds <= limits.maxVisibilityTimeoutSeconds
    }

    method CreateQueue(name: string, durable: bool, now: int, id: QueueId) returns (r: Result<()>)
      requires Valid() && Clock() <= now && id !in redelivery
      modifies this
      ensures Valid()
      ensures r == if !ValidIdentifier(name) || (!durable && !transientEnabled) then Err(InvalidArgument) else Ok(())
      ensures r.Err? || name in old(names) ==> unchanged(this)
      ensures r.Ok? && name !in old(names) ==>
                && names == old(names)[name := id]
                && redelivery == old(redelivery)[id := limits.maxRedeliveryCount]
                && Did(MqTables.CreateQueue(id, limits.maxRedeliveryCount), now)
    {
      hide Legal, After, ValidIdentifier;
      if !ValidIdentifier(name) || (!durable && !transientEnabled) {
        return Err(InvalidArgument);
      }
      if name !in names {
        LegalNext(history, now, MqTables.CreateQueue(id, limits.maxRedeliveryCount), Tables(now));
        history := Past(now) + [MqTables.CreateQueue(id, limits.maxRedeliveryCount)];
        names := names[name := id];
        redelivery := redelivery[id := limits.maxRedeliveryCount];
      }
      return Ok(());
    }

    /** Deleting the queue deletes, by cascade, its messages, dead letters and archive. */
    method DropQueue(name: string, now: int) returns (r: Result<()>)
      requires Valid() && Clock() <= now
      modifies this
      ensures Valid()
      ensures r.Err? <==> old(QueueOf(name)).Err?
      ensures r.Err? ==> r.error == old(QueueOf(name)).error && unchanged(this)
      ensures r.Ok? ==>
                var q := old(QueueOf(name)).value;
                && names == old(names) - {name} && redelivery == old(redelivery) - {q}
                && (forall id :: id in messages <==> id in old(messages) && old(messages)[id].queue != q)
                && (forall k :: k in dlq <==> k in old(dlq) && k.queue != q)
                && Did(MqTables.DropQueue(q), now)
    {
      hide Legal, After, ValidIdentifier, WithoutQueue, Step, OtherMessages, OtherDeadLetters;
      var queue := QueueOf(name);
      if queue.Err? {
        return Err(queue.error);
      }
      var q := queue.value;
      DroppedRows(Tables(now), q);
      LegalNext(history, now, MqTables.DropQueue(q), Tables(now));
      history := Past(now) + [MqTables.DropQueue(q)];
      names := names - {name};
      redelivery := redelivery - {q};
      messages := OtherMessages(messages, q);
      dlq := OtherDeadLetters(dlq, q);
      archives := WithoutQueue(archives, q);
      return Ok(());
    }

    method Send(name: string, payload: string, delay: int, now: int, id: MsgId) returns (r: Result<MsgId>)
      requires Valid() && Clock() <= now && id !in Books(history).issued
      modifies this`messages, this`history
      ensures Valid()
      ensures r.Err? <==> |payload| > limits.maxPayloadBytes || !isJson(payload) || delay < 0 || QueueOf(name).Err?
      ensures r.Err? ==> r.error == if |payload| > limits.maxPayloadBytes || !isJson(payload) || delay < 0
                                    then InvalidArgument else QueueOf(name).error
      ensures r.Err? ==> unchanged(this)
      ensures r.Ok? ==>
                && r.value == id && id !in old(messages)
                && messages == old(messages)[
                     id := Message(QueueOf(name).value, payload, "{}", now + delay * 1000, None, None, 0, now)]
                && Did(MqTables.Send(QueueOf(name).value, id, payload, delay), now)
    {
      hide Legal, After, Books, ValidIdentifier;
      if |payload| > limits.maxPayloadBytes || !isJson(payload) || delay < 0 {
        return Err(InvalidArgument);
      }
      var queue := QueueOf(name);
      if queue.Err? {
        return Err(queue.error);
      }
      UntilLegal(history, now);
      SendNext(Past(now), MqTables.Send(queue.value, id, payload, delay));
      history := Past(now) + [MqTables.Send(queue.value, id, payload, delay)];
      messages := messages[
        id := Message(queue.value, payload, NO_HEADERS, now + delay * SECOND, None, None, 0, now)];
      return Ok(id);
    }

    /** validate_batch_len casts the maximum to `usize`, so a negative one lets every batch through. */
    predicate BatchTooLong(payloads: seq<string>) {
      |payloads| > AsUsize(limits.maxBatchSize)
    }

    predicate BatchAccepted(payloads: seq<string>) {
      forall i | 0 <= i < |payloads| :: |payloads[i]| <= limits.maxPayloadBytes && isJson(payloads[i])
    }

    /** Either every payload is stored, under its id, or none is. */
    method SendBatch(name: string, payloads: seq<string>, delay: int, now: int, ids: seq<MsgId>)
      returns (r: Result<seq<MsgId>>)
      requires Valid() && Clock() <= now && |ids| == |payloads|
      requires forall i | 0 <= i < |ids| :: ids[i] !in Books(history).issued
      requires forall i, j | 0 <= i < j < |ids| :: ids[i] != ids[j]
      modifies this`messages, this`history
      ensures Valid()
      ensures r.Err? <==> || BatchTooLong(payloads)
                          || delay < 0
                          || (payloads != [] && (QueueOf(name).Err? || !BatchAccepted(payloads)))
      ensures r.Err? ==> r.error == if !BatchTooLong(payloads) && delay >= 0 && QueueOf(name).Err?
                                    then QueueOf(name).error else InvalidArgument
      ensures r.Err? || payloads == [] ==> unchanged(this)
      ensures r.Ok? ==> r.value == ids
      ensures r.Ok? && payloads != [] ==>
                && history == old(Past(now)) + Sends(QueueOf(name).value, ids, payloads, delay)
                && (forall id :: id in messages <==> id in old(messages) || id in ids)
                && (forall id | id in old(messages) :: id !in ids && messages[id] == old(messages)[id])
                && (forall i | 0 <= i < |ids| ::
                      messages[ids[i]]
                      == Message(QueueOf(name).value, payloads[i], "{}", now + delay * 1000, None, None, 0, now))
    {
      hide Legal, After, Books, ValidIdentifier, Sends;
      if BatchTooLong(payloads) || delay < 0 {
        return Err(InvalidArgument);
      }
      if payloads == [] {
        return Ok([]);
      }
      var queue := QueueOf(name);
      if queue.Err? {
        return Err(queue.error);
      }
      if !BatchAccepted(payloads) {
        return Err(InvalidArgument);
      }
      var q := queue.value;
      ghost var past := Past(now);
      UntilLegal(history, now);
      history := past;
      SendsNone(q, ids, payloads, delay);
      var sent := [];
      for i := 0 to |payloads|
        invariant sent == ids[..i] && Legal(history) && Final(history) == Tables(now)
        invariant history == past + Sends(q, ids[..i], payloads[..i], delay)
        invariant forall j | i <= j < |ids| :: ids[j] !in Books(history).issued
        invariant forall id :: id in messages <==> id in old(messages) || id in ids[..i]
        invariant forall id | id in old(messages) :: id !in ids[..i] && messages[id] == old(messages)[id]
        invariant forall j | 0 <= j < i ::
                    ids[j] in ids[..i] && messages[ids[j]] == NewMessage(q, payloads[j], delay, now)
      {
        SendNext(history, MqTables.Send(q, ids[i], payloads[i], delay));
        SendsAppend(q, ids, payloads, delay, i);
        history := history + [MqTables.Send(q, ids[i], payloads[i], delay)];
        messages := messages[
          ids[i] := Message(q, payloads[i], NO_HEADERS, now + delay * SECOND, None, None, 0, now)];
        sent := sent + [ids[i]];
        assert ids[..i + 1] == ids[..i] + [ids[i]];
      }
      assert ids[..|ids|] == ids && payloads[..|ids|] == payloads;
      return Ok(sent);
    }

    method DeadLetterDueMessages(q: QueueId, now: int) returns (moved: set<MsgId>)
      modifies this`messages, this`dlq
      ensures forall id :: id in moved <==> UsedUp(old(Tables(now)), q, now, id)
      ensures Tables(now) == Step(old(Tables(now)), DeadLetterDue(q))
    {
      hide Step, LimitReason, VisibleIds, UsedUp, ToDlq;
      ghost var db := Tables(now);
      var limit := if q in redelivery then redelivery[q] else 0;
      moved := set id | id in VisibleIds(Tables(now), q, now) && 0 < limit <= messages[id].readCount;
      var reason := LimitReason(Tables(now), q);
      var rows := map id | id in moved :: DlqKey(q, id) := ToDlq(Tables(now), messages[id], reason);
      dlq := rows + dlq;
      messages := messages - moved;
      DeadLetterRowByRow(db, q, dlq);
      DueAreUsedUp(db, q);
    }

    /** The claiming statement of `read`; the result maps each claimed id to its updated row. */
    method ClaimVisible(q: QueueId, quantity: nat, seconds: nat, now: int, skip: set<MsgId>, draw: MsgId -> Token)
      returns (rows: map<MsgId, Message>)
      modifies this`messages
      ensures TakesFirst(VisibleIds(old(Tables(now)), q, now) - skip, quantity, rows.Keys)
      ensures messages.Keys == old(messages).Keys
      ensures forall id | id in messages ::
                messages[id] == if id in rows then rows[id] else old(messages)[id]
      ensures forall id | id in rows :: id in old(messages) &&
                rows[id] == old(messages)[id].(leaseUntil := Some(now + seconds * SECOND), token := Some(draw(id)),
                                               readCount := old(messages)[id].readCount + 1)
    {
      hide VisibleIds, Lowest;
      var picked := Lowest(VisibleIds(Tables(now), q, now) - skip, quantity);
      rows := map id | id in picked :: Leased(messages[id], now + seconds * SECOND, draw(id));
      assert rows.Keys == picked;
      messages := map id | id in messages :: if id in rows then rows[id] else messages[id];
    }

    /** The dead-letter statement and the claim, with nothing in between. */
    method MoveAndClaim(q: QueueId, quantity: nat, seconds: nat, now: int, skip: set<MsgId>, draw: MsgId -> Token)
      returns (rows: map<MsgId, Message>)
      modifies this`messages, this`dlq
      ensures var mid := Step(old(Tables(now)), DeadLetterDue(q));
              && Tables(now) == Step(mid, Claim(q, quantity, seconds, now, skip, draw))
              && TakesFirst(Deliverable(old(Tables(now)), q, now) - skip, quantity, rows.Keys)
      ensures var mid := Step(old(Tables(now)), DeadLetterDue(q));
              && dlq == mid.dlq && messages.Keys == mid.messages.Keys && rows.Keys <= messages.Keys
              && forall id | id in messages ::
                   messages[id] == if id in rows
                                   then mid.messages[id].(leaseUntil := Some(now + seconds * 1000),
                                                          token := Some(draw(id)),
                                                          readCount := mid.messages[id].readCount + 1)
                                   else mid.messages[id]
      ensures forall id | id in rows :: id in messages && rows[id] == messages[id]
    {
      hide Step, Lowest, VisibleIds, TakesFirst, Deliverable, UsedUp;
      ReadSpelledOut(Tables(now), q);
      var _ := DeadLetterDueMessages(q, now);
      ghost var mid := Tables(now);
      rows := ClaimVisible(q, quantity, seconds, now, skip, draw);
      ghost var e := Claim(q, quantity, seconds, now, skip, draw);
      ClaimedAreFirst(mid, e, rows.Keys);
      ClaimRowByRow(mid, e, messages);
    }

    /** What is returned is leased to the caller, and was never delivered more often than its queue allows. */
    method Read(name: string, quantity: int, seconds: int, now: int, skip: set<MsgId>, draw: MsgId -> Token)
      returns (r: Result<map<MsgId, Message>>)
      requires Valid() && Clock() <= now && FreshDraw(history, draw)
      modifies this`messages, this`dlq, this`history
      ensures Valid()
      ensures r.Err? <==> || quantity <= 0 || quantity > limits.maxBatchSize
                          || seconds < 0 || seconds > limits.maxVisibilityTimeoutSeconds
                          || QueueOf(name).Err?
      ensures r.Err? ==> r.error == if quantity <= 0 || quantity > limits.maxBatchSize
                                       || seconds < 0 || seconds > limits.maxVisibilityTimeoutSeconds
                                    then InvalidArgument else QueueOf(name).error
      ensures r.Err? ==> unchanged(this)
      ensures r.Ok? ==>
                var q := QueueOf(name).value;
                var mid := Step(old(Tables(now)), DeadLetterDue(q));
                && history == old(Past(now)) + [DeadLetterDue(q)] + [Claim(q, quantity, seconds, now, skip, draw)]
                && Tables(now) == Step(mid, Claim(q, quantity, seconds, now, skip, draw))
                && TakesFirst(Deliverable(old(Tables(now)), q, now) - skip, quantity, r.value.Keys)
                && (forall id | id in r.value ::
                      && id in messages && r.value[id] == messages[id]
                      && r.value[id] == old(messages)[id].(leaseUntil := Some(now + seconds * 1000),
                                                           token := Some(draw(id)),
                                                           readCount := old(messages)[id].readCount + 1)
                      && (0 < redelivery[q] ==> r.value[id].readCount <= redelivery[q]))
                && (forall id | id in old(messages) && id !in r.value ::
                      if UsedUp(old(Tables(now)), q, now, id) then id !in messages
                      else id in messages && messages[id] == old(messages)[id])
                && (forall id | UsedUp(old(Tables(now)), q, now, id) ::
                      && DlqKey(q, id) in dlq
                      && dlq[DlqKey(q, id)]
                         == DlqRow(old(messages)[id].payload, old(messages)[id].headers, old(messages)[id].readCount,
                                   old(messages)[id].enqueuedAt, now,
                                   "max_redelivery_count=" + Decimal.Print(redelivery[q])))
                && (forall k | k in old(dlq) :: k in dlq && dlq[k] == old(dlq)[k])
    {
      hide Step, Lowest, VisibleIds, Legal, After, ValidIdentifier, FreshDraw, TakesFirst, Deliverable, UsedUp;
      hide Decimal.Print;
      if quantity <= 0 || quantity > limits.maxBatchSize || !LeaseAllowed(seconds) {
        return Err(InvalidArgument);
      }
      var queue := QueueOf(name);
      if queue.Err? {
        return Err(queue.error);
      }
      var q := queue.value;
      ghost var e := Claim(q, quantity, seconds, now, skip, draw);
      LegalRead(history, now, e, Tables(now));
      ghost var before := Tables(now);
      ReadSpelledOut(before, q);
      DeadLettersStay(before, q);
      NothingCollides();
      AllUsedUpMove(before, q);
      history := Past(now) + [DeadLetterDue(q)] + [e];
      var rows := MoveAndClaim(q, quantity, seconds, now, skip, draw);
      FirstDeliverable(before, q, now, skip, quantity, rows.Keys);
      return Ok(rows);
    }

    /** Whether a statement that needs the current token finds its row. */
    predicate Matches(q: QueueId, id: MsgId, token: Token, now: int)
      reads this
    {
      id in messages && messages[id].queue == q && messages[id].token == Some(token)
      && messages[id].leaseUntil.Some? && now < messages[id].leaseUntil.value
    }

    /** A token matches exactly for a caller who may act; and such a caller is the only one. */
    lemma MatchesIff(q: QueueId, id: MsgId, token: Token, now: int)
      requires Valid() && Clock() <= now
      ensures Matches(q, id, token, now) <==> MayAct(q, id, token, now)
      ensures Matches(q, id, token, now) ==> OwnsLatestDelivery(id, token, now)
    {
      UntilLegal(history, now);
      hide Legal, After, Until, LatestDelivery, NeverCompleted, Entitled;
      if Matches(q, id, token, now) {
        var d := HolderIsLatest(Past(now), q, id, token);
        AcceptedIsEntitled(Past(now), |Past(now)|, q, id, token);
      }
      if MayAct(q, id, token, now) {
        EntitledIsAccepted(Past(now), |Past(now)|, q, id, token);
      }
    }

    /** Succeeds exactly for the holder of the latest delivery, and once in the life of a message. */
    method Ack(name: string, id: MsgId, token: Token, now: int) returns (r: Result<bool>)
      requires Valid() && Clock() <= now
      modifies this`messages, this`history
      ensures Valid()
      ensures r.Err? <==> !ValidToken(token) || QueueOf(name).Err?
      ensures r.Err? ==> r.error == if !ValidToken(token) then InvalidArgument else QueueOf(name).error
      ensures r.Err? ==> unchanged(this)
      ensures r.Ok? ==>
                && Did(MqTables.Ack(QueueOf(name).value, id, token), now)
                && (r.value <==> old(MayAct(QueueOf(name).value, id, token, now)))
                && (r.value ==> old(OwnsLatestDelivery(id, token, now)))
                && messages == (if r.value then old(messages) - {id} else old(messages))
    {
      hide Legal, After, ValidIdentifier, OwnsLatestDelivery, MayAct;
      if !ValidToken(token) {
        return Err(InvalidArgument);
      }
      var queue := QueueOf(name);
      if queue.Err? {
        return Err(queue.error);
      }
      var held := Matches(queue.value, id, token, now);
      MatchesIff(queue.value, id, token, now);
      LegalNext(history, now, MqTables.Ack(queue.value, id, token), Tables(now));
      history := Past(now) + [MqTables.Ack(queue.value, id, token)];
      if held {
        messages := messages - {id};
      }
      return Ok(held);
    }

    method Archive(name: string, id: MsgId, token: Token, now: int) returns (r: Result<bool>)
      requires Valid() && Clock() <= now
      modifies this`messages, this`archives, this`history
      ensures Valid()
      ensures r.Err? <==> !ValidToken(token) || QueueOf(name).Err?
      ensures r.Err? ==> r.error == if !ValidToken(token) then InvalidArgument else QueueOf(name).error
      ensures r.Err? ==> unchanged(this)
      ensures r.Ok? ==>
                && Did(MqTables.Archive(QueueOf(name).value, id, token), now)
                && (r.value <==> old(MayAct(QueueOf(name).value, id, token, now)))
                && (r.value ==> old(OwnsLatestDelivery(id, token, now)) && id in old(messages))
                && messages == (if r.value then old(messages) - {id} else old(messages))
                && archives == old(archives)
                               + if !r.value then []
                                 else [ArchiveRow(QueueOf(name).value, id, old(messages)[id].payload,
                                                  old(messages)[id].headers, old(messages)[id].readCount,
                                                  old(messages)[id].enqueuedAt)]
    {
      hide Legal, After, ValidIdentifier, OwnsLatestDelivery, MayAct;
      if !ValidToken(token) {
        return Err(InvalidArgument);
      }
      var queue := QueueOf(name);
      if queue.Err? {
        return Err(queue.error);
      }
      var held := Matches(queue.value, id, token, now);
      MatchesIff(queue.value, id, token, now);
      LegalNext(history, now, MqTables.Archive(queue.value, id, token), Tables(now));
      history := Past(now) + [MqTables.Archive(queue.value, id, token)];
      if held {
        var m := messages[id];
        messages := messages - {id};
        archives := archives + [ArchiveRow(queue.value, id, m.payload, m.headers, m.readCount, m.enqueuedAt)];
      }
      return Ok(held);
    }

    method SetVisibilityTimeout(name: string, id: MsgId, token: Token, seconds: int, now: int)
      returns (r: Result<bool>)
      requires Valid() && Clock() <= now
      modifies this`messages, this`history
      ensures Valid()
      ensures r.Err? <==> || !ValidToken(token) || seconds < 0 || seconds > limits.maxVisibilityTimeoutSeconds
                          || QueueOf(name).Err?
      ensures r.Err? ==> r.error == if !ValidToken(token) || seconds < 0 || seconds > limits.maxVisibilityTimeoutSeconds
                                    then InvalidArgument else QueueOf(name).error
      ensures r.Err? ==> unchanged(this)
      ensures r.Ok? ==>
                && Did(Extend(QueueOf(name).value, id, token, seconds), now)
                && (r.value <==> old(MayAct(QueueOf(name).value, id, token, now)))
                && (r.value ==> old(OwnsLatestDelivery(id, token, now)) && id in old(messages))
                && messages == if !r.value then old(messages)
                               else old(messages)[
                                      id := old(messages)[id].(leaseUntil := Some(now + seconds * 1000))]
    {
      hide Legal, After, ValidIdentifier, OwnsLatestDelivery, MayAct;
      if !ValidToken(token) || !LeaseAllowed(seconds) {
        return Err(InvalidArgument);
      }
      var queue := QueueOf(name);
      if queue.Err? {
        return Err(queue.error);
      }
      var held := Matches(queue.value, id, token, now);
      MatchesIff(queue.value, id, token, now);
      LegalNext(history, now, Extend(queue.value, id, token, seconds), Tables(now));
      history := Past(now) + [Extend(queue.value, id, token, seconds)];
      if held {
        messages := messages[id := messages[id].(leaseUntil := Some(now + seconds * SECOND))];
      }
      return Ok(held);
    }

    /** Neither the ON CONFLICT of a dead-letter move nor the explicit id of reprocess ever meets a row. */
    lemma NothingCollides()
      requires Valid()
      ensures forall now, q, id | Active(Tables(now), q, id) :: DlqKey(q, id) !in dlq
      ensures forall q, id | DlqKey(q, id) in dlq :: id !in messages
    {
      MqRuns.ActiveAndDeadDisjoint(history, |history|);
      forall now, q, id | Active(Tables(now), q, id)
        ensures DlqKey(q, id) !in dlq
      {
        assert Active(Tables(Clock()), q, id);
      }
    }

    method DeadLetter(name: string, id: MsgId, reason: string, now: int) returns (r: Result<bool>)
      requires Valid() && Clock() <= now
      modifies this`messages, this`dlq, this`history
      ensures Valid()
      ensures r.Err? <==> QueueOf(name).Err?
      ensures r.Err? ==> r.error == QueueOf(name).error && unchanged(this)
      ensures r.Ok? ==>
                && Did(MqTables.DeadLetter(QueueOf(name).value, id, reason), now)
                && (r.value <==> Active(old(Tables(now)), QueueOf(name).value, id))
                && messages == (if r.value then old(messages) - {id} else old(messages))
                && dlq == if !r.value then old(dlq)
                          else old(dlq)[
                                 DlqKey(QueueOf(name).value, id) :=
                                   DlqRow(old(messages)[id].payload, old(messages)[id].headers,
                                          old(messages)[id].readCount, old(messages)[id].enqueuedAt, now, reason)]
    {
      hide Legal, After, ValidIdentifier, Step;
      var queue := QueueOf(name);
      if queue.Err? {
        return Err(queue.error);
      }
      var q := queue.value;
      NothingCollides();
      DeadLetteredRow(Tables(now), q, id, reason);
      LegalNext(history, now, MqTables.DeadLetter(q, id, reason), Tables(now));
      history := Past(now) + [MqTables.DeadLetter(q, id, reason)];
      if id !in messages || messages[id].queue != q {
        return Ok(false);
      }
      var m := messages[id];
      messages := messages - {id};
      var moved := DlqKey(q, id) !in dlq;
      dlq := map[DlqKey(q, id) := DlqRow(m.payload, m.headers, m.readCount, m.enqueuedAt, now, reason)] + dlq;
      return Ok(moved);
    }

    /** The explicit-id INSERT cannot collide, so the queue is the only thing that can be wrong. */
    method ReprocessDlqMessage(name: string, id: MsgId, now: int) returns (r: Result<bool>)
      requires Valid() && Clock() <= now
      modifies this`messages, this`dlq, this`history
      ensures Valid()
      ensures r.Err? <==> QueueOf(name).Err?
      ensures r.Err? ==> r.error == QueueOf(name).error && unchanged(this)
      ensures r.Ok? ==>
                && Did(Reprocess(QueueOf(name).value, id), now)
                && (r.value <==> DlqKey(QueueOf(name).value, id) in old(dlq))
                && (!r.value ==> messages == old(messages) && dlq == old(dlq))
                && (r.value ==>
                      var key := DlqKey(QueueOf(name).value, id);
                      && id !in old(messages) && dlq == old(dlq) - {key}
                      && messages == old(messages)[
                                       id := Message(key.queue, old(dlq)[key].payload, "{}", now, None, None, 0,
                                                     old(dlq)[key].enqueuedAt)])
    {
      hide Legal, After, ValidIdentifier;
      var queue := QueueOf(name);
      if queue.Err? {
        return Err(queue.error);
      }
      var key := DlqKey(queue.value, id);
      NothingCollides();
      LegalNext(history, now, Reprocess(queue.value, id), Tables(now));
      history := Past(now) + [Reprocess(queue.value, id)];
      if key !in dlq {
        return Ok(false);
      }
      messages := messages[
        id := Message(queue.value, dlq[key].payload, NO_HEADERS, now, None, None, 0, dlq[key].enqueuedAt)];
      dlq := dlq - {key};
      return Ok(true);
    }

    method PurgeQueue(name: string, now: int) returns (r: Result<()>)
      requires Valid() && Clock() <= now
      modifies this`messages, this`history
      ensures Valid()
      ensures r.Err? <==> QueueOf(name).Err?
      ensures r.Err? ==> r.error == QueueOf(name).error && unchanged(this)
      ensures r.Ok? ==>
                && Did(MqTables.PurgeQueue(QueueOf(name).value), now)
                && (forall id :: id in messages <==>
                                 id in old(messages) && old(messages)[id].queue != QueueOf(name).value)
    {
      hide Legal, After, ValidIdentifier;
      var queue := QueueOf(name);
      if queue.Err? {
        return Err(queue.error);
      }
      LegalNext(history, now, MqTables.PurgeQueue(queue.value), Tables(now));
      history := Past(now) + [MqTables.PurgeQueue(queue.value)];
      messages := OtherMessages(messages, queue.value);
      return Ok(());
    }

    method PurgeDlq(name: string, now: int) returns (r: Result<nat>)
      requires Valid() && Clock() <= now
      modifies this`dlq, this`history
      ensures Valid()
      ensures r.Err? <==> QueueOf(name).Err?
      ensures r.Err? ==> r.error == QueueOf(name).error && unchanged(this)
      ensures r.Ok? ==>
                && Did(MqTables.PurgeDlq(QueueOf(name).value), now)
                && (forall k :: k in dlq <==> k in old(dlq) && k.queue != QueueOf(name).value)
                && r.value == |DeadRows(old(Tables(now)), QueueOf(name).value)|
    {
      hide Legal, After, ValidIdentifier, Step, OtherDeadLetters, DeadRows;
      var queue := QueueOf(name);
      if queue.Err? {
        return Err(queue.error);
      }
      PurgedRows(Tables(now), queue.value);
      LegalNext(history, now, MqTables.PurgeDlq(queue.value), Tables(now));
      history := Past(now) + [MqTables.PurgeDlq(queue.value)];
      var kept := OtherDeadLetters(dlq, queue.value);
      var deleted := |dlq.Keys - kept.Keys|;
      dlq := kept;
      return Ok(deleted);
    }

    method SweepDlq(retentionDays: int, now: int) returns (deleted: nat)
      requires Valid() && Clock() <= now
      modifies this`dlq, this`history
      ensures Valid()
      ensures Did(MqTables.SweepDlq(retentionDays), now)
      ensures deleted == |old(dlq).Keys - dlq.Keys|
      ensures forall k :: k in dlq <==>
                          && k in old(dlq)
                          && !(0 < retentionDays && old(dlq)[k].deadLetteredAt < now - retentionDays * 86_400_000)
      ensures forall k | k in dlq :: dlq[k] == old(dlq)[k]
    {
      hide Legal, After, Step, Retained;
      LegalNext(history, now, MqTables.SweepDlq(retentionDays), Tables(now));
      SweptRows(Tables(now), retentionDays);
      var kept := Retained(dlq, retentionDays, now);
      history := Past(now) + [MqTables.SweepDlq(retentionDays)];
      deleted := |dlq.Keys - kept.Keys|;
      dlq := kept;
    }

    /**
     The row counts of `metrics`. Together with the delayed rows they make up the queue, and
     with what was acknowledged and discarded they make up everything ever sent to it.
     */
    method Measure(name: string, now: int) returns (r: Result<Metrics>)
      requires Valid() && Clock() <= now
      ensures r.Err? <==> QueueOf(name).Err?
      ensures r.Err? ==> r.error == QueueOf(name).error
      ensures r.Ok? ==>
                var q, db, books := QueueOf(name).value, Tables(now), Books(history);
                var delayed, issued := MqRuns.DelayedIds(db, q), IssuedIn(books, q);
                && r.value.visible == |VisibleIds(db, q, now)|
                && r.value.visible + r.value.inFlight + |delayed| == |MqRuns.ActiveIds(db, q)|
                && r.value.archived == |ArchivedRows(archives, q)| && r.value.dead == |DeadRows(db, q)|
                && r.value.visible + r.value.inFlight + |delayed| + r.value.dead + r.value.archived
                   + |issued * books.acked| + |issued * books.discarded| == |issued|
    {
      hide Legal, After, Books, ValidIdentifier, WithoutQueue;
      var queue := QueueOf(name);
      if queue.Err? {
        return Err(queue.error);
      }
      var q := queue.value;
      var visible := set id | id in messages && messages[id].queue == q && messages[id].Visible(now);
      var inFlight := set id | id in messages && messages[id].queue == q && messages[id].InFlight(now);
      assert visible == VisibleIds(Tables(now), q, now) && inFlight == MqRuns.InFlightIds(Tables(now), q);
      var dead := set k | k in dlq && k.queue == q;
      QueueInNumbers(history, now, Tables(now), q);
      ArchivedCount(archives, q);
      return Ok(Metrics(|visible|, |inFlight|, |archives| - |WithoutQueue(archives, q)|, |dead|));
    }
  }

  lemma SendsNone(q: QueueId, ids: seq<MsgId>, payloads: seq<string>, delay: nat)
    requires |ids| == |payloads|
    ensures Sends(q, ids[..0], payloads[..0], delay) == []
  {
  }

  /** The rows that are not left out are the rows of the queue. */
  lemma {:induction false} ArchivedCount(archives: seq<ArchiveRow>, q: QueueId)
    ensures |archives| - |WithoutQueue(archives, q)| == |ArchivedRows(archives, q)|
  {
    if archives != [] {
      var n := |archives| - 1;
      var front := archives[..n];
      ArchivedCount(front, q);
      assert ArchivedRows(archives, q)
          == ArchivedRows(front, q) + if archives[n].queue == q then {n} else {};
    } else {
      assert ArchivedRows(archives, q) == {};
    }
  }
}
