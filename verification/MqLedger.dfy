/**
 Conservation: a ledger kept beside a run records what was issued, acknowledged and
 explicitly discarded; together with the tables it accounts for every message.
 */
module MqLedger {
  import opened Wrappers
  import opened MqTables

  /** What must never change about a message. */
  datatype Origin = Origin(queue: QueueId, payload: string, enqueuedAt: int)

  datatype Ledger = Ledger(issued: map<MsgId, Origin>, acked: set<MsgId>, discarded: set<MsgId>)

  function IdsOfArchives(archives: seq<ArchiveRow>, q: QueueId): set<MsgId> {
    set i | 0 <= i < |archives| && archives[i].queue == q :: archives[i].id
  }

  /** The ids an event deletes for good without an acknowledgement. */
  function DiscardedBy(db: Db, e: Event): set<MsgId> {
    match e
    case PurgeQueue(q) => set id | id in db.messages && db.messages[id].queue == q
    case PurgeDlq(q) => set k | k in db.dlq && k.queue == q :: k.id
    case SweepDlq(days) => set k | k in db.dlq && Expired(db, days, db.dlq[k]) :: k.id
    case DropQueue(q) =>
      (set id | id in db.messages && db.messages[id].queue == q)
      + (set k | k in db.dlq && k.queue == q :: k.id)
      + IdsOfArchives(db.archives, q)
    case _ => {}
  }

  function Record(l: Ledger, db: Db, e: Event): Ledger {
    l.(issued :=
         if e.Send? && e.queue in db.limits && e.id !in db.messages
         then l.issued[e.id := Origin(e.queue, e.payload, db.now)] else l.issued,
       acked := if e.Ack? && Holds(db, e.queue, e.id, e.token) then l.acked + {e.id} else l.acked,
       discarded := l.discarded + DiscardedBy(db, e))
  }

  function LedgerAfter(run: Run, k: nat): Ledger
    requires k <= |run|
  {
    if k == 0 then Ledger(map[], {}, {}) else Record(LedgerAfter(run, k - 1), After(run, k - 1), run[k - 1])
  }

  /** Ids come from a sequence that never repeats. */
  ghost predicate FreshIds(run: Run) {
    forall k: nat | k < |run| && run[k].Send? :: run[k].id !in LedgerAfter(run, k).issued
  }

  function Copies(archives: seq<ArchiveRow>, id: MsgId): nat {
    if archives == [] then 0
    else Copies(archives[..|archives| - 1], id) + One(archives[|archives| - 1].id == id)
  }

  function One(b: bool): nat {
    if b then 1 else 0
  }

  /** In how many places a message of queue `q` is found. */
  function Places(db: Db, l: Ledger, q: QueueId, id: MsgId): nat {
    One(id in db.messages) + One(DlqKey(q, id) in db.dlq) + Copies(db.archives, id)
    + One(id in l.acked) + One(id in l.discarded)
  }

  ghost predicate PlacedOnce(db: Db, l: Ledger) {
    forall id | id in l.issued :: Places(db, l, l.issued[id].queue, id) == 1
  }

  /** Every row belongs to an issued message and still carries its payload and enqueue time. */
  ghost predicate RowsUnchanged(db: Db, l: Ledger) {
    && l.acked <= l.issued.Keys
    && l.discarded <= l.issued.Keys
    && (forall id | id in db.messages :: id in l.issued && MessageUnchanged(db.messages[id], l.issued[id]))
    && (forall k | k in db.dlq :: k.id in l.issued && DlqUnchanged(k, db.dlq[k], l.issued[k.id]))
    && (forall a | a in db.archives :: a.id in l.issued && ArchiveUnchanged(a, l.issued[a.id]))
  }

  predicate MessageUnchanged(m: Message, o: Origin) {
    o == Origin(m.queue, m.payload, m.enqueuedAt) && m.headers == NO_HEADERS
  }

  predicate DlqUnchanged(k: DlqKey, row: DlqRow, o: Origin) {
    o == Origin(k.queue, row.payload, row.enqueuedAt) && row.headers == NO_HEADERS
  }

  predicate ArchiveUnchanged(a: ArchiveRow, o: Origin) {
    o == Origin(a.queue, a.payload, a.enqueuedAt) && a.headers == NO_HEADERS
  }

  ghost predicate Accounted(db: Db, l: Ledger) {
    PlacedOnce(db, l) && RowsUnchanged(db, l)
  }

  lemma {:induction false} CopiesPositive(archives: seq<ArchiveRow>, i: nat)
    requires i < |archives|
    ensures Copies(archives, archives[i].id) > 0
  {
    if i < |archives| - 1 {
      CopiesPositive(archives[..|archives| - 1], i);
    }
  }

  lemma {:induction false} CopiesZero(archives: seq<ArchiveRow>, id: MsgId)
    requires forall i | 0 <= i < |archives| :: archives[i].id != id
    ensures Copies(archives, id) == 0
  {
    if archives != [] {
      CopiesZero(archives[..|archives| - 1], id);
    }
  }

  /** Two rows of one id are two copies. */
  lemma {:induction false} CopiesTwo(archives: seq<ArchiveRow>, i: nat, j: nat)
    requires i < j < |archives| && archives[i].id == archives[j].id
    ensures Copies(archives, archives[i].id) > 1
  {
    var front := archives[..|archives| - 1];
    if j < |front| {
      CopiesTwo(front, i, j);
    } else {
      CopiesPositive(front, i);
    }
  }

  lemma CopiesAppend(archives: seq<ArchiveRow>, row: ArchiveRow, id: MsgId)
    ensures Copies(archives + [row], id) == Copies(archives, id) + One(row.id == id)
  {
  }

  /** Dropping a queue removes all copies of its own ids and no copy of any other. */
  lemma {:induction false} CopiesWithoutQueue(archives: seq<ArchiveRow>, q: QueueId, owner: QueueId, id: MsgId)
    requires forall i | 0 <= i < |archives| && archives[i].id == id :: archives[i].queue == owner
    ensures Copies(WithoutQueue(archives, q), id) == if owner == q then 0 else Copies(archives, id)
  {
    if archives != [] {
      var front, last := archives[..|archives| - 1], archives[|archives| - 1];
      assert forall i | 0 <= i < |front| :: front[i] == archives[i];
      CopiesWithoutQueue(front, q, owner, id);
      CopiesAppend(WithoutQueue(front, q), last, id);
      assert archives == front + [last];
    }
  }

  // ----- One lemma per statement -----

  lemma DlqMovePlaced(db: Db, l: Ledger, q: QueueId, ids: set<MsgId>, reason: string)
    requires Accounted(db, l)
    requires ids <= db.messages.Keys && forall id | id in ids :: db.messages[id].queue == q
    ensures PlacedOnce(MoveToDlq(db, q, ids, reason), l)
  {
  }

  lemma DlqMoveAccounted(db: Db, l: Ledger, q: QueueId, ids: set<MsgId>, reason: string)
    requires Accounted(db, l)
    requires ids <= db.messages.Keys && forall id | id in ids :: db.messages[id].queue == q
    ensures Accounted(MoveToDlq(db, q, ids, reason), l)
  {
    DlqMovePlaced(db, l, q, ids, reason);
  }

  lemma ArchiveAccounted(db: Db, l: Ledger, q: QueueId, id: MsgId)
    requires Accounted(db, l) && Active(db, q, id)
    ensures Accounted(MoveToArchive(db, q, id), l)
  {
    var db' := MoveToArchive(db, q, id);
    forall other | other in l.issued
      ensures Places(db', l, l.issued[other].queue, other) == 1
    {
      assert Places(db, l, l.issued[other].queue, other) == 1;
      CopiesAppend(db.archives, db'.archives[|db.archives|], other);
    }
  }

  lemma AckAccounted(db: Db, l: Ledger, id: MsgId)
    requires Accounted(db, l) && id in db.messages
    ensures Accounted(Delete(db, id), l.(acked := l.acked + {id}))
  {
  }

  lemma RequeueAccounted(db: Db, l: Ledger, q: QueueId, id: MsgId)
    requires Accounted(db, l) && Revives(db, q, id)
    ensures Accounted(Requeue(db, q, id), l)
  {
  }

  lemma InsertAccounted(db: Db, l: Ledger, q: QueueId, id: MsgId, payload: string, delay: nat)
    requires Accounted(db, l) && id !in l.issued
    ensures Accounted(Insert(db, q, id, payload, delay), l.(issued := l.issued[id := Origin(q, payload, db.now)]))
  {
    CopiesZero(db.archives, id);
  }

  /** Leasing and renewing rewrite rows in place. */
  lemma RewriteAccounted(db: Db, l: Ledger, db': Db)
    requires Accounted(db, l)
    requires db'.dlq == db.dlq && db'.archives == db.archives && db'.messages.Keys == db.messages.Keys
    requires forall id | id in db.messages ::
               var m, m' := db.messages[id], db'.messages[id];
               m' == m.(availableAt := m'.availableAt, leaseUntil := m'.leaseUntil, token := m'.token,
                        readCount := m'.readCount)
    ensures Accounted(db', l)
  {
  }

  lemma PurgeMessagesAccounted(db: Db, l: Ledger, q: QueueId)
    requires Accounted(db, l)
    ensures Accounted(PurgeMessages(db, q), Record(l, db, PurgeQueue(q)))
  {
    var db', l' := PurgeMessages(db, q), Record(l, db, PurgeQueue(q));
    forall id | id in l.issued
      ensures Places(db', l', l.issued[id].queue, id) == 1
    {
      assert Places(db, l, l.issued[id].queue, id) == 1;
    }
  }

  lemma DlqDeleteAccounted(db: Db, l: Ledger, db': Db, gone: set<MsgId>)
    requires Accounted(db, l)
    requires db' == db.(dlq := db'.dlq)
    requires db'.dlq.Keys <= db.dlq.Keys && forall k | k in db'.dlq :: db'.dlq[k] == db.dlq[k]
    requires forall id :: id in gone <==> exists k :: k in db.dlq && k !in db'.dlq && k.id == id
    ensures Accounted(db', l.(discarded := l.discarded + gone))
  {
  }

  lemma DroppedIds(db: Db, l: Ledger, q: QueueId, id: MsgId)
    requires Accounted(db, l) && id in l.issued
    ensures id in DiscardedBy(db, DropQueue(q)) <==>
            l.issued[id].queue == q && id !in l.acked && id !in l.discarded
  {
    assert Places(db, l, l.issued[id].queue, id) == 1;
    var k := DlqKey(q, id);
    if k in db.dlq {
      assert k.id in DiscardedBy(db, DropQueue(q));
    }
    if i: nat :| i < |db.archives| && db.archives[i].id == id {
      CopiesPositive(db.archives, i);
      assert db.archives[i] in db.archives;
    } else {
      CopiesZero(db.archives, id);
    }
  }

  lemma DropPlaced(db: Db, l: Ledger, q: QueueId)
    requires Accounted(db, l)
    ensures PlacedOnce(Drop(db, q), Record(l, db, DropQueue(q)))
  {
    var db', l' := Drop(db, q), Record(l, db, DropQueue(q));
    forall id | id in l.issued
      ensures Places(db', l', l.issued[id].queue, id) == 1
    {
      assert Places(db, l, l.issued[id].queue, id) == 1;
      CopiesWithoutQueue(db.archives, q, l.issued[id].queue, id);
      DroppedIds(db, l, q, id);
    }
  }

  lemma DropAccounted(db: Db, l: Ledger, q: QueueId)
    requires Accounted(db, l)
    ensures Accounted(Drop(db, q), Record(l, db, DropQueue(q)))
  {
    hide PlacedOnce, WithoutQueue;
    DropPlaced(db, l, q);
    ArchivesShrink(db.archives, q);
  }

  lemma DiscardStep(db: Db, l: Ledger, e: Event)
    requires Accounted(db, l)
    requires e.DropQueue? || e.PurgeQueue? || e.PurgeDlq? || e.SweepDlq?
    ensures Accounted(Step(db, e), Record(l, db, e))
  {
    match e
    case DropQueue(q) => DropAccounted(db, l, q);
    case PurgeQueue(q) => PurgeMessagesAccounted(db, l, q);
    case PurgeDlq(q) => DlqDeleteAccounted(db, l, PurgeDead(db, q), DiscardedBy(db, e));
    case SweepDlq(days) => DlqDeleteAccounted(db, l, SweepDead(db, days), DiscardedBy(db, e));
  }

  lemma MoveStep(db: Db, l: Ledger, e: Event)
    requires Accounted(db, l)
    requires e.DeadLetterDue? || e.DeadLetter? || e.Reprocess?
    ensures Accounted(Step(db, e), Record(l, db, e))
  {
    hide Accounted;
    NothingRecorded(db, l, e);
    match e
    case DeadLetterDue(q) => DlqMoveAccounted(db, l, q, Due(db, q), LimitReason(db, q));
    case DeadLetter(q, id, reason) => if Active(db, q, id) { DlqMoveAccounted(db, l, q, {id}, reason); }
    case Reprocess(q, id) => if Revives(db, q, id) { RequeueAccounted(db, l, q, id); }
  }

  lemma HolderStep(db: Db, l: Ledger, e: Event)
    requires Accounted(db, l)
    requires e.Ack? || e.Archive? || e.Extend?
    ensures Accounted(Step(db, e), Record(l, db, e))
  {
    hide Accounted;
    if Holds(db, e.queue, e.id, e.token) {
      match e
      case Ack(q, id, token) =>
        AckAccounted(db, l, id);
        assert Record(l, db, e) == l.(acked := l.acked + {id});
      case Archive(q, id, token) =>
        ArchiveAccounted(db, l, q, id);
        NothingRecorded(db, l, e);
      case Extend(q, id, token, lease) =>
        RewriteAccounted(db, l, Renew(db, id, lease));
        NothingRecorded(db, l, e);
    } else {
      NothingRecorded(db, l, e);
    }
  }

  lemma NothingRecorded(db: Db, l: Ledger, e: Event)
    requires e.Send? ==> e.queue !in db.limits || e.id in db.messages
    requires e.Ack? ==> !Holds(db, e.queue, e.id, e.token)
    requires DiscardedBy(db, e) == {}
    ensures Record(l, db, e) == l
  {
  }

  lemma SendStep(db: Db, l: Ledger, e: Event)
    requires Accounted(db, l) && e.Send? && e.id !in l.issued
    ensures Accounted(Step(db, e), Record(l, db, e))
  {
    hide Accounted;
    if e.queue in db.limits && e.id !in db.messages {
      InsertAccounted(db, l, e.queue, e.id, e.payload, e.delay);
      assert Record(l, db, e) == l.(issued := l.issued[e.id := Origin(e.queue, e.payload, db.now)]);
    } else {
      NothingRecorded(db, l, e);
    }
  }

  lemma RewriteStep(db: Db, l: Ledger, e: Event)
    requires Accounted(db, l)
    requires e.Tick? || e.CreateQueue? || e.Claim?
    ensures Accounted(Step(db, e), Record(l, db, e))
  {
    hide Accounted, Claimed;
    RewriteAccounted(db, l, Step(db, e));
    NothingRecorded(db, l, e);
  }

  /** One statement keeps the books balanced. */
  lemma StepAccounted(db: Db, l: Ledger, e: Event)
    requires Accounted(db, l)
    requires e.Send? ==> e.id !in l.issued
    ensures Accounted(Step(db, e), Record(l, db, e))
  {
    if e.DropQueue? || e.PurgeQueue? || e.PurgeDlq? || e.SweepDlq? {
      DiscardStep(db, l, e);
    } else if e.DeadLetterDue? || e.DeadLetter? || e.Reprocess? {
      MoveStep(db, l, e);
    } else if e.Ack? || e.Archive? || e.Extend? {
      HolderStep(db, l, e);
    } else if e.Send? {
      SendStep(db, l, e);
    } else {
      RewriteStep(db, l, e);
    }
  }

  lemma {:induction false} ArchivesShrink(archives: seq<ArchiveRow>, q: QueueId)
    ensures forall a | a in WithoutQueue(archives, q) :: a in archives && a.queue != q
  {
    if archives != [] {
      ArchivesShrink(archives[..|archives| - 1], q);
    }
  }

  /** In every reachable state every issued message is in exactly one place, unchanged. */
  lemma {:induction false} Conservation(run: Run, k: nat)
    requires FreshIds(run) && k <= |run|
    ensures Accounted(After(run, k), LedgerAfter(run, k))
  {
    if k > 0 {
      Conservation(run, k - 1);
      StepAccounted(After(run, k - 1), LedgerAfter(run, k - 1), run[k - 1]);
    }
  }
}
