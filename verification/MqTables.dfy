/**
 The message-queue tables and the SQL statements of `MqStore` as functions on them.
 One event is one statement (or one transaction with a single effect); everything
 the database or the environment chooses (ids, tokens, rows locked by others, the
 clock) is carried by the event.
 */
module MqTables {
  import opened Wrappers
  import opened Collections
  import Decimal

  type MsgId = nat
  type QueueId = nat
  type Token = string

  /** Time is counted in milliseconds. */
  const SECOND := 1000
  const DAY := 86_400 * SECOND

  /** The default of the `headers` column. */
  const NO_HEADERS := "{}"

  datatype Message = Message(
    queue: QueueId, payload: string, headers: string, availableAt: int,
    leaseUntil: Option<int>, token: Option<Token>, readCount: nat, enqueuedAt: int)
  {
    predicate Visible(t: int) {
      availableAt <= t && (leaseUntil.None? || leaseUntil.value <= t)
    }

    predicate InFlight(t: int) {
      leaseUntil.Some? && t < leaseUntil.value
    }
  }

  /** The unique key of mq_dlq. */
  datatype DlqKey = DlqKey(queue: QueueId, id: MsgId)

  datatype DlqRow = DlqRow(
    payload: string, headers: string, readCount: nat, enqueuedAt: int, deadLetteredAt: int, reason: string)

  datatype ArchiveRow = ArchiveRow(
    queue: QueueId, id: MsgId, payload: string, headers: string, readCount: nat, enqueuedAt: int)

  datatype Db = Db(
    now: int,
    limits: map<QueueId, int>,
    messages: map<MsgId, Message>,
    dlq: map<DlqKey, DlqRow>,
    archives: seq<ArchiveRow>)

  const EMPTY := Db(0, map[], map[], map[], [])

  datatype Event =
    | Tick(elapsed: nat)
    | CreateQueue(queue: QueueId, limit: int)
    | DropQueue(queue: QueueId)
    | Send(queue: QueueId, id: MsgId, payload: string, delay: nat)
      // The two statements of `read`. `at` is the now() of the claiming statement, `skip`
      // the rows that other transactions hold locked, `draw` the random part of the token.
    | DeadLetterDue(queue: QueueId)
    | Claim(queue: QueueId, quantity: nat, lease: nat, at: int, skip: set<MsgId>, draw: MsgId -> Token)
    | Ack(queue: QueueId, id: MsgId, token: Token)
    | Archive(queue: QueueId, id: MsgId, token: Token)
    | Extend(queue: QueueId, id: MsgId, token: Token, lease: nat)
    | DeadLetter(queue: QueueId, id: MsgId, reason: string)
    | Reprocess(queue: QueueId, id: MsgId)
    | PurgeQueue(queue: QueueId)
    | PurgeDlq(queue: QueueId)
    | SweepDlq(retentionDays: int)

  /** COALESCE(max_redelivery_count, 0) of a queue. */
  function Limit(db: Db, q: QueueId): int {
    if q in db.limits then db.limits[q] else 0
  }

  predicate Active(db: Db, q: QueueId, id: MsgId) {
    id in db.messages && db.messages[id].queue == q
  }

  function VisibleIds(db: Db, q: QueueId, t: int): (r: set<MsgId>)
    ensures r <= db.messages.Keys
  {
    set id | id in db.messages && db.messages[id].queue == q && db.messages[id].Visible(t)
  }

  /** The rows `dead_letter_due_messages` deletes. */
  function Due(db: Db, q: QueueId): (r: set<MsgId>)
    ensures r <= db.messages.Keys
  {
    set id | id in VisibleIds(db, q, db.now) && 0 < Limit(db, q) <= db.messages[id].readCount
  }

  /** The rows the `picked` subquery of `read` selects and locks. */
  function Claimed(db: Db, e: Event): (r: set<MsgId>)
    requires e.Claim?
    ensures r <= db.messages.Keys
  {
    Lowest(VisibleIds(db, e.queue, e.at) - e.skip, e.quantity)
  }

  /** The WHERE clause shared by ack, archive and set_visibility_timeout. */
  predicate Holds(db: Db, q: QueueId, id: MsgId, token: Token) {
    Active(db, q, id) && db.messages[id].token == Some(token) && db.messages[id].InFlight(db.now)
  }

  function ToDlq(db: Db, m: Message, reason: string): DlqRow {
    DlqRow(m.payload, m.headers, m.readCount, m.enqueuedAt, db.now, reason)
  }

  /** DELETE ... RETURNING into mq_dlq, ON CONFLICT DO NOTHING: an existing row wins. */
  function MoveToDlq(db: Db, q: QueueId, ids: set<MsgId>, reason: string): (r: Db)
    requires ids <= db.messages.Keys
    ensures r == db.(messages := r.messages, dlq := r.dlq)
    ensures r.messages == db.messages - ids
    ensures forall k :: k in r.dlq <==> k in db.dlq || (k.queue == q && k.id in ids)
    ensures forall k | k in r.dlq ::
              r.dlq[k] == if k in db.dlq then db.dlq[k] else ToDlq(db, db.messages[k.id], reason)
  {
    db.(messages := db.messages - ids,
        dlq := (map id | id in ids :: DlqKey(q, id) := ToDlq(db, db.messages[id], reason)) + db.dlq)
  }

  function LimitReason(db: Db, q: QueueId): string {
    "max_redelivery_count=" + Decimal.Print(Limit(db, q))
  }

  function Insert(db: Db, q: QueueId, id: MsgId, payload: string, delay: nat): Db {
    db.(messages := db.messages[
          id := Message(q, payload, NO_HEADERS, db.now + delay * SECOND, None, None, 0, db.now)])
  }

  function Leased(m: Message, until: int, token: Token): Message {
    m.(leaseUntil := Some(until), token := Some(token), readCount := m.readCount + 1)
  }

  function LeaseAll(db: Db, ids: set<MsgId>, until: int, draw: MsgId -> Token): Db {
    db.(messages := map id | id in db.messages ::
          if id in ids then Leased(db.messages[id], until, draw(id)) else db.messages[id])
  }

  function Delete(db: Db, id: MsgId): Db {
    db.(messages := db.messages - {id})
  }

  function MoveToArchive(db: Db, q: QueueId, id: MsgId): Db
    requires id in db.messages
  {
    var m := db.messages[id];
    db.(messages := db.messages - {id},
        archives := db.archives + [ArchiveRow(q, id, m.payload, m.headers, m.readCount, m.enqueuedAt)])
  }

  function Renew(db: Db, id: MsgId, lease: nat): Db
    requires id in db.messages
  {
    db.(messages := db.messages[id := db.messages[id].(leaseUntil := Some(db.now + lease * SECOND))])
  }

  /** The row `reprocess_dlq_message` inserts; it names no headers. */
  function Revived(db: Db, q: QueueId, row: DlqRow): Message {
    Message(q, row.payload, NO_HEADERS, db.now, None, None, 0, row.enqueuedAt)
  }

  predicate Revives(db: Db, q: QueueId, id: MsgId) {
    DlqKey(q, id) in db.dlq && id !in db.messages
  }

  function Requeue(db: Db, q: QueueId, id: MsgId): Db
    requires Revives(db, q, id)
  {
    db.(messages := db.messages[id := Revived(db, q, db.dlq[DlqKey(q, id)])],
        dlq := db.dlq - {DlqKey(q, id)})
  }

  function WithoutQueue(archives: seq<ArchiveRow>, q: QueueId): seq<ArchiveRow> {
    if archives == [] then []
    else
      var rest := WithoutQueue(archives[..|archives| - 1], q);
      if archives[|archives| - 1].queue == q then rest else rest + [archives[|archives| - 1]]
  }

  predicate Expired(db: Db, retentionDays: int, row: DlqRow) {
    0 < retentionDays && row.deadLetteredAt < db.now - retentionDays * DAY
  }

  function PurgeMessages(db: Db, q: QueueId): Db {
    db.(messages := map id | id in db.messages && db.messages[id].queue != q :: db.messages[id])
  }

  function PurgeDead(db: Db, q: QueueId): Db {
    db.(dlq := map k | k in db.dlq && k.queue != q :: db.dlq[k])
  }

  function SweepDead(db: Db, days: int): Db {
    db.(dlq := map k | k in db.dlq && !Expired(db, days, db.dlq[k]) :: db.dlq[k])
  }

  /** ON DELETE CASCADE from mq_queues. */
  function Drop(db: Db, q: QueueId): Db {
    PurgeDead(PurgeMessages(db, q), q).(limits := db.limits - {q}, archives := WithoutQueue(db.archives, q))
  }

  function Step(db: Db, e: Event): Db {
    match e
    case Tick(elapsed) => db.(now := db.now + elapsed)
    case CreateQueue(q, limit) => if q in db.limits then db else db.(limits := db.limits[q := limit])
    case DropQueue(q) => Drop(db, q)
    case Send(q, id, payload, delay) =>
      if q in db.limits && id !in db.messages then Insert(db, q, id, payload, delay) else db
    case DeadLetterDue(q) => MoveToDlq(db, q, Due(db, q), LimitReason(db, q))
    case Claim(q, quantity, lease, at, skip, draw) =>
      LeaseAll(db, Claimed(db, e), at + lease * SECOND, draw)
    case Ack(q, id, token) => if Holds(db, q, id, token) then Delete(db, id) else db
    case Archive(q, id, token) => if Holds(db, q, id, token) then MoveToArchive(db, q, id) else db
    case Extend(q, id, token, lease) => if Holds(db, q, id, token) then Renew(db, id, lease) else db
    case DeadLetter(q, id, reason) => if Active(db, q, id) then MoveToDlq(db, q, {id}, reason) else db
    // A primary-key collision rolls the whole transaction of reprocess back.
    case Reprocess(q, id) => if Revives(db, q, id) then Requeue(db, q, id) else db
    case PurgeQueue(q) => PurgeMessages(db, q)
    case PurgeDlq(q) => PurgeDead(db, q)
    case SweepDlq(days) => SweepDead(db, days)
  }

  // ----- Runs -----

  type Run = seq<Event>

  /** The tables after the first `k` events of a run. */
  function After(run: Run, k: nat): Db
    requires k <= |run|
  {
    if k == 0 then EMPTY else Step(After(run, k - 1), run[k - 1])
  }

  /** The messages that event `k` hands to a consumer. */
  function Delivered(run: Run, k: nat): set<MsgId>
    requires k < |run|
  {
    if run[k].Claim? then Claimed(After(run, k), run[k]) else {}
  }

  /** No statement reads a clock that lies in the future. */
  ghost predicate Clocked(run: Run) {
    forall k: nat | k < |run| && run[k].Claim? :: run[k].at <= After(run, k).now
  }

  /** What comes later does not change what was. */
  lemma {:induction false} AfterPrefix(run: Run, more: Run, k: nat)
    requires k <= |run|
    ensures After(run + more, k) == After(run, k)
  {
    hide Step;
    if k > 0 {
      AfterPrefix(run, more, k - 1);
    }
  }

  lemma StepClock(db: Db, e: Event)
    ensures db.now <= Step(db, e).now && (!e.Tick? ==> Step(db, e).now == db.now)
  {
  }
}
