/**
 Runs as histories of a store: what one more statement keeps, and what the theorems about
 runs say of the tables at the end of a history.
 */
module MqHistory {
  import opened Wrappers
  import opened Collections
  import opened MqTables
  import opened MqLedger
  import opened MqRuns
  import opened MqBound

  /** The tables at the end of a run. */
  function Final(run: Run): Db {
    After(run, |run|)
  }

  function Books(run: Run): Ledger {
    LedgerAfter(run, |run|)
  }

  /** Ids and tokens are never reused, clocks are not ahead, and reads run as one step. */
  ghost predicate Legal(run: Run) {
    FreshIds(run) && FreshTokens(run) && Clocked(run) && AtomicReads(run)
  }

  lemma EmptyLegal()
    ensures Legal([]) && Final([]) == EMPTY
  {
  }

  // ----- One more statement -----

  lemma {:induction false} LedgerPrefix(run: Run, more: Run, k: nat)
    requires k <= |run|
    ensures LedgerAfter(run + more, k) == LedgerAfter(run, k)
  {
    hide Record, Step;
    if k > 0 {
      LedgerPrefix(run, more, k - 1);
      AfterPrefix(run, more, k - 1);
    }
  }

  lemma DeliveredPrefix(run: Run, more: Run, k: nat)
    requires k < |run|
    ensures Delivered(run + more, k) == Delivered(run, k) && (run + more)[k] == run[k]
  {
    hide Step, Claimed;
    AfterPrefix(run, more, k);
  }

  lemma FinalAppend(run: Run, e: Event)
    ensures Final(run + [e]) == Step(Final(run), e)
    ensures Books(run + [e]) == Record(Books(run), Final(run), e)
  {
    hide Step, Record;
    AfterPrefix(run, [e], |run|);
    LedgerPrefix(run, [e], |run|);
  }

  lemma FreshIdsAppend(run: Run, e: Event)
    requires FreshIds(run) && (e.Send? ==> e.id !in Books(run).issued)
    ensures FreshIds(run + [e])
  {
    hide Step, Record;
    forall k: nat | k <= |run|
      ensures LedgerAfter(run + [e], k) == LedgerAfter(run, k)
    {
      LedgerPrefix(run, [e], k);
    }
  }

  /** The token is new to every message it has been delivered under. */
  ghost predicate FreshDraw(run: Run, draw: MsgId -> Token) {
    forall k: nat, id | k < |run| && id in Delivered(run, k) :: run[k].draw(id) != draw(id)
  }

  lemma FreshTokensAppend(run: Run, e: Event)
    requires FreshTokens(run) && (e.Claim? ==> FreshDraw(run, e.draw))
    ensures FreshTokens(run + [e])
  {
    hide Step, Claimed;
    forall k: nat | k < |run|
      ensures Delivered(run + [e], k) == Delivered(run, k) && (run + [e])[k] == run[k]
    {
      DeliveredPrefix(run, [e], k);
    }
  }

  lemma ClocksAppend(run: Run, e: Event)
    requires Clocked(run) && AtomicReads(run)
    requires e.Claim? ==> run != [] && run[|run| - 1] == DeadLetterDue(e.queue) && e.at == Final(run).now
    ensures Clocked(run + [e]) && AtomicReads(run + [e])
  {
    hide Step;
    forall k: nat | k <= |run|
      ensures After(run + [e], k) == After(run, k)
    {
      AfterPrefix(run, [e], k);
    }
  }

  lemma LegalAppend(run: Run, e: Event)
    requires Legal(run) && (e.Send? ==> e.id !in Books(run).issued)
    requires e.Claim? ==>
               && run != [] && run[|run| - 1] == DeadLetterDue(e.queue) && e.at == Final(run).now
               && FreshDraw(run, e.draw)
    ensures Legal(run + [e]) && Final(run + [e]) == Step(Final(run), e)
  {
    hide Step, Record, Clocked, AtomicReads, FreshTokens, FreshIds, FreshDraw;
    FreshIdsAppend(run, e);
    FreshTokensAppend(run, e);
    ClocksAppend(run, e);
    FinalAppend(run, e);
  }

  /** A history up to `now`. */
  function Until(run: Run, now: int): Run
    requires Final(run).now <= now
  {
    run + [Tick(now - Final(run).now)]
  }

  lemma UntilLegal(run: Run, now: int)
    requires Legal(run) && Final(run).now <= now
    ensures Legal(Until(run, now)) && Final(Until(run, now)) == Final(run).(now := now)
    ensures Books(Until(run, now)).issued == Books(run).issued
  {
    var e := Tick(now - Final(run).now);
    LegalAppend(run, e);
    FinalAppend(run, e);
    assert Step(Final(run), e) == Final(run).(now := now);
    assert Record(Books(run), Final(run), e).issued == Books(run).issued;
  }

  /** One statement other than a claim, at `now`, on tables `before`. */
  lemma LegalNext(run: Run, now: int, e: Event, before: Db)
    requires Legal(run) && Final(run).now <= now && before == Final(run).(now := now)
    requires !e.Tick? && !e.Claim? && (e.Send? ==> e.id !in Books(run).issued)
    ensures Legal(Until(run, now) + [e])
    ensures Final(Until(run, now) + [e]) == Step(before, e) && Step(before, e).now == now
  {
    UntilLegal(run, now);
    hide Step, Legal, After, LedgerAfter;
    LegalAppend(Until(run, now), e);
    StepClock(before, e);
  }

  lemma FreshDrawAppend(run: Run, e: Event, draw: MsgId -> Token)
    requires FreshDraw(run, draw) && !e.Claim?
    ensures FreshDraw(run + [e], draw)
  {
    hide Step, Claimed;
    forall k: nat, id | k < |run| + 1 && id in Delivered(run + [e], k)
      ensures (run + [e])[k].draw(id) != draw(id)
    {
      if k < |run| {
        DeliveredPrefix(run, [e], k);
      }
    }
  }

  /** The two statements of a read, as one step. */
  lemma LegalRead(run: Run, now: int, e: Event, before: Db)
    requires Legal(run) && Final(run).now <= now && before == Final(run).(now := now)
    requires e.Claim? && e.at == now && FreshDraw(run, e.draw)
    ensures var run' := Until(run, now) + [DeadLetterDue(e.queue)] + [e];
            && Legal(run') && Final(run') == Step(Step(before, DeadLetterDue(e.queue)), e)
            && Final(run').now == now && WithinLimit(Final(run'))
  {
    var due := DeadLetterDue(e.queue);
    LegalNext(run, now, due, before);
    FreshDrawAppend(run, Tick(now - Final(run).now), e.draw);
    FreshDrawAppend(Until(run, now), due, e.draw);
    hide Step, FreshDraw, WithinLimit, After, LedgerAfter, Until;
    var mid := Until(run, now) + [due];
    LegalAppend(mid, e);
    StepClock(Final(mid), e);
    ReadCountBounded(mid + [e], |mid + [e]|);
  }

  // ----- What a history says about the tables at its end -----

  /** Delivery `d` is the last one of `id` and the only one under `token`. */
  ghost predicate LatestDelivery(run: Run, d: nat, id: MsgId, token: Token) {
    && d < |run| && id in Delivered(run, d) && run[d].draw(id) == token
    && (forall i | d < i < |run| :: id !in Delivered(run, i))
    && (forall i: nat | i < |run| && id in Delivered(run, i) && run[i].draw(id) == token :: i == d)
  }

  ghost predicate NeverCompleted(run: Run, id: MsgId) {
    forall k: nat | k < |run| :: !Completes(run, k, id)
  }

  /** Whoever passes the token test holds the latest delivery of a message nobody has completed. */
  lemma HolderIsLatest(run: Run, q: QueueId, id: MsgId, token: Token) returns (d: nat)
    requires Legal(run) && Holds(Final(run), q, id, token)
    ensures LatestDelivery(run, d, id, token) && NeverCompleted(run, id)
  {
    hide Step, Claimed, Record, Clocked, AtomicReads;
    TokenIsHolders(run, |run|, id);
    HolderIsLatestDelivery(run, |run|, id);
    d := Holder(run, |run|, id).value;
    ActiveIsUncompleted(run, id);
  }

  lemma ActiveIsUncompleted(run: Run, id: MsgId)
    requires FreshIds(run) && id in Final(run).messages
    ensures NeverCompleted(run, id)
  {
    hide Step, Claimed, Record, Completes;
    Conservation(run, |run|);
    forall k: nat | k < |run| && Completes(run, k, id)
      ensures false
    {
      FinishedForever(run, k, |run|, id);
    }
  }

  // ----- The books in numbers -----

  function IssuedIn(l: Ledger, q: QueueId): set<MsgId> {
    set id | id in l.issued && l.issued[id].queue == q
  }

  function DeadRows(db: Db, q: QueueId): set<DlqKey> {
    set k | k in db.dlq && k.queue == q
  }

  /** The positions of the archived rows of a queue. */
  function ArchivedRows(archives: seq<ArchiveRow>, q: QueueId): set<nat> {
    set i: nat | i < |archives| && archives[i].queue == q
  }

  function DeadIds(db: Db, q: QueueId): set<MsgId> {
    set k | k in db.dlq && k.queue == q :: k.id
  }

  lemma DeadRowsAreIds(db: Db, q: QueueId)
    ensures |DeadRows(db, q)| == |DeadIds(db, q)|
  {
    var f := (k: DlqKey) => k.id;
    forall n | n in DeadIds(db, q)
      ensures exists k :: k in DeadRows(db, q) && f(k) == n
    {
      var k :| k in db.dlq && k.queue == q && k.id == n;
      assert k in DeadRows(db, q) && f(k) == n;
    }
    SameSize(DeadRows(db, q), DeadIds(db, q), f);
  }

  lemma ArchivedRowsAreIds(db: Db, l: Ledger, q: QueueId)
    requires Accounted(db, l)
    ensures |ArchivedRows(db.archives, q)| == |IdsOfArchives(db.archives, q)|
  {
    var a := db.archives;
    var f := (i: nat) => if i < |a| then a[i].id else 0;
    forall i, j | i in ArchivedRows(a, q) && j in ArchivedRows(a, q) && f(i) == f(j)
      ensures i == j
    {
      if i != j {
        CopiesTwo(a, if i < j then i else j, if i < j then j else i);
      }
    }
    forall n | n in IdsOfArchives(a, q)
      ensures exists i: nat :: i in ArchivedRows(a, q) && f(i) == n
    {
      var i :| 0 <= i < |a| && a[i].queue == q && a[i].id == n;
      assert i in ArchivedRows(a, q) && f(i) == n;
    }
    SameSize(ArchivedRows(a, q), IdsOfArchives(a, q), f);
  }

  /** Where an issued message of queue `q` is. */
  lemma OnePlaceEach(db: Db, l: Ledger, q: QueueId, id: MsgId)
    requires Accounted(db, l) && id in IssuedIn(l, q)
    ensures One(id in ActiveIds(db, q)) + One(id in DeadIds(db, q)) + One(id in IdsOfArchives(db.archives, q))
            + One(id in l.acked) + One(id in l.discarded) == 1
  {
    assert Places(db, l, q, id) == 1;
    assert id in DeadIds(db, q) <==> DlqKey(q, id) in db.dlq by {
      if DlqKey(q, id) in db.dlq {
        assert DlqKey(q, id).id in DeadIds(db, q);
      }
    }
    if i: nat :| i < |db.archives| && db.archives[i].id == id {
      CopiesPositive(db.archives, i);
      assert db.archives[i] in db.archives;
    } else {
      CopiesZero(db.archives, id);
    }
  }

  lemma RowsAreIssued(db: Db, l: Ledger, q: QueueId)
    requires Accounted(db, l)
    ensures ActiveIds(db, q) + DeadIds(db, q) + IdsOfArchives(db.archives, q) <= IssuedIn(l, q)
  {
    hide PlacedOnce;
    forall i: nat | i < |db.archives|
      ensures db.archives[i] in db.archives
    {
    }
  }

  /** Every message ever sent to a queue is active, dead, archived, acknowledged or discarded, and counted once. */
  lemma BooksBalance(db: Db, l: Ledger, q: QueueId)
    requires Accounted(db, l)
    ensures var issued := IssuedIn(l, q);
            |issued| == |ActiveIds(db, q)| + |DeadRows(db, q)| + |ArchivedRows(db.archives, q)|
                        + |issued * l.acked| + |issued * l.discarded|
  {
    DeadRowsAreIds(db, q);
    ArchivedRowsAreIds(db, l, q);
    RowsAreIssued(db, l, q);
    var issued, a, d, r := IssuedIn(l, q), ActiveIds(db, q), DeadIds(db, q), IdsOfArchives(db.archives, q);
    forall id | id in issued
      ensures One(id in a) + One(id in d) + One(id in r) + One(id in l.acked) + One(id in l.discarded) == 1
    {
      OnePlaceEach(db, l, q, id);
    }
    hide Accounted, IssuedIn, ActiveIds, DeadIds, IdsOfArchives, DeadRows, ArchivedRows;
    FiveParts(issued, a, d, r, issued * l.acked, issued * l.discarded);
  }

  lemma FiveParts(all: set<MsgId>, a: set<MsgId>, b: set<MsgId>, c: set<MsgId>, d: set<MsgId>, e: set<MsgId>)
    requires a + b + c + d + e <= all
    requires forall id | id in all :: One(id in a) + One(id in b) + One(id in c) + One(id in d) + One(id in e) == 1
    ensures |all| == |a| + |b| + |c| + |d| + |e|
  {
    assert a !! b && (a + b) !! c && (a + b + c) !! d && (a + b + c + d) !! e;
    assert all == a + b + c + d + e;
  }

  /** The metrics of a queue at `now`, against its history. */
  lemma QueueInNumbers(run: Run, now: int, db: Db, q: QueueId)
    requires Legal(run) && Final(run).now <= now && db == Final(run).(now := now)
    ensures |VisibleIds(db, q, now)| + |InFlightIds(db, q)| + |DelayedIds(db, q)| == |ActiveIds(db, q)|
    ensures var l, issued := Books(run), IssuedIn(Books(run), q);
            |ActiveIds(db, q)| + |DeadRows(db, q)| + |ArchivedRows(db.archives, q)|
            + |issued * l.acked| + |issued * l.discarded| == |issued|
  {
    UntilLegal(run, now);
    MetricsPartition(Until(run, now), |Until(run, now)|, q);
    Conservation(run, |run|);
    hide After, LedgerAfter, Accounted;
    BooksBalance(Final(run), Books(run), q);
    assert ActiveIds(db, q) == ActiveIds(Final(run), q) && DeadRows(db, q) == DeadRows(Final(run), q);
  }
}
