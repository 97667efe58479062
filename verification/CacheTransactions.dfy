/**
 Read-modify-write transactions (get_set, increment, append, prepend) on many slots,
 interleaved statement by statement with each other and with writers that take no
 advisory lock. Each transaction behaves as if it ran alone at its commit, and on any slot
 transactions take effect in the order in which they acquired the lock.
 */
module CacheTransactions {
  import opened Wrappers
  import opened Validation
  import opened CacheTable
  import opened CacheStoreOps
  import Decimal

  type Client = nat

  datatype Row = Row(key: string, item: Item)
  {
    predicate Live(now: int) {
      LiveItem(item, now)
    }
  }

  datatype Kind = Add(delta: int) | Exchange(value: Bytes) | Join(value: Bytes, position: Position)

  /** One transaction's request; `now` is the time its transaction began. */
  datatype Op = Op(key: string, kind: Kind, ttl: Option<int>, now: int)

  datatype Reply = Number(n: int) | Old(previous: Option<Bytes>) | Length(size: nat)

  datatype Written = Written(item: Item, reply: Reply)

  /** What a transaction writes after reading `row`, or nothing if it fails. */
  function Compute(row: Option<Row>, op: Op): Option<Written> {
    var item := if row.Some? then Some(row.value.item) else None;
    match op.kind
    case Add(delta) =>
      var total := Added(item, delta, op.ttl, op.now);
      if total.None? then None else Some(Written(total.value.item, Number(total.value.sum)))
    case Exchange(value) =>
      Some(Written(Item(value, Expiry(op.ttl, op.now)), Old(if item.Some? then Some(item.value.value) else None)))
    case Join(value, position) =>
      var joined := Joined(item, value, position);
      Some(Written(Item(joined, Expiry(op.ttl, op.now)), Length(|joined|)))
  }

  // ----- Running alone -----

  /** The row a transaction finds: same key, not expired when it began. */
  function Find(cell: Option<Row>, op: Op): Option<Row> {
    if cell.Some? && cell.value.key == op.key && cell.value.Live(op.now) then cell else None
  }

  /** delete_expired_key removes this row. */
  predicate Stale(cell: Option<Row>, op: Op) {
    cell.Some? && cell.value.key == op.key && !cell.value.Live(op.now)
  }

  datatype Effect = Effect(cell: Option<Row>, reply: Option<Reply>)

  /** One transaction with the slot to itself. */
  function Apply(cell: Option<Row>, op: Op): Effect {
    var row := Find(cell, op);
    var written := Compute(row, op);
    if written.None? || (row.None? && cell.Some? && !Stale(cell, op)) then Effect(cell, None)
    else Effect(Some(Row(op.key, written.value.item)), Some(written.value.reply))
  }

  /** The value a transaction finds: of its own key and not expired when it began. */
  function Found(cell: Option<Row>, op: Op): Option<Bytes> {
    if cell.Some? && cell.value.key == op.key
       && (cell.value.item.expiresAt.None? || op.now < cell.value.item.expiresAt.value)
    then Some(cell.value.item.value) else None
  }

  function NewExpiry(cell: Option<Row>, op: Op): Option<int> {
    if op.ttl.Some? then Some(op.now + op.ttl.value * 1000)
    else if op.kind.Add? && Found(cell, op).Some? then cell.value.item.expiresAt
    else None
  }

  /** What each kind of transaction does, case by case. */
  lemma ApplySpelledOut(cell: Option<Row>, op: Op)
    ensures var found, expiry, effect := Found(cell, op), NewExpiry(cell, op), Apply(cell, op);
            && (cell.Some? && cell.value.key != op.key ==> effect == Effect(cell, None))
            && (cell.None? || cell.value.key == op.key ==>
                  match op.kind
                  case Exchange(value) => effect == Effect(Some(Row(op.key, Item(value, expiry))), Some(Old(found)))
                  case Join(value, position) =>
                    var joined :=
                      if found.None? then value
                      else if position == Append then found.value + value else value + found.value;
                    effect == Effect(Some(Row(op.key, Item(joined, expiry))), Some(Length(|joined|)))
                  case Add(delta) =>
                    if found.Some? && !CanAdd(found.value, delta) then effect == Effect(cell, None)
                    else
                      var sum := delta + if found.Some? then Decimal.ParseI64(found.value).value else 0;
                      effect == Effect(Some(Row(op.key, Item(Decimal.Print(sum), expiry))), Some(Number(sum))))
  {
    hide Decimal.Print, Decimal.ParseI64;
  }

  // ----- Interleaved -----

  datatype Phase =
    | Holding  // the advisory lock, and nothing else yet
    | Purged(deleted: bool)
    | Selected(row: Option<Row>, deleted: bool)

  datatype Tx = Tx(slot: Slot, op: Op, phase: Phase)
  {
    /** Other writers of the slot's row must wait for this transaction. */
    predicate LocksRow() {
      (phase.Purged? && phase.deleted) || (phase.Selected? && (phase.deleted || phase.row.Some?))
    }
  }

  datatype State = State(table: map<Slot, Row>, txs: map<Client, Tx>)

  datatype Event =
    | Lock(client: Client, slot: Slot, op: Op)
    | Purge(client: Client)
    | Select(client: Client)
    | Commit(client: Client)
      // Statements outside any advisory lock: set and set_nx; delete, sweep, evict and invalidate.
    | Put(slot: Slot, row: Row)
    | Remove(slot: Slot)

  function Cell(t: State, s: Slot): Option<Row> {
    if s in t.table then Some(t.table[s]) else None
  }

  function LockName(s: Slot): string {
    LockKey(s.ns, s.gen, s.hash)
  }

  ghost predicate RowFree(t: State, s: Slot) {
    forall c | c in t.txs && t.txs[c].slot == s :: !t.txs[c].LocksRow()
  }

  ghost predicate Enabled(t: State, e: Event) {
    match e
    case Lock(c, s, op) =>
      && ValidIdentifier(s.ns) && c !in t.txs
      && forall d | d in t.txs :: LockName(t.txs[d].slot) != LockName(s)
    case Purge(c) => c in t.txs && t.txs[c].phase.Holding?
    case Select(c) => c in t.txs && t.txs[c].phase.Purged?
    case Commit(c) => c in t.txs && t.txs[c].phase.Selected?
    case Put(s, row) => RowFree(t, s)
    case Remove(s) => RowFree(t, s)
  }

  /** What the write of a transaction does: nothing on an error or a unique violation. */
  function WriteOf(t: State, tx: Tx): Option<Written>
    requires tx.phase.Selected?
  {
    if tx.phase.row.None? && !tx.phase.deleted && tx.slot in t.table then None
    else Compute(tx.phase.row, tx.op)
  }

  function Advance(t: State, c: Client, phase: Phase): State
    requires c in t.txs
  {
    t.(txs := t.txs[c := t.txs[c].(phase := phase)])
  }

  function Step(t: State, e: Event): State {
    match e
    case Lock(c, s, op) => t.(txs := t.txs[c := Tx(s, op, Holding)])
    case Purge(c) =>
      if c !in t.txs then t
      else Advance(t, c, Purged(Stale(Cell(t, t.txs[c].slot), t.txs[c].op)))
    case Select(c) =>
      if c !in t.txs || !t.txs[c].phase.Purged? then t
      else
        var tx := t.txs[c];
        var deleted := tx.phase.deleted;
        Advance(t, c, Selected(if deleted then None else Find(Cell(t, tx.slot), tx.op), deleted))
    case Commit(c) =>
      if c !in t.txs || !t.txs[c].phase.Selected? then t
      else
        var tx := t.txs[c];
        var written := WriteOf(t, tx);
        State(if written.Some? then t.table[tx.slot := Row(tx.op.key, written.value.item)] else t.table, t.txs - {c})
    case Put(s, row) => t.(table := t.table[s := row])
    case Remove(s) => t.(table := t.table - {s})
  }

  /** What a commit reports, nothing if the transaction was rolled back. */
  function ReplyOf(t: State, c: Client): Option<Reply>
    requires c in t.txs && t.txs[c].phase.Selected?
  {
    var written := WriteOf(t, t.txs[c]);
    if written.Some? then Some(written.value.reply) else None
  }

  // ----- Invariant -----

  ghost predicate OneTxPerSlot(t: State) {
    && (forall c | c in t.txs :: ValidIdentifier(t.txs[c].slot.ns))
    && (forall c, d | c in t.txs && d in t.txs && c != d :: t.txs[c].slot != t.txs[d].slot)
  }

  /** Rows that a transaction has locked are still what it saw. */
  ghost predicate SeenStillThere(t: State, tx: Tx) {
    var cell := Cell(t, tx.slot);
    match tx.phase
    case Holding => true
    case Purged(deleted) => deleted ==> Stale(cell, tx.op)
    case Selected(row, deleted) =>
      && (deleted ==> Stale(cell, tx.op) && row.None?)
      && (row.Some? ==> cell == row && Find(cell, tx.op) == row)
  }

  ghost predicate Inv(t: State) {
    OneTxPerSlot(t) && forall c | c in t.txs :: SeenStillThere(t, t.txs[c])
  }

  lemma LockKeeps(t: State, e: Event)
    requires Inv(t) && Enabled(t, e) && e.Lock?
    ensures Inv(Step(t, e))
  {
    hide LockKey, ValidIdentifier;
    var t' := Step(t, e);
    assert forall d | d in t.txs :: t.txs[d].slot != e.slot;
    forall c | c in t'.txs
      ensures SeenStillThere(t', t'.txs[c])
    {
      assert c != e.client ==> SeenStillThere(t, t.txs[c]);
    }
  }

  lemma PhaseKeeps(t: State, e: Event)
    requires Inv(t) && Enabled(t, e) && (e.Purge? || e.Select?)
    ensures Inv(Step(t, e))
  {
    hide ValidIdentifier;
    var t' := Step(t, e);
    forall c | c in t'.txs
      ensures SeenStillThere(t', t'.txs[c])
    {
      assert SeenStillThere(t, t.txs[c]);
    }
  }

  lemma CommitKeeps(t: State, e: Event)
    requires Inv(t) && Enabled(t, e) && e.Commit?
    ensures Inv(Step(t, e))
  {
    hide ValidIdentifier, Compute;
    var t' := Step(t, e);
    forall c | c in t'.txs
      ensures SeenStillThere(t', t'.txs[c])
    {
      assert SeenStillThere(t, t.txs[c]) && t.txs[c].slot != t.txs[e.client].slot;
    }
  }

  lemma ForeignKeeps(t: State, e: Event)
    requires Inv(t) && Enabled(t, e) && (e.Put? || e.Remove?)
    ensures Inv(Step(t, e))
  {
    hide ValidIdentifier;
    var t' := Step(t, e);
    forall c | c in t'.txs
      ensures SeenStillThere(t', t'.txs[c])
    {
      assert SeenStillThere(t, t.txs[c]);
    }
  }

  lemma StepKeeps(t: State, e: Event)
    requires Inv(t) && Enabled(t, e)
    ensures Inv(Step(t, e))
  {
    hide Step, Inv, Enabled;
    if e.Lock? {
      LockKeeps(t, e);
    } else if e.Purge? || e.Select? {
      PhaseKeeps(t, e);
    } else if e.Commit? {
      CommitKeeps(t, e);
    } else {
      ForeignKeeps(t, e);
    }
  }

  /** Lock strings tell slots apart: a transaction waits exactly for another one on the same slot. */
  lemma LockWaitsIff(t: State, c: Client, s: Slot, op: Op)
    requires OneTxPerSlot(t) && ValidIdentifier(s.ns) && c !in t.txs
    ensures Enabled(t, Lock(c, s, op)) <==> forall d | d in t.txs :: t.txs[d].slot != s
  {
    hide LockKey, ValidIdentifier;
    forall d | d in t.txs && LockName(t.txs[d].slot) == LockName(s)
      ensures t.txs[d].slot == s
    {
      var u := t.txs[d].slot;
      LockKeyInjective(u.ns, u.gen, u.hash, s.ns, s.gen, s.hash);
    }
  }

  /** A transaction that replies did exactly what it would have done alone; one that fails did nothing. */
  lemma CommitIsAtomic(t: State, c: Client)
    requires Inv(t) && Enabled(t, Commit(c))
    ensures var tx, t' := t.txs[c], Step(t, Commit(c));
            && (forall s | s != tx.slot :: Cell(t', s) == Cell(t, s))
            && if ReplyOf(t, c).Some?
               then Apply(Cell(t, tx.slot), tx.op) == Effect(Cell(t', tx.slot), ReplyOf(t, c))
               else t'.table == t.table
  {
    hide Compute, ValidIdentifier;
    assert SeenStillThere(t, t.txs[c]);
  }

  // ----- Runs -----

  type Run = seq<Event>

  function After(run: Run, k: nat): State
    requires k <= |run|
  {
    if k == 0 then State(map[], map[]) else Step(After(run, k - 1), run[k - 1])
  }

  ghost predicate Legal(run: Run) {
    forall k: nat | k < |run| :: Enabled(After(run, k), run[k])
  }

  lemma {:induction false} InvHolds(run: Run, k: nat)
    requires Legal(run) && k <= |run|
    ensures Inv(After(run, k))
  {
    hide Step, Enabled;
    if k > 0 {
      InvHolds(run, k - 1);
      StepKeeps(After(run, k - 1), run[k - 1]);
    }
  }

  // ----- Transactions that fail although alone they would not -----

  /** A row of the same key has appeared where the transaction found none and removed none. */
  predicate Overtaken(t: State, c: Client)
    requires c in t.txs && t.txs[c].phase.Selected?
  {
    var tx, cell := t.txs[c], Cell(t, t.txs[c].slot);
    && tx.phase.row.None? && !tx.phase.deleted
    && cell.Some? && cell.value.key == tx.op.key && Compute(Find(cell, tx.op), tx.op).Some?
  }

  /** A transaction replies as it would alone at its commit, unless it was overtaken: then it fails. */
  lemma RepliesAsAloneIff(t: State, c: Client)
    requires Inv(t) && Enabled(t, Commit(c))
    ensures ReplyOf(t, c) == Apply(Cell(t, t.txs[c].slot), t.txs[c].op).reply <==> !Overtaken(t, c)
    ensures Overtaken(t, c) ==> ReplyOf(t, c) == None
  {
    hide Compute, ValidIdentifier;
    assert SeenStillThere(t, t.txs[c]);
  }

  /** Since `c` removed the expired row, nothing of its key has appeared in its slot. */
  ghost predicate NotOvertaken(t: State, c: Client) {
    c in t.txs &&
    var cell, tx := Cell(t, t.txs[c].slot), t.txs[c];
    match tx.phase
    case Holding => false
    case Purged(deleted) => deleted || !Stale(cell, tx.op)
    case Selected(row, deleted) => deleted || row.Some? || cell.None? || cell.value.key != tx.op.key
  }

  lemma NotOvertakenStep(t: State, e: Event, c: Client)
    requires Inv(t) && Enabled(t, e) && NotOvertaken(t, c)
    requires e != Commit(c) && !(e.Put? && e.slot == t.txs[c].slot)
    ensures NotOvertaken(Step(t, e), c) && Step(t, e).txs[c].slot == t.txs[c].slot
  {
    hide ValidIdentifier, Compute, SeenStillThere;
  }

  lemma PurgedNotOvertaken(t: State, c: Client)
    requires Enabled(t, Purge(c))
    ensures NotOvertaken(Step(t, Purge(c)), c) && Step(t, Purge(c)).txs[c].slot == t.txs[c].slot
  {
    hide ValidIdentifier;
  }

  lemma {:induction false} NotOvertakenBetween(run: Run, p: nat, k: nat, c: Client)
    requires Legal(run) && p < k <= |run| && run[p] == Purge(c) && c in After(run, p).txs
    requires forall i | p < i < k :: run[i] != Commit(c)
    requires forall i | p < i < k :: !(run[i].Put? && run[i].slot == After(run, p).txs[c].slot)
    ensures NotOvertaken(After(run, k), c) && After(run, k).txs[c].slot == After(run, p).txs[c].slot
  {
    hide Step, NotOvertaken, Inv, Enabled;
    if k == p + 1 {
      PurgedNotOvertaken(After(run, p), c);
    } else {
      NotOvertakenBetween(run, p, k - 1, c);
      InvHolds(run, k - 1);
      NotOvertakenStep(After(run, k - 1), run[k - 1], c);
    }
  }

  /** In every run, only a set or set_nx on its slot after its purge can make a transaction fail that way. */
  lemma OvertakenByWriter(run: Run, p: nat, k: nat, c: Client) returns (i: nat)
    requires Legal(run) && p < k < |run| && run[p] == Purge(c) && run[k] == Commit(c)
    requires forall j | p < j < k :: run[j] != Commit(c)
    requires Overtaken(After(run, k), c)
    ensures p < i < k && run[i].Put? && run[i].slot == After(run, k).txs[c].slot
  {
    hide Step, Compute;
    assert Enabled(After(run, p), Purge(c));
    if j :| p < j < k && run[j].Put? && run[j].slot == After(run, p).txs[c].slot {
      i := j;
      SlotKept(run, p, k, c);
    } else {
      NotOvertakenBetween(run, p, k, c);
    }
  }

  lemma {:induction false} SlotKept(run: Run, p: nat, k: nat, c: Client)
    requires Legal(run) && p < k <= |run| && run[p] == Purge(c) && c in After(run, p).txs
    requires forall i | p < i < k :: run[i] != Commit(c)
    ensures c in After(run, k).txs && After(run, k).txs[c].slot == After(run, p).txs[c].slot
  {
    hide Step, Enabled;
    if p + 1 < k {
      SlotKept(run, p, k - 1, c);
    }
    SlotStep(After(run, k - 1), run[k - 1], c);
  }

  lemma SlotStep(t: State, e: Event, c: Client)
    requires Enabled(t, e) && c in t.txs && e != Commit(c)
    ensures c in Step(t, e).txs && Step(t, e).txs[c].slot == t.txs[c].slot
  {
    hide ValidIdentifier, Compute, LockKey;
  }

  // An increment of an absent key, overtaken by a set of the same key: alone it would have answered 6.
  const HERE := Slot("n", 0, "h")
  const ONE_MORE := Op("k", Add(1), None, 0)
  const FIVE := Row("k", Item("5", None))
  const RACE: Run := [Lock(0, HERE, ONE_MORE), Purge(0), Select(0), Put(HERE, FIVE), Commit(0)]

  lemma RaceStates()
    ensures After(RACE, 0) == State(map[], map[])
    ensures After(RACE, 1) == State(map[], map[0 := Tx(HERE, ONE_MORE, Holding)])
    ensures After(RACE, 2) == State(map[], map[0 := Tx(HERE, ONE_MORE, Purged(false))])
    ensures After(RACE, 3) == State(map[], map[0 := Tx(HERE, ONE_MORE, Selected(None, false))])
    ensures After(RACE, 4) == State(map[HERE := FIVE], map[0 := Tx(HERE, ONE_MORE, Selected(None, false))])
  {
    hide LockKey;
  }

  lemma SixAlone()
    ensures Apply(Some(FIVE), ONE_MORE).reply == Some(Number(6))
  {
    assert Decimal.Print(5) == "5";
    hide Decimal.Print, Decimal.ParseI64;
    Decimal.ParsePrint(5);
  }

  lemma OvertakenRun()
    ensures Legal(RACE) && ReplyOf(After(RACE, 4), 0) == None
    ensures Apply(Cell(After(RACE, 4), HERE), ONE_MORE).reply == Some(Number(6))
    ensures 0 in After(RACE, 4).txs && After(RACE, 4).txs[0].phase.Selected? && Overtaken(After(RACE, 4), 0)
  {
    hide After, LockKey, Apply, Overtaken, Compute;
    RaceStates();
    SixAlone();
    assert HERE.ns[1..] == "";
    forall k: nat | k < |RACE|
      ensures Enabled(After(RACE, k), RACE[k])
    {
    }
    InvHolds(RACE, 4);
    RepliesAsAloneIff(After(RACE, 4), 0);
  }

  // ----- Every change of a slot, replayed -----

  /** Event `e` ends a transaction on slot `s`. */
  predicate Ends(t: State, e: Event, s: Slot) {
    e.Commit? && e.client in t.txs && t.txs[e.client].phase.Selected? && t.txs[e.client].slot == s
  }

  datatype Change = Done(op: Op, reply: Reply) | Replaced(row: Row) | Removed

  /** What event `e` does to slot `s`: nothing, too, if a transaction fails. */
  function ChangeOf(t: State, e: Event, s: Slot): Option<Change> {
    if Ends(t, e, s) && ReplyOf(t, e.client).Some? then Some(Done(t.txs[e.client].op, ReplyOf(t, e.client).value))
    else if e.Put? && e.slot == s then Some(Replaced(e.row))
    else if e.Remove? && e.slot == s then Some(Removed)
    else None
  }

  function Log(run: Run, k: nat, s: Slot): seq<Change>
    requires k <= |run|
  {
    if k == 0 then []
    else
      var change := ChangeOf(After(run, k - 1), run[k - 1], s);
      Log(run, k - 1, s) + if change.Some? then [change.value] else []
  }

  function Redo(cell: Option<Row>, change: Change): Option<Row> {
    match change
    case Done(op, reply) => Apply(cell, op).cell
    case Replaced(row) => Some(row)
    case Removed => None
  }

  /** The changes made one after the other. */
  function Replay(log: seq<Change>): Option<Row> {
    if log == [] then None else Redo(Replay(log[..|log| - 1]), log[|log| - 1])
  }

  /** Every transaction got the answer it would have got at its place in the log. */
  ghost predicate AnsweredInTurn(log: seq<Change>) {
    forall i | 0 <= i < |log| && log[i].Done? :: Apply(Replay(log[..i]), log[i].op).reply == Some(log[i].reply)
  }

  lemma ChangeStep(t: State, e: Event, s: Slot)
    requires Inv(t) && Enabled(t, e)
    ensures var change := ChangeOf(t, e, s);
            && Cell(Step(t, e), s) == (if change.None? then Cell(t, s) else Redo(Cell(t, s), change.value))
            && (change.Some? && change.value.Done? ==>
                  Apply(Cell(t, s), change.value.op).reply == Some(change.value.reply))
  {
    hide ValidIdentifier, Compute, Apply, Inv, ReplyOf;
    if e.Commit? {
      CommitIsAtomic(t, e.client);
    }
  }

  lemma ReplayAppend(log: seq<Change>, change: Change)
    requires AnsweredInTurn(log)
    requires change.Done? ==> Apply(Replay(log), change.op).reply == Some(change.reply)
    ensures AnsweredInTurn(log + [change])
    ensures Replay(log + [change]) == Redo(Replay(log), change)
  {
    hide Apply, Redo;
    var longer := log + [change];
    assert longer[..|log|] == log;
    assert forall i | 0 <= i < |log| :: longer[..i] == log[..i];
  }

  /**
   In every legal run, whatever writes the slot: its content is the replay, in event order, of
   the transactions that replied and of all other writes and removals, and each of those
   transactions replied what it would have replied running alone at that point.
   */
  lemma {:induction false} CellIsReplay(run: Run, k: nat, s: Slot)
    requires Legal(run) && k <= |run|
    ensures Cell(After(run, k), s) == Replay(Log(run, k, s)) && AnsweredInTurn(Log(run, k, s))
  {
    hide Step, Enabled, Inv, Apply, ChangeOf, AnsweredInTurn, Replay, Redo;
    if k == 0 {
      ReplayNothing();
    } else {
      CellIsReplay(run, k - 1, s);
      InvHolds(run, k - 1);
      var t, e := After(run, k - 1), run[k - 1];
      ChangeStep(t, e, s);
      var change := ChangeOf(t, e, s);
      if change.Some? {
        ReplayAppend(Log(run, k - 1, s), change.value);
      } else {
        assert Log(run, k, s) == Log(run, k - 1, s);
      }
    }
  }

  lemma ReplayNothing()
    ensures Replay([]) == None && AnsweredInTurn([])
  {
  }

  // ----- Lock order -----

  /** The requests on slot `s` that got the lock in events i, ..., k - 1, in that order. */
  function LockOrder(run: Run, i: nat, k: nat, s: Slot): seq<Op>
    requires i <= k <= |run|
    decreases k
  {
    if k == i then []
    else
      var before := LockOrder(run, i, k - 1, s);
      if run[k - 1].Lock? && run[k - 1].slot == s then before + [run[k - 1].op] else before
  }

  /** The requests on slot `s` that ended in events i, ..., k - 1, in that order. */
  function Ended(run: Run, i: nat, k: nat, s: Slot): seq<Op>
    requires i <= k <= |run|
    decreases k
  {
    if k == i then []
    else
      var t, e := After(run, k - 1), run[k - 1];
      if Ends(t, e, s) then Ended(run, i, k - 1, s) + [t.txs[e.client].op] else Ended(run, i, k - 1, s)
  }

  function Replies(run: Run, i: nat, k: nat, s: Slot): seq<Option<Reply>>
    requires i <= k <= |run|
    decreases k
  {
    if k == i then []
    else
      var t, e := After(run, k - 1), run[k - 1];
      if Ends(t, e, s) then Replies(run, i, k - 1, s) + [ReplyOf(t, e.client)] else Replies(run, i, k - 1, s)
  }

  ghost function Pending(t: State, s: Slot): seq<Op> {
    if c :| c in t.txs && t.txs[c].slot == s then [t.txs[c].op] else []
  }

  lemma PendingStep(t: State, e: Event, s: Slot)
    requires Inv(t) && Enabled(t, e)
    ensures var t' := Step(t, e);
            if e.Lock? && e.slot == s then Pending(t, s) == [] && Pending(t', s) == [e.op]
            else if Ends(t, e, s) then Pending(t, s) == [t.txs[e.client].op] && Pending(t', s) == []
            else Pending(t', s) == Pending(t, s)
  {
    hide ValidIdentifier, LockKey, SeenStillThere;
    StepKeeps(t, e);
    var t' := Step(t, e);
    if e.Lock? && e.slot == s {
      assert e.client in t'.txs && t'.txs[e.client].slot == s;
    } else if Ends(t, e, s) {
    } else if c :| c in t.txs && t.txs[c].slot == s {
      assert c in t'.txs && t'.txs[c].slot == s && t'.txs[c].op == t.txs[c].op;
    }
  }

  /** Transactions on a slot end in the order in which they got its lock, in every stretch of every run. */
  lemma {:induction false} EndInLockOrder(run: Run, i: nat, k: nat, s: Slot)
    requires Legal(run) && i <= k <= |run|
    ensures Pending(After(run, i), s) + LockOrder(run, i, k, s) == Ended(run, i, k, s) + Pending(After(run, k), s)
    decreases k
  {
    hide Step, Enabled, Pending, Inv, After;
    if i < k {
      EndInLockOrder(run, i, k - 1, s);
      InvHolds(run, k - 1);
      AfterNext(run, k - 1);
      var t, e := After(run, k - 1), run[k - 1];
      PendingStep(t, e, s);
      var p, locked, ended := Pending(After(run, i), s), LockOrder(run, i, k - 1, s), Ended(run, i, k - 1, s);
      if e.Lock? && e.slot == s {
        assert p + (locked + [e.op]) == (p + locked) + [e.op] == ended + [e.op];
      } else if Ends(t, e, s) {
        assert p + locked == ended + [t.txs[e.client].op] + [];
      }
    }
  }

  lemma AfterNext(run: Run, k: nat)
    requires k < |run|
    ensures After(run, k + 1) == Step(After(run, k), run[k])
  {
    hide Step;
  }

  // ----- Without other writers -----

  datatype Outcome = Outcome(cell: Option<Row>, replies: seq<Option<Reply>>)

  /** The requests run one after the other, starting from what the slot holds. */
  function Serial(start: Option<Row>, ops: seq<Op>): (r: Outcome)
    ensures |r.replies| == |ops|
    decreases |ops|
  {
    if ops == [] then Outcome(start, [])
    else
      var n := |ops| - 1;
      var before := Serial(start, ops[..n]);
      var effect := Apply(before.cell, ops[n]);
      Outcome(effect.cell, before.replies + [effect.reply])
  }

  predicate Touches(e: Event, s: Slot) {
    (e.Put? || e.Remove?) && e.slot == s
  }

  /** No transaction on `s` is under way. */
  ghost predicate Idle(t: State, s: Slot) {
    forall c | c in t.txs :: t.txs[c].slot != s
  }

  /** Events i, ..., k - 1 hold no write to `s` but those of transactions, all of which begin there. */
  ghost predicate OnlyTransactions(run: Run, i: nat, k: nat, s: Slot)
    requires i <= k <= |run|
  {
    Idle(After(run, i), s) && forall j | i <= j < k :: !Touches(run[j], s)
  }

  /** What the transaction on `s` has seen is exactly what is there. */
  ghost predicate Exact(t: State, s: Slot) {
    forall c | c in t.txs && t.txs[c].slot == s ::
      var cell, tx := Cell(t, s), t.txs[c];
      match tx.phase
      case Holding => true
      case Purged(deleted) => deleted == Stale(cell, tx.op)
      case Selected(row, deleted) => deleted == Stale(cell, tx.op) && row == Find(cell, tx.op)
  }

  lemma ExactStep(t: State, e: Event, s: Slot)
    requires Inv(t) && Enabled(t, e) && Exact(t, s) && !Touches(e, s)
    ensures Exact(Step(t, e), s)
    ensures if Ends(t, e, s)
            then Apply(Cell(t, s), t.txs[e.client].op) == Effect(Cell(Step(t, e), s), ReplyOf(t, e.client))
            else Cell(Step(t, e), s) == Cell(t, s)
  {
    hide ValidIdentifier, Compute;
  }

  lemma IdleIsExact(t: State, s: Slot)
    requires Idle(t, s)
    ensures Exact(t, s) && Pending(t, s) == []
  {
  }

  /**
   In every stretch of a run in which only transactions write the slot, every interleaving
   leaves the value and gives the replies of running them one by one in lock order, from
   what the slot held before.
   */
  lemma {:induction false} NoLostUpdates(run: Run, i: nat, k: nat, s: Slot)
    requires Legal(run) && i <= k <= |run|
    ensures OnlyTransactions(run, i, k, s) ==>
              && LockOrder(run, i, k, s) == Ended(run, i, k, s) + Pending(After(run, k), s)
              && Serial(Cell(After(run, i), s), Ended(run, i, k, s))
                 == Outcome(Cell(After(run, k), s), Replies(run, i, k, s))
              && Exact(After(run, k), s)
    decreases k
  {
    hide Step, Enabled, Pending, Inv, Exact, Apply, After;
    EndInLockOrder(run, i, k, s);
    if OnlyTransactions(run, i, k, s) {
      IdleIsExact(After(run, i), s);
    }
    if i < k && OnlyTransactions(run, i, k, s) {
      NoLostUpdates(run, i, k - 1, s);
      InvHolds(run, k - 1);
      AfterNext(run, k - 1);
      var t, e := After(run, k - 1), run[k - 1];
      ExactStep(t, e, s);
      if Ends(t, e, s) {
        var ended := Ended(run, i, k - 1, s);
        assert Ended(run, i, k, s)[..|ended|] == ended;
      }
    }
  }

  // ----- Counters -----

  /** A counter over unbounded integers, with the same expiry rule. */
  datatype Count = Absent | Count(n: int, expiresAt: Option<int>)

  predicate Alive(c: Count, now: int) {
    c.Count? && (c.expiresAt.None? || now < c.expiresAt.value)
  }

  /** The new count, or nothing if the exact sum is not an i64. */
  function CountUp(c: Count, op: Op): Option<Count>
    requires op.kind.Add?
  {
    if !Alive(c, op.now) then Some(Count(op.kind.delta, Expiry(op.ttl, op.now)))
    else if !Decimal.IsI64(c.n + op.kind.delta) then None
    else Some(Count(c.n + op.kind.delta, if op.ttl.None? then c.expiresAt else Expiry(op.ttl, op.now)))
  }

  function CountReply(c: Count, op: Op): Option<Reply>
    requires op.kind.Add?
  {
    var up := CountUp(c, op);
    if up.Some? then Some(Number(up.value.n)) else None
  }

  function Stored(c: Count, key: string): Option<Row> {
    if c.Absent? then None else Some(Row(key, Item(Decimal.Print(c.n), c.expiresAt)))
  }

  /** The slot holds, in whatever decimal text, the count `c` of `key`. */
  ghost predicate Means(cell: Option<Row>, key: string, c: Count) {
    if c.Absent? then cell.None?
    else
      && cell.Some? && cell.value.key == key && Decimal.ParseI64(cell.value.item.value) == Some(c.n)
      && cell.value.item.expiresAt == c.expiresAt
  }

  /** Counting through decimal text is counting, for every i64. */
  lemma CountsExactly(cell: Option<Row>, c: Count, op: Op)
    requires op.kind.Add? && Decimal.IsI64(op.kind.delta) && Means(cell, op.key, c)
    ensures var up, effect := CountUp(c, op), Apply(cell, op);
            && effect.reply == CountReply(c, op)
            && effect.cell == (if up.Some? then Stored(up.value, op.key) else cell)
            && Means(effect.cell, op.key, if up.Some? then up.value else c)
  {
    hide Decimal.Print, Decimal.ParseI64;
    var up := CountUp(c, op);
    if up.Some? {
      Decimal.ParsePrint(up.value.n);
    }
  }

  ghost predicate Increments(ops: seq<Op>, key: string) {
    forall i | 0 <= i < |ops| :: ops[i].key == key && ops[i].kind.Add? && Decimal.IsI64(ops[i].kind.delta)
  }

  ghost function CountAll(start: Count, ops: seq<Op>, key: string): Count
    requires Increments(ops, key)
    decreases |ops|
  {
    if ops == [] then start
    else
      var n := |ops| - 1;
      var before := CountAll(start, ops[..n], key);
      var up := CountUp(before, ops[n]);
      if up.Some? then up.value else before
  }

  /** A reply depends on the requests before it only through the cell they leave. */
  lemma {:induction false} ReplyAt(start: Option<Row>, ops: seq<Op>, i: nat)
    requires i < |ops|
    ensures Serial(start, ops).replies[i] == Apply(Serial(start, ops[..i]).cell, ops[i]).reply
    decreases |ops|
  {
    hide Apply;
    var n := |ops| - 1;
    if i < n {
      ReplyAt(start, ops[..n], i);
      assert ops[..n][..i] == ops[..i];
    }
  }

  /** The slot holds the canonical text of the count, unless every increment failed. */
  ghost predicate KeptOrPrinted(start: Option<Row>, c: Count, ops: seq<Op>, key: string)
    requires Increments(ops, key)
  {
    || Serial(start, ops).cell == Stored(CountAll(c, ops, key), key)
    || (Serial(start, ops).cell == start && CountAll(c, ops, key) == c)
  }

  lemma {:induction false} CellIsCount(start: Option<Row>, c: Count, ops: seq<Op>, key: string)
    requires Increments(ops, key) && Means(start, key, c)
    ensures Means(Serial(start, ops).cell, key, CountAll(c, ops, key))
    ensures KeptOrPrinted(start, c, ops, key)
    decreases |ops|
  {
    hide Apply, CountUp, CountReply, Means, Stored;
    if ops != [] {
      var n := |ops| - 1;
      CellIsCount(start, c, ops[..n], key);
      CountsExactly(Serial(start, ops[..n]).cell, CountAll(c, ops[..n], key), ops[n]);
    }
  }

  /** Any sequence of increments fails exactly where the exact sum does not fit, and then changes nothing. */
  lemma {:induction false} CounterIsExact(start: Option<Row>, c: Count, ops: seq<Op>, key: string)
    requires Increments(ops, key) && Means(start, key, c)
    ensures Means(Serial(start, ops).cell, key, CountAll(c, ops, key)) && KeptOrPrinted(start, c, ops, key)
    ensures forall i | 0 <= i < |ops| ::
              Serial(start, ops).replies[i] == CountReply(CountAll(c, ops[..i], key), ops[i])
  {
    hide Apply, Serial, CountAll, CountUp, CountReply, Means, KeptOrPrinted;
    CellIsCount(start, c, ops, key);
    forall i | 0 <= i < |ops|
      ensures Serial(start, ops).replies[i] == CountReply(CountAll(c, ops[..i], key), ops[i])
    {
      ReplyAt(start, ops, i);
      CellIsCount(start, c, ops[..i], key);
      CountsExactly(Serial(start, ops[..i]).cell, CountAll(c, ops[..i], key), ops[i]);
    }
  }

  function SumOf(ops: seq<Op>): int
    requires forall i | 0 <= i < |ops| :: ops[i].kind.Add?
  {
    if ops == [] then 0 else SumOf(ops[..|ops| - 1]) + ops[|ops| - 1].kind.delta
  }

  /** What a counter without expiry starts from. */
  function Base(c: Count): int {
    if c.Absent? then 0 else c.n
  }

  ghost predicate Everlasting(c: Count) {
    c.Count? ==> c.expiresAt.None?
  }

  /** Increments without expiry of a counter without expiry, with all sums in range. */
  ghost predicate PlainSums(c: Count, ops: seq<Op>, key: string) {
    && Increments(ops, key) && Everlasting(c)
    && (forall i | 0 <= i < |ops| :: ops[i].ttl.None?)
    && (forall i | 0 <= i <= |ops| :: Decimal.IsI64(Base(c) + SumOf(ops[..i])))
  }

  lemma NextSum(c: Count, op: Op)
    requires op.kind.Add? && op.ttl.None? && Everlasting(c) && Decimal.IsI64(Base(c) + op.kind.delta)
    ensures CountUp(c, op) == Some(Count(Base(c) + op.kind.delta, None))
    ensures CountReply(c, op) == Some(Number(Base(c) + op.kind.delta))
  {
  }

  /** After the first `k` increments the counter holds what it started from and their sum. */
  lemma {:induction false} CountIsSum(c: Count, ops: seq<Op>, key: string, k: nat)
    requires PlainSums(c, ops, key) && k <= |ops|
    ensures CountAll(c, ops[..k], key) == if k == 0 then c else Count(Base(c) + SumOf(ops[..k]), None)
  {
    hide CountUp;
    if k > 0 {
      CountIsSum(c, ops, key, k - 1);
      assert ops[..k][..k - 1] == ops[..k - 1];
      NextSum(CountAll(c, ops[..k - 1], key), ops[k - 1]);
    }
  }

  lemma PrefixSum(start: Option<Row>, c: Count, ops: seq<Op>, key: string, i: nat)
    requires PlainSums(c, ops, key) && Means(start, key, c) && i < |ops|
    ensures Serial(start, ops).replies[i] == Some(Number(Base(c) + SumOf(ops[..i + 1])))
  {
    hide CountUp, CountReply, CountAll, Serial, Means, KeptOrPrinted;
    CounterIsExact(start, c, ops, key);
    assert ops[..i + 1][..i] == ops[..i];
    CountIsSum(c, ops, key, i);
    NextSum(CountAll(c, ops[..i], key), ops[i]);
  }

  lemma SerialLast(start: Option<Row>, ops: seq<Op>)
    ensures Serial(start, ops).cell
            == if ops == [] then start else Apply(Serial(start, ops[..|ops| - 1]).cell, ops[|ops| - 1]).cell
  {
    hide Apply;
  }

  /** The last increment leaves the sum in its canonical text. */
  lemma SumStored(start: Option<Row>, c: Count, ops: seq<Op>, key: string)
    requires PlainSums(c, ops, key) && Means(start, key, c)
    ensures Serial(start, ops).cell == if ops == [] then start else Stored(Count(Base(c) + SumOf(ops), None), key)
  {
    hide Apply, CountUp, CountReply, CountAll, Means, Stored, KeptOrPrinted, Serial;
    SerialLast(start, ops);
    if ops != [] {
      var n := |ops| - 1;
      assert ops[..n + 1] == ops;
      CellIsCount(start, c, ops[..n], key);
      CountIsSum(c, ops, key, n);
      CountsExactly(Serial(start, ops[..n]).cell, CountAll(c, ops[..n], key), ops[n]);
      NextSum(CountAll(c, ops[..n], key), ops[n]);
    }
  }

  /** Increments without expiry return the prefix sums as long as these fit. */
  lemma {:induction false} PrefixSums(start: Option<Row>, c: Count, ops: seq<Op>, key: string)
    requires PlainSums(c, ops, key) && Means(start, key, c)
    ensures forall i | 0 <= i < |ops| ::
              Serial(start, ops).replies[i] == Some(Number(Base(c) + SumOf(ops[..i + 1])))
    ensures Serial(start, ops).cell == if ops == [] then start else Stored(Count(Base(c) + SumOf(ops), None), key)
  {
    hide Serial, Means, SumOf, Stored;
    SumStored(start, c, ops, key);
    forall i | 0 <= i < |ops|
      ensures Serial(start, ops).replies[i] == Some(Number(Base(c) + SumOf(ops[..i + 1])))
    {
      PrefixSum(start, c, ops, key, i);
    }
  }

  /**
   In every stretch of a run in which only increments of one key write its slot, however they
   interleave, they return the prefix sums in lock order, and the last sum stays.
   */
  lemma InterleavedIncrements(run: Run, i: nat, k: nat, s: Slot, key: string, c: Count)
    requires Legal(run) && i <= k <= |run|
    ensures var ops := Ended(run, i, k, s);
            OnlyTransactions(run, i, k, s) && PlainSums(c, ops, key) && Means(Cell(After(run, i), s), key, c) ==>
              && LockOrder(run, i, k, s) == ops + Pending(After(run, k), s)
              && |Replies(run, i, k, s)| == |ops|
              && (forall n | 0 <= n < |ops| ::
                    Replies(run, i, k, s)[n] == Some(Number(Base(c) + SumOf(ops[..n + 1]))))
              && (ops != [] ==> Cell(After(run, k), s) == Stored(Count(Base(c) + SumOf(ops), None), key))
  {
    hide Serial, After, Ended, Replies, Legal, Exact, Means, Pending, Cell, OnlyTransactions, Stored;
    NoLostUpdates(run, i, k, s);
    var ops := Ended(run, i, k, s);
    if OnlyTransactions(run, i, k, s) && PlainSums(c, ops, key) && Means(Cell(After(run, i), s), key, c) {
      PrefixSums(Cell(After(run, i), s), c, ops, key);
    }
  }

  // ----- Appends, prepends and exchanges -----

  /** The value of a row of `key` that never expires, or that there is none. */
  ghost predicate Plain(cell: Option<Row>, key: string) {
    cell.Some? ==> cell.value.key == key && cell.value.item.expiresAt.None?
  }

  function Text(cell: Option<Row>): Bytes {
    if cell.Some? then cell.value.item.value else ""
  }

  ghost predicate Joins(ops: seq<Op>, key: string, position: Position) {
    forall i | 0 <= i < |ops| ::
      ops[i].key == key && ops[i].ttl.None? && ops[i].kind.Join? && ops[i].kind.position == position
  }

  /** The appended values one after the other, or the prepended ones, last first. */
  function AllJoined(ops: seq<Op>): Bytes
    requires forall i | 0 <= i < |ops| :: ops[i].kind.Join?
  {
    if ops == [] then ""
    else
      var n := |ops| - 1;
      if ops[n].kind.position == Append then AllJoined(ops[..n]) + ops[n].kind.value
      else ops[n].kind.value + AllJoined(ops[..n])
  }

  lemma {:induction false} SerialJoins(start: Option<Row>, ops: seq<Op>, key: string, position: Position)
    requires Plain(start, key) && Joins(ops, key, position)
    ensures var joined := if position == Append then Text(start) + AllJoined(ops) else AllJoined(ops) + Text(start);
            Serial(start, ops).cell == if ops == [] then start else Some(Row(key, Item(joined, None)))
    decreases |ops|
  {
    SerialLast(start, ops);
    hide Apply, Serial, AllJoined;
    if ops != [] {
      var n := |ops| - 1;
      var front := ops[..n];
      SerialJoins(start, front, key, position);
      ApplySpelledOut(Serial(start, front).cell, ops[n]);
      JoinOneMore(Text(start), ops, position);
      NothingJoined();
    }
  }

  lemma NothingJoined()
    ensures AllJoined([]) == ""
  {
  }

  lemma Assoc(a: Bytes, b: Bytes, c: Bytes)
    ensures (a + b) + c == a + (b + c) && "" + c == c && c + "" == c
  {
  }

  lemma {:induction false} JoinOneMore(x: Bytes, ops: seq<Op>, position: Position)
    requires ops != [] && forall i | 0 <= i < |ops| :: ops[i].kind.Join? && ops[i].kind.position == position
    ensures var n := |ops| - 1;
            var front, value := AllJoined(ops[..n]), ops[n].kind.value;
            && (position == Append ==> x + AllJoined(ops) == (x + front) + value)
            && (position == Prepend ==> AllJoined(ops) + x == value + (front + x))
            && (front == "" ==> AllJoined(ops) == value) && "" + value == value && value + "" == value
  {
    var n := |ops| - 1;
    var front, value := AllJoined(ops[..n]), ops[n].kind.value;
    Assoc(x, front, value);
    Assoc(value, front, x);
  }

  /**
   In every stretch of a run in which only appends without expiry of one key write its slot, the
   value is the old one followed by the appended values in lock order; mirrored for prepends.
   */
  lemma InterleavedJoins(run: Run, i: nat, k: nat, s: Slot, key: string, position: Position)
    requires Legal(run) && i <= k <= |run|
    ensures var ops, start := Ended(run, i, k, s), Cell(After(run, i), s);
            OnlyTransactions(run, i, k, s) && Joins(ops, key, position) && Plain(start, key) && ops != [] ==>
              && LockOrder(run, i, k, s) == ops + Pending(After(run, k), s)
              && Cell(After(run, k), s)
                 == Some(Row(key, Item(if position == Append then Text(start) + AllJoined(ops)
                                       else AllJoined(ops) + Text(start), None)))
  {
    hide Serial, After, Ended, Replies, Legal, Exact, Pending, Cell, OnlyTransactions, AllJoined;
    NoLostUpdates(run, i, k, s);
    var ops, start := Ended(run, i, k, s), Cell(After(run, i), s);
    if OnlyTransactions(run, i, k, s) && Joins(ops, key, position) && Plain(start, key) {
      SerialJoins(start, ops, key, position);
    }
  }

  ghost predicate Exchanges(ops: seq<Op>, key: string) {
    forall i | 0 <= i < |ops| :: ops[i].key == key && ops[i].ttl.None? && ops[i].kind.Exchange?
  }

  /** What exchange `i` must answer: the value of the one before it, or what was there at the start. */
  function Previous(start: Option<Row>, ops: seq<Op>, i: nat): Option<Bytes>
    requires i <= |ops| && forall j | 0 <= j < |ops| :: ops[j].kind.Exchange?
  {
    if i > 0 then Some(ops[i - 1].kind.value)
    else if start.Some? then Some(start.value.item.value) else None
  }

  lemma {:induction false} SerialExchanges(start: Option<Row>, ops: seq<Op>, key: string)
    requires Plain(start, key) && Exchanges(ops, key)
    ensures Serial(start, ops).cell
            == if ops == [] then start else Some(Row(key, Item(ops[|ops| - 1].kind.value, None)))
    decreases |ops|
  {
    SerialLast(start, ops);
    hide Apply, Serial;
    if ops != [] {
      SerialExchanges(start, ops[..|ops| - 1], key);
      ApplySpelledOut(Serial(start, ops[..|ops| - 1]).cell, ops[|ops| - 1]);
    }
  }

  lemma ExchangeReply(start: Option<Row>, ops: seq<Op>, key: string, i: nat)
    requires Plain(start, key) && Exchanges(ops, key) && i < |ops|
    ensures Serial(start, ops).replies[i] == Some(Old(Previous(start, ops, i)))
  {
    hide Apply, Serial;
    ReplyAt(start, ops, i);
    SerialExchanges(start, ops[..i], key);
    ApplySpelledOut(Serial(start, ops[..i]).cell, ops[i]);
  }

  /** Interleaved exchanges hand each value on exactly once, in lock order, and the last one stays. */
  lemma InterleavedExchanges(run: Run, i: nat, k: nat, s: Slot, key: string)
    requires Legal(run) && i <= k <= |run|
    ensures var ops, start := Ended(run, i, k, s), Cell(After(run, i), s);
            OnlyTransactions(run, i, k, s) && Exchanges(ops, key) && Plain(start, key) && ops != [] ==>
              && LockOrder(run, i, k, s) == ops + Pending(After(run, k), s)
              && |Replies(run, i, k, s)| == |ops|
              && (forall n | 0 <= n < |ops| :: Replies(run, i, k, s)[n] == Some(Old(Previous(start, ops, n))))
              && Cell(After(run, k), s) == Some(Row(key, Item(Previous(start, ops, |ops|).value, None)))
  {
    hide Serial, After, Ended, Replies, Legal, Exact, Pending, Cell, OnlyTransactions;
    NoLostUpdates(run, i, k, s);
    var ops, start := Ended(run, i, k, s), Cell(After(run, i), s);
    if OnlyTransactions(run, i, k, s) && Exchanges(ops, key) && Plain(start, key) {
      SerialExchanges(start, ops, key);
      forall n | 0 <= n < |ops|
        ensures Serial(start, ops).replies[n] == Some(Old(Previous(start, ops, n)))
      {
        ExchangeReply(start, ops, key, n);
      }
    }
  }
}
