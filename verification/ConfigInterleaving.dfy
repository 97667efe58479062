/**
 The write transactions of the Config Center statement by statement, interleaved between
 clients. `ensure_scope` updates the scope row, so each transaction holds that row from its
 first statement to its commit. Every interleaving has the effect of running the committed
 transactions one at a time, in commit order.
 */
module ConfigInterleaving {
  import opened Wrappers
  import opened ConfigTables
  import opened ConfigHistory

  type Client = nat

  /** What a transaction has read so far. */
  datatype Progress =
    | Locked
    | SchemaRead(schema: Option<string>)                                        // upsert_item
    | RevisionRead(revision: nat)                                               // publish
    | RowsRead(revision: nat, rows: Snapshot)
    | ReadyToPublish(revision: nat, rows: Snapshot, schema: Option<string>)

  datatype Tx = Tx(command: Command, progress: Progress)

  datatype State = State(db: Db, txs: map<Client, Tx>)

  datatype Event =
    | Begin(client: Client, command: Command)  // BEGIN and ensure_scope
    | Read(client: Client)                     // the next SELECT
    | Finish(client: Client)                   // validate, write and commit, or roll back

  /** Another transaction on the same scope makes ensure_scope wait. */
  ghost predicate ScopeFree(t: State, scope: Scope) {
    forall c | c in t.txs :: t.txs[c].command.scope != scope
  }

  predicate HasRead(tx: Tx) {
    match tx.command
    case Upsert(_, _, _) => tx.progress.SchemaRead?
    case Publish(_, _, _) => tx.progress.ReadyToPublish?
    case _ => tx.progress.Locked?
  }

  ghost predicate Enabled(t: State, e: Event) {
    match e
    case Begin(c, command) => c !in t.txs && ScopeFree(t, command.scope)
    case Read(c) => c in t.txs && !HasRead(t.txs[c])
    case Finish(c) => c in t.txs && HasRead(t.txs[c])
  }

  function NextRead(db: Db, tx: Tx): Progress {
    var scope := tx.command.scope;
    if tx.command.Upsert? then SchemaRead(RowOf(db, scope).schema)
    else match tx.progress
      case Locked => RevisionRead(RowOf(db, scope).revision)
      case RevisionRead(revision) => RowsRead(revision, LiveDrafts(db, scope))
      case RowsRead(revision, rows) => ReadyToPublish(revision, rows, RowOf(db, scope).schema)
      case _ => tx.progress
  }

  /** Validation, against what the transaction has read. */
  predicate Accepted(db: Db, tx: Tx, valid: Validator)
    requires HasRead(tx)
  {
    match tx.command
    case Upsert(scope, key, value) => Satisfies(valid, tx.progress.schema, value)
    case Publish(scope, message, author) =>
      && AllSatisfy(valid, tx.progress.schema, tx.progress.rows)
      && ReleaseKey(scope, tx.progress.revision + 1) !in db.releases
    case _ => true
  }

  /** The writes of a transaction; a publish takes revision and snapshot from what it has read. */
  function Written(db: Db, tx: Tx): Db
    requires HasRead(tx)
  {
    match tx.command
    case Publish(scope, message, author) =>
      var row, revision := RowOf(db, scope), tx.progress.revision + 1;
      db.(scopes := db.scopes[scope := row.(revision := revision)],
          releases := db.releases[ReleaseKey(scope, revision) := Release(tx.progress.rows, message, author)])
    case _ => Write(db, tx.command)
  }

  function Step(t: State, e: Event, valid: Validator): State {
    match e
    case Begin(c, command) => t.(txs := t.txs[c := Tx(command, Locked)])
    case Read(c) =>
      if c !in t.txs then t
      else t.(txs := t.txs[c := t.txs[c].(progress := NextRead(t.db, t.txs[c]))])
    case Finish(c) =>
      if c !in t.txs || !HasRead(t.txs[c]) then t
      else State(if Accepted(t.db, t.txs[c], valid) then Written(t.db, t.txs[c]) else t.db, t.txs - {c})
  }

  // ----- Invariant: what was read is still true -----

  ghost predicate StillTrue(db: Db, tx: Tx) {
    var row, scope := RowOf(db, tx.command.scope), tx.command.scope;
    && (tx.progress.SchemaRead? ==> tx.command.Upsert? && tx.progress.schema == row.schema)
    && (tx.progress.RevisionRead? || tx.progress.RowsRead? || tx.progress.ReadyToPublish? ==>
          tx.command.Publish? && tx.progress.revision == row.revision)
    && (tx.progress.RowsRead? || tx.progress.ReadyToPublish? ==> tx.progress.rows == LiveDrafts(db, scope))
    && (tx.progress.ReadyToPublish? ==> tx.progress.schema == row.schema)
  }

  ghost predicate Inv(t: State) {
    && (forall c, d | c in t.txs && d in t.txs && c != d :: t.txs[c].command.scope != t.txs[d].command.scope)
    && (forall c | c in t.txs :: StillTrue(t.db, t.txs[c]))
  }

  /** A transaction changes nothing that transactions on other scopes read. */
  lemma WritesStayInScope(db: Db, tx: Tx, other: Scope)
    requires HasRead(tx) && tx.command.scope != other
    ensures RowOf(Written(db, tx), other) == RowOf(db, other)
    ensures LiveDrafts(Written(db, tx), other) == LiveDrafts(db, other)
  {
    var db' := Written(db, tx);
    assert forall k: ItemKey | k.scope == other ::
        (k in db'.items <==> k in db.items) && (k in db.items ==> db'.items[k] == db.items[k]);
  }

  lemma ReadKeeps(t: State, e: Event, valid: Validator)
    requires Inv(t) && Enabled(t, e) && e.Read?
    ensures Inv(Step(t, e, valid))
  {
  }

  lemma FinishKeeps(t: State, e: Event, valid: Validator)
    requires Inv(t) && Enabled(t, e) && e.Finish?
    ensures Inv(Step(t, e, valid))
  {
    hide LiveDrafts, Accepted, Written, RowOf;
    var t', tx := Step(t, e, valid), t.txs[e.client];
    forall c | c in t'.txs
      ensures StillTrue(t'.db, t'.txs[c])
    {
      assert StillTrue(t.db, t.txs[c]);
      WritesStayInScope(t.db, tx, t.txs[c].command.scope);
    }
  }

  lemma BeginKeeps(t: State, e: Event, valid: Validator)
    requires Inv(t) && Enabled(t, e) && e.Begin?
    ensures Inv(Step(t, e, valid))
  {
  }

  /** Finishing a transaction is running its command in one step. */
  lemma FinishIsAtomic(t: State, c: Client, valid: Validator)
    requires Inv(t) && Enabled(t, Finish(c))
    ensures Step(t, Finish(c), valid).db == ConfigTables.Step(t.db, t.txs[c].command, valid)
  {
    hide LiveDrafts, AllSatisfy;
    assert StillTrue(t.db, t.txs[c]);
  }

  // ----- Runs -----

  type Schedule = seq<Event>

  function After(sched: Schedule, k: nat, valid: Validator): State
    requires k <= |sched|
  {
    if k == 0 then State(EMPTY, map[]) else Step(After(sched, k - 1, valid), sched[k - 1], valid)
  }

  ghost predicate Legal(sched: Schedule, valid: Validator) {
    forall k: nat | k < |sched| :: Enabled(After(sched, k, valid), sched[k])
  }

  /** The commands that have finished, in the order in which they did. */
  function Finished(sched: Schedule, k: nat, valid: Validator): ConfigTables.Run
    requires k <= |sched|
  {
    if k == 0 then []
    else
      var t, e := After(sched, k - 1, valid), sched[k - 1];
      var before := Finished(sched, k - 1, valid);
      if e.Finish? && e.client in t.txs && HasRead(t.txs[e.client]) then before + [t.txs[e.client].command] else before
  }

  lemma {:induction false} InvHolds(sched: Schedule, k: nat, valid: Validator)
    requires Legal(sched, valid) && k <= |sched|
    ensures Inv(After(sched, k, valid))
  {
    hide Step, Enabled;
    if k > 0 {
      InvHolds(sched, k - 1, valid);
      var t, e := After(sched, k - 1, valid), sched[k - 1];
      if e.Begin? {
        BeginKeeps(t, e, valid);
      } else if e.Read? {
        ReadKeeps(t, e, valid);
      } else {
        FinishKeeps(t, e, valid);
      }
    }
  }

  lemma {:induction false} AfterPrefix(run: ConfigTables.Run, more: ConfigTables.Run, k: nat, valid: Validator)
    requires k <= |run|
    ensures ConfigTables.After(run + more, k, valid) == ConfigTables.After(run, k, valid)
  {
    hide ConfigTables.Step;
    if k > 0 {
      AfterPrefix(run, more, k - 1, valid);
    }
  }

  lemma OtherEvents(t: State, e: Event, valid: Validator)
    requires !e.Finish?
    ensures Step(t, e, valid).db == t.db
  {
  }

  /** Whatever the interleaving, the tables are those of running the finished commands one by one. */
  lemma {:induction false} Serializable(sched: Schedule, k: nat, valid: Validator)
    requires Legal(sched, valid) && k <= |sched|
    ensures var run := Finished(sched, k, valid);
            After(sched, k, valid).db == ConfigTables.After(run, |run|, valid)
  {
    hide Step, Enabled, Inv, ConfigTables.Step;
    if k > 0 {
      Serializable(sched, k - 1, valid);
      InvHolds(sched, k - 1, valid);
      var t, e, run := After(sched, k - 1, valid), sched[k - 1], Finished(sched, k - 1, valid);
      if e.Finish? {
        FinishEnabled(t, e);
        FinishIsAtomic(t, e.client, valid);
        AfterPrefix(run, [t.txs[e.client].command], |run|, valid);
      } else {
        OtherEvents(t, e, valid);
      }
    }
  }

  lemma FinishEnabled(t: State, e: Event)
    requires Enabled(t, e) && e.Finish?
    ensures e.client in t.txs && HasRead(t.txs[e.client])
  {
  }

  /** Under any interleaving: a published release is there for good and never changes. */
  lemma {:induction false} ImmutableUnderInterleaving(
    sched: Schedule, i: nat, j: nat, valid: Validator, key: ReleaseKey)
    requires Legal(sched, valid) && i <= j <= |sched| && key in After(sched, i, valid).db.releases
    ensures key in After(sched, j, valid).db.releases
    ensures After(sched, j, valid).db.releases[key] == After(sched, i, valid).db.releases[key]
  {
    hide Step, Enabled, Inv, ConfigTables.Step, Dense;
    if i < j {
      ImmutableUnderInterleaving(sched, i, j - 1, valid, key);
      InvHolds(sched, j - 1, valid);
      Serializable(sched, j - 1, valid);
      var t, e, run := After(sched, j - 1, valid), sched[j - 1], Finished(sched, j - 1, valid);
      RevisionsAreDense(run, |run|, valid);
      if e.Finish? {
        FinishEnabled(t, e);
        FinishIsAtomic(t, e.client, valid);
        DenseStep(t.db, t.txs[e.client].command, valid);
      } else {
        OtherEvents(t, e, valid);
      }
    }
  }

  /** Event `e` commits a publish of `scope`. */
  ghost predicate Publishes(t: State, e: Event, scope: Scope, valid: Validator) {
    && e.Finish? && e.client in t.txs && t.txs[e.client].command.Publish? && t.txs[e.client].command.scope == scope
    && Commits(t.db, t.txs[e.client].command, valid)
  }

  lemma SameRelease(db: Db, db': Db, scope: Scope, revision: int)
    requires RowOf(db', scope).revision == RowOf(db, scope).revision
    requires forall r: nat ::
               && (ReleaseKey(scope, r) in db'.releases <==> ReleaseKey(scope, r) in db.releases)
               && (ReleaseKey(scope, r) in db.releases ==>
                     db'.releases[ReleaseKey(scope, r)] == db.releases[ReleaseKey(scope, r)])
    ensures GetRelease(db', scope, revision) == GetRelease(db, scope, revision)
  {
  }

  /** Under any interleaving: no event but a committing publish of the scope alters what get_release returns. */
  lemma OnlyPublishIsVisibleInterleaved(sched: Schedule, k: nat, valid: Validator, scope: Scope, revision: int)
    requires Legal(sched, valid) && k < |sched|
    requires !Publishes(After(sched, k, valid), sched[k], scope, valid)
    ensures GetRelease(After(sched, k + 1, valid).db, scope, revision)
            == GetRelease(After(sched, k, valid).db, scope, revision)
  {
    hide Step, Enabled, Inv, ConfigTables.Step, GetRelease, Commits;
    InvHolds(sched, k, valid);
    var t, e := After(sched, k, valid), sched[k];
    if e.Finish? {
      FinishEnabled(t, e);
      FinishIsAtomic(t, e.client, valid);
      UnpublishedStep(t.db, t.txs[e.client].command, valid, scope);
      SameRelease(t.db, After(sched, k + 1, valid).db, scope, revision);
    } else {
      OtherEvents(t, e, valid);
    }
  }

  /** Under any interleaving: a scope's revisions are exactly 1, ..., current_revision. */
  lemma DenseUnderInterleaving(sched: Schedule, k: nat, valid: Validator)
    requires Legal(sched, valid) && k <= |sched|
    ensures Dense(After(sched, k, valid).db)
  {
    hide Step, Enabled, ConfigTables.Step, Dense;
    Serializable(sched, k, valid);
    RevisionsAreDense(Finished(sched, k, valid), |Finished(sched, k, valid)|, valid);
  }

  /**
   Under any interleaving: each release holds exactly what the edits that finished before its
   publish left, valid under the schema set last before it.
   */
  lemma ReleasesUnderInterleaving(sched: Schedule, k: nat, valid: Validator, key: ReleaseKey) returns (i: nat)
    requires Legal(sched, valid) && k <= |sched| && key in After(sched, k, valid).db.releases
    ensures var run := Finished(sched, k, valid);
            var release := After(sched, k, valid).db.releases[key];
            && i < |run| && run[i] == Publish(key.scope, release.message, release.publishedBy)
            && HoldsLastEdits(run, i, valid, key.scope, release.snapshot)
            && AllFit(run, i, valid, key.scope, release.snapshot)
  {
    hide Step, Enabled, ConfigTables.Step, HoldsLastEdits, AllFit;
    Serializable(sched, k, valid);
    var run := Finished(sched, k, valid);
    i := ReleaseByHistory(run, |run|, valid, key);
  }
}
