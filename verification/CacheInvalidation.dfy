/**
 Invalidation under races. Writers and readers first read the namespace's generation and
 touch rows only later, with any number of invalidations in between. A value returned to a
 reader was always written by a writer that began after every invalidation the reader
 follows, and rows left behind under an old generation can never be read again.
 */
module CacheInvalidation {
  import opened Wrappers
  import opened CacheTable

  type Client = nat

  /** A row, tagged with the event at which its writer read the generation. */
  datatype Tagged = Tagged(key: string, value: Bytes, begun: nat)

  datatype Pending =
    | Writing(ns: string, gen: nat, key: string, value: Bytes, begun: nat)
    | Reading(ns: string, gen: nat, key: string, begun: nat)

  datatype State = State(gens: Generations, rows: map<Slot, Tagged>, pending: map<Client, Pending>)

  datatype Event =
    | StartWrite(client: Client, ns: string, key: string, value: Bytes)
    | FinishWrite(client: Client)
    | StartRead(client: Client, ns: string, key: string)
    | FinishRead(client: Client)
    | Invalidate(ns: string)
    | Remove(slot: Slot)  // delete, sweep or eviction

  function Ensure(gens: Generations, ns: string): Generations {
    if ns in gens then gens else gens[ns := 0]
  }

  function Generation(t: State, ns: string): nat {
    if ns in t.gens then t.gens[ns] else 0
  }

  function Step(t: State, e: Event, index: nat, h: Hash): State {
    match e
    case StartWrite(c, ns, key, value) =>
      var gens := Ensure(t.gens, ns);
      t.(gens := gens, pending := t.pending[c := Writing(ns, gens[ns], key, value, index)])
    case FinishWrite(c) =>
      if c !in t.pending || !t.pending[c].Writing? then t
      else
        var w := t.pending[c];
        t.(rows := t.rows[Slot(w.ns, w.gen, h(w.key)) := Tagged(w.key, w.value, w.begun)],
           pending := t.pending - {c})
    case StartRead(c, ns, key) =>
      if ns !in t.gens then t.(pending := t.pending - {c})  // a miss, at once
      else t.(pending := t.pending[c := Reading(ns, t.gens[ns], key, index)])
    case FinishRead(c) => t.(pending := t.pending - {c})
    case Invalidate(ns) =>
      var gen := Ensure(t.gens, ns)[ns] + 1;
      t.(gens := t.gens[ns := gen],
         rows := map s | s in t.rows && !(s.ns == ns && s.gen < gen) :: t.rows[s])
    case Remove(s) => t.(rows := t.rows - {s})
  }

  type Run = seq<Event>

  function After(run: Run, k: nat, h: Hash): State
    requires k <= |run|
  {
    if k == 0 then State(map[], map[], map[]) else Step(After(run, k - 1, h), run[k - 1], k - 1, h)
  }

  /** The row event `k` returns to its reader, if it hits. */
  function Returned(run: Run, k: nat, h: Hash): Option<Tagged>
    requires k < |run|
  {
    var t, e := After(run, k, h), run[k];
    if !e.FinishRead? || e.client !in t.pending || !t.pending[e.client].Reading? then None
    else
      var r := t.pending[e.client];
      var s := Slot(r.ns, r.gen, h(r.key));
      if s in t.rows && t.rows[s].key == r.key then Some(t.rows[s]) else None
  }

  // ----- Generations only grow -----

  lemma GenerationStep(t: State, e: Event, index: nat, h: Hash, ns: string)
    ensures Generation(t, ns) <= Generation(Step(t, e, index, h), ns)
    ensures e == Invalidate(ns) ==> Generation(t, ns) < Generation(Step(t, e, index, h), ns)
  {
  }

  lemma {:induction false} GenerationsGrow(run: Run, i: nat, j: nat, h: Hash, ns: string)
    requires i <= j <= |run|
    ensures Generation(After(run, i, h), ns) <= Generation(After(run, j, h), ns)
    ensures i < j && run[i] == Invalidate(ns) ==> Generation(After(run, i, h), ns) < Generation(After(run, j, h), ns)
  {
    hide Step;
    if i < j {
      GenerationsGrow(run, i, j - 1, h, ns);
      GenerationStep(After(run, j - 1, h), run[j - 1], j - 1, h, ns);
    }
  }

  // ----- Where rows and pending requests come from -----

  /** Event `begun` is the write of `key` and `value`, and read generation `gen` of `ns`. */
  ghost predicate WroteUnder(run: Run, h: Hash, begun: nat, ns: string, gen: nat, key: string, value: Bytes) {
    && begun < |run| && run[begun].StartWrite?
    && run[begun].ns == ns && run[begun].key == key && run[begun].value == value
    && Generation(After(run, begun, h), ns) == gen
  }

  ghost predicate PendingSound(run: Run, h: Hash, k: nat, p: Pending) {
    && p.begun < k
    && if p.Writing? then WroteUnder(run, h, p.begun, p.ns, p.gen, p.key, p.value)
       else p.begun < |run| && run[p.begun].StartRead? && run[p.begun].ns == p.ns && run[p.begun].key == p.key
            && Generation(After(run, p.begun, h), p.ns) == p.gen
  }

  ghost predicate RowSound(run: Run, h: Hash, k: nat, s: Slot, row: Tagged) {
    row.begun < k && WroteUnder(run, h, row.begun, s.ns, s.gen, row.key, row.value)
  }

  ghost predicate Sound(run: Run, k: nat, h: Hash)
    requires k <= |run|
  {
    var t := After(run, k, h);
    && (forall s | s in t.rows :: RowSound(run, h, k, s, t.rows[s]))
    && (forall c | c in t.pending :: PendingSound(run, h, k, t.pending[c]))
  }

  /** Rows come from pending writes, and pending requests from the event that just happened. */
  lemma StepOrigins(t: State, e: Event, index: nat, h: Hash)
    ensures var t' := Step(t, e, index, h);
            && (forall s | s in t'.rows ::
                  || (s in t.rows && t'.rows[s] == t.rows[s])
                  || (e.FinishWrite? && e.client in t.pending && t.pending[e.client].Writing?
                      && var w := t.pending[e.client];
                         s.ns == w.ns && s.gen == w.gen && t'.rows[s] == Tagged(w.key, w.value, w.begun)))
            && (forall c | c in t'.pending ::
                  || (c in t.pending && t'.pending[c] == t.pending[c])
                  || (e.StartWrite? && t'.pending[c] == Writing(e.ns, Generation(t, e.ns), e.key, e.value, index))
                  || (e.StartRead? && t'.pending[c] == Reading(e.ns, Generation(t, e.ns), e.key, index)))
  {
  }

  lemma {:induction false} EverythingSound(run: Run, k: nat, h: Hash)
    requires k <= |run|
    ensures Sound(run, k, h)
  {
    hide Step;
    if k > 0 {
      EverythingSound(run, k - 1, h);
      StepOrigins(After(run, k - 1, h), run[k - 1], k - 1, h);
    }
  }

  // ----- Theorems -----

  /**
   A reader that reads its generation after an invalidation never gets a value whose writer
   had read its generation before it; and it gets only its own key's value.
   */
  lemma NoStaleRead(run: Run, i: nat, k: nat, h: Hash)
    requires i < k < |run| && Returned(run, k, h).Some?
    requires run[i] == Invalidate(After(run, k, h).pending[run[k].client].ns)
    requires i < After(run, k, h).pending[run[k].client].begun
    ensures var row, r := Returned(run, k, h).value, After(run, k, h).pending[run[k].client];
            && i < row.begun < k
            && run[row.begun].StartWrite? && run[row.begun].ns == r.ns
            && run[row.begun].key == r.key && run[row.begun].value == row.value
  {
    hide Step;
    var r := After(run, k, h).pending[run[k].client];
    EverythingSound(run, k, h);
    var s := Slot(r.ns, r.gen, h(r.key));
    var row := After(run, k, h).rows[s];
    assert RowSound(run, h, k, s, row);
    assert PendingSound(run, h, k, r);
    if row.begun < i {
      GenerationsGrow(run, row.begun, i, h, r.ns);
      GenerationsGrow(run, i, r.begun, h, r.ns);
    }
  }

  /** A row under an old generation is invisible to every read that starts from now on. */
  lemma OrphansStayInvisible(run: Run, k: nat, j: nat, h: Hash, s: Slot)
    requires k <= j < |run| && s in After(run, k, h).rows && s.gen < Generation(After(run, k, h), s.ns)
    requires Returned(run, j, h).Some? && k <= After(run, j, h).pending[run[j].client].begun
    ensures var r := After(run, j, h).pending[run[j].client];
            Slot(r.ns, r.gen, h(r.key)) != s
  {
    hide Step;
    var r := After(run, j, h).pending[run[j].client];
    EverythingSound(run, j, h);
    assert PendingSound(run, h, j, r);
    GenerationsGrow(run, k, r.begun, h, s.ns);
  }

  /** The next invalidation of the namespace also deletes such rows. */
  lemma InvalidateDeletesOrphans(t: State, ns: string, index: nat, h: Hash)
    ensures forall s | s in Step(t, Invalidate(ns), index, h).rows && s.ns == ns ::
              Generation(Step(t, Invalidate(ns), index, h), ns) <= s.gen
  {
  }
}
