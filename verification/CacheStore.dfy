/**
 The operations of `CacheStore` over cache_namespaces and cache_entries. Each one is proved
 to change what callers see exactly as an operation on a plain map with expiry, followed at
 most by dropping keys of the namespace it wrote to. SHA-256, the clock and the choice among
 rows with the same expiry are parameters or left open.
 */
module CacheStoreOps {
  import opened Wrappers
  import opened Collections
  import opened Validation
  import opened CacheTable
  import Decimal

  datatype Position = Append | Prepend

  // ----- The plain map with expiry -----

  datatype Total = Total(sum: int, item: Item)

  /** What an increment makes of an item, or nothing if it must fail. */
  function Plus(item: Item, delta: int, ttl: Option<int>, now: int): Option<Total> {
    var current := Decimal.ParseI64(item.value);
    if current.None? || !Decimal.IsI64(current.value + delta) then None
    else
      var sum := current.value + delta;
      Some(Total(sum, Item(Decimal.Print(sum), if ttl.None? then item.expiresAt else Expiry(ttl, now))))
  }

  function ItemAt(v: Contents, a: Address): Option<Item> {
    if a in v then Some(v[a]) else None
  }

  function Added(item: Option<Item>, delta: int, ttl: Option<int>, now: int): Option<Total> {
    if item.Some? then Plus(item.value, delta, ttl, now)
    else Some(Total(delta, Item(Decimal.Print(delta), Expiry(ttl, now))))
  }

  /** The value is a number, and so is the sum. */
  predicate CanAdd(value: Bytes, delta: int) {
    Decimal.ParseI64(value).Some? && Decimal.IsI64(Decimal.ParseI64(value).value + delta)
  }

  lemma AddedSpelledOut(item: Option<Item>, delta: int, ttl: Option<int>, now: int)
    ensures var t := Added(item, delta, ttl, now);
            && (t.None? <==> item.Some? && !CanAdd(item.value.value, delta))
            && (t.Some? ==>
                  && t.value.sum == delta + (if item.Some? then Decimal.ParseI64(item.value.value).value else 0)
                  && t.value.item.value == Decimal.Print(t.value.sum)
                  && t.value.item.expiresAt == if ttl.Some? then Some(now + ttl.value * 1000)
                                               else if item.Some? then item.value.expiresAt else None)
  {
    hide Decimal.Print, Decimal.ParseI64;
  }

  function Joined(item: Option<Item>, value: Bytes, position: Position): Bytes {
    if item.None? then value
    else match position
      case Append => item.value.value + value
      case Prepend => value + item.value.value
  }

  /** What a transaction computes from an unexpired item has not expired either. */
  ghost predicate KeepsLive(compute: Option<Item> -> Option<Item>, now: int) {
    forall item: Option<Item> | (item.Some? ==> LiveItem(item.value, now)) && compute(item).Some? ::
      LiveItem(compute(item).value, now)
  }

  lemma AddedStaysLive(delta: int, ttl: Option<int>, now: int)
    requires ValidTtl(ttl)
    ensures forall item: Option<Item> | item.Some? ==> LiveItem(item.value, now) ::
              var t := Added(item, delta, ttl, now);
              t.Some? ==> LiveItem(t.value.item, now)
  {
  }

  // ----- Sweeping -----

  function ExpiredRows(rows: Rows, now: int): set<Slot> {
    set s | s in rows && !rows[s].Live(now)
  }

  /** ORDER BY expires_at LIMIT n over the expired rows; ties are broken arbitrarily. */
  predicate Doomed(rows: Rows, expired: set<Slot>, n: nat, doomed: set<Slot>)
    requires expired <= rows.Keys && forall s | s in expired :: rows[s].expiresAt.Some?
  {
    && doomed <= expired
    && |doomed| == (if n < |expired| then n else |expired|)
    && forall s, t | s in doomed && t in expired && t !in doomed ::
         rows[s].expiresAt.value <= rows[t].expiresAt.value
  }

  lemma Earliest(rows: Rows, left: set<Slot>) returns (s: Slot)
    requires left != {} && left <= rows.Keys && forall t | t in left :: rows[t].expiresAt.Some?
    ensures s in left && forall t | t in left :: rows[s].expiresAt.value <= rows[t].expiresAt.value
    decreases left
  {
    var x :| x in left;
    s := x;
    if left != {x} {
      var y := Earliest(rows, left - {x});
      s := if rows[y].expiresAt.value < rows[x].expiresAt.value then y else x;
      assert forall t | t in left && t != x :: t in left - {x};
    } else {
      assert forall t | t in left :: t in {x};
    }
  }

  lemma DoomedExists(rows: Rows, expired: set<Slot>, n: nat) returns (doomed: set<Slot>)
    requires expired <= rows.Keys && forall s | s in expired :: rows[s].expiresAt.Some?
    ensures Doomed(rows, expired, n, doomed)
    decreases n
  {
    if n == 0 || expired == {} {
      doomed := {};
    } else {
      var s := Earliest(rows, expired);
      var rest := DoomedExists(rows, expired - {s}, n - 1);
      doomed := {s} + rest;
      assert forall t | t in expired && t != s :: t in expired - {s};
    }
  }

  // ----- What enforce_capacity does -----

  const SWEEP_BATCH := 1000

  /** The rows removed: a sweep if anything has expired, anywhere; else exact eviction in one namespace. */
  ghost predicate Enforced(rows: Rows, gens: Generations, ns: string, now: int, limits: Limits, gone: set<Slot>) {
    if ExpiredRows(rows, now) != {} then Doomed(rows, ExpiredRows(rows, now), SWEEP_BATCH, gone)
    else if ns in gens then ShortestPrefix(rows, InNamespace(rows, ns, gens[ns]), limits, gone)
    else gone == {}
  }

  /** `left` is what enforcing the capacity leaves of `rows`. */
  ghost predicate CutToCapacity(rows: Rows, gens: Generations, ns: string, now: int, limits: Limits, left: Rows) {
    exists gone :: Enforced(rows, gens, ns, now, limits, gone) && left == rows - gone
  }

  lemma EnforcedAreRows(rows: Rows, gens: Generations, ns: string, now: int, limits: Limits, gone: set<Slot>)
    requires Enforced(rows, gens, ns, now, limits, gone)
    ensures gone <= if ExpiredRows(rows, now) != {} then ExpiredRows(rows, now)
                    else if ns in gens then InNamespace(rows, ns, gens[ns]) else {}
    ensures ExpiredRows(rows, now) != {} ==> gone != {}
  {
  }

  lemma EnforcedDropsOnly(
    rows: Rows, gens: Generations, h: Hash, ns: string, now: int, limits: Limits, gone: set<Slot>)
    requires Enforced(rows, gens, ns, now, limits, gone)
    ensures DropsOnlyFrom(ns, View(gens, rows, h, now), View(gens, rows - gone, h, now))
  {
    hide View, Enforced;
    EnforcedAreRows(rows, gens, ns, now, limits, gone);
    if ExpiredRows(rows, now) != {} {
      ViewSweep(gens, rows, h, now, gone);
    } else {
      ViewRemove(gens, rows, h, now, gone);
    }
  }

  lemma DoomedAreExpired(rows: Rows, expired: set<Slot>, n: nat, doomed: set<Slot>)
    requires expired <= rows.Keys && forall s | s in expired :: rows[s].expiresAt.Some?
    requires Doomed(rows, expired, n, doomed)
    ensures doomed <= expired && (expired != {} && n > 0 ==> doomed != {})
    ensures |expired| <= n ==> doomed == expired
  {
    if doomed != expired {
      ProperSubsetSmaller(doomed, expired);
    }
  }

  /** No two rows expire at the same time. */
  ghost predicate DistinctExpiries(rows: Rows, expired: set<Slot>)
    requires expired <= rows.Keys
  {
    forall s, t | s in expired && t in expired && rows[s].expiresAt == rows[t].expiresAt :: s == t
  }

  /** The sweep has no choice if it takes everything or if expiry times differ. */
  lemma DoomedUnique(rows: Rows, expired: set<Slot>, n: nat, a: set<Slot>, b: set<Slot>)
    requires expired <= rows.Keys && forall s | s in expired :: rows[s].expiresAt.Some?
    requires Doomed(rows, expired, n, a) && Doomed(rows, expired, n, b)
    requires |expired| <= n || DistinctExpiries(rows, expired)
    ensures a == b
  {
    if |expired| <= n {
      DoomedAreExpired(rows, expired, n, a);
      DoomedAreExpired(rows, expired, n, b);
    } else if a != b {
      if a <= b {
        ProperSubsetSmaller(a, b);
      }
      if b <= a {
        ProperSubsetSmaller(b, a);
      }
    }
  }

  lemma EverythingDoomed(rows: Rows, expired: set<Slot>, n: nat)
    requires expired <= rows.Keys && forall s | s in expired :: rows[s].expiresAt.Some?
    ensures |expired| <= n ==> Doomed(rows, expired, n, expired)
  {
  }

  /** How the limits stand after the rows `gone` were removed. */
  lemma LimitsAfterCut(rows: Rows, gens: Generations, ns: string, now: int, limits: Limits, gone: set<Slot>)
    requires ns in gens && Enforced(rows, gens, ns, now, limits, gone)
    ensures var all := InNamespace(rows, ns, gens[ns]);
            && InNamespace(rows - gone, ns, gens[ns]) == all - gone
            && (Fits(rows - gone, all - gone, limits) <==> Fits(rows, all - gone, limits))
            && (ExpiredRows(rows, now) == {} ==> Fits(rows, all - gone, limits))
  {
    hide Doomed, Fits, NeededPrefix, ExpiredRows;
    var all := InNamespace(rows, ns, gens[ns]);
    assert InNamespace(rows - gone, ns, gens[ns]) == all - gone;
    FitsAfterRemoval(rows, gone, all - gone, limits);
  }

  ghost predicate FitsNamespace(rows: Rows, gens: Generations, ns: string, limits: Limits) {
    ns in gens && Fits(rows, InNamespace(rows, ns, gens[ns]), limits)
  }

  /**
   Before the call: enforcing the capacity is sure to leave the namespace within its limits
   exactly when no row of the whole cache has expired, or when the namespace fits without
   whichever batch of expired rows the sweep may take. That batch is a single one if all
   expired rows make one batch or their expiry times differ; then the outcome is decided.
   */
  lemma WithinLimitsIff(rows: Rows, gens: Generations, ns: string, now: int, limits: Limits)
    requires ns in gens
    ensures var all, expired := InNamespace(rows, ns, gens[ns]), ExpiredRows(rows, now);
            (forall left | CutToCapacity(rows, gens, ns, now, limits, left) :: FitsNamespace(left, gens, ns, limits))
            <==>
            expired == {}
            || forall doomed | Doomed(rows, expired, SWEEP_BATCH, doomed) :: Fits(rows, all - doomed, limits)
    ensures var all, expired := InNamespace(rows, ns, gens[ns]), ExpiredRows(rows, now);
            expired != {} && (|expired| <= SWEEP_BATCH || DistinctExpiries(rows, expired)) ==>
              forall left, doomed |
                CutToCapacity(rows, gens, ns, now, limits, left) && Doomed(rows, expired, SWEEP_BATCH, doomed) ::
                FitsNamespace(left, gens, ns, limits) <==> Fits(rows, all - doomed, limits)
    ensures var all, expired := InNamespace(rows, ns, gens[ns]), ExpiredRows(rows, now);
            0 < |expired| <= SWEEP_BATCH ==>
              forall left | CutToCapacity(rows, gens, ns, now, limits, left) ::
                FitsNamespace(left, gens, ns, limits) <==> Fits(rows, all - expired, limits)
  {
    var all, expired := InNamespace(rows, ns, gens[ns]), ExpiredRows(rows, now);
    forall gone | Enforced(rows, gens, ns, now, limits, gone)
      ensures FitsNamespace(rows - gone, gens, ns, limits) <==> Fits(rows, all - gone, limits)
      ensures expired == {} ==> Fits(rows, all - gone, limits)
    {
      LimitsAfterCut(rows, gens, ns, now, limits, gone);
    }
    if expired != {} {
      EverythingDoomed(rows, expired, SWEEP_BATCH);
      forall doomed | Doomed(rows, expired, SWEEP_BATCH, doomed)
        ensures Enforced(rows, gens, ns, now, limits, doomed)
        ensures CutToCapacity(rows, gens, ns, now, limits, rows - doomed)
      {
      }
      forall left, doomed | CutToCapacity(rows, gens, ns, now, limits, left)
                            && Doomed(rows, expired, SWEEP_BATCH, doomed)
                            && (|expired| <= SWEEP_BATCH || DistinctExpiries(rows, expired))
        ensures left == rows - doomed
      {
        var gone :| Enforced(rows, gens, ns, now, limits, gone) && left == rows - gone;
        DoomedUnique(rows, expired, SWEEP_BATCH, gone, doomed);
      }
    }
  }

  /** A write triggers a sweep, or the row fits together with all rows of its namespace that are not older. */
  ghost predicate Survives(rows: Rows, s: Slot, now: int, limits: Limits) {
    var all := InNamespace(rows, s.ns, s.gen);
    ExpiredRows(rows, now) != {} || Fits(rows, all - Older(rows, all, s), limits)
  }

  /** Which live rows of the namespace enforcing the capacity leaves, told by the table before. */
  lemma SurvivesIff(rows: Rows, gens: Generations, now: int, limits: Limits, s: Slot, left: Rows)
    requires CutToCapacity(rows, gens, s.ns, now, limits, left) && UniqueIds(rows)
    requires s in rows && s.ns in gens && s.gen == gens[s.ns] && rows[s].Live(now)
    ensures s in left <==> Survives(rows, s, now, limits)
    ensures s in left ==> left[s] == rows[s]
  {
    var gone :| Enforced(rows, gens, s.ns, now, limits, gone) && left == rows - gone;
    EnforcedAreRows(rows, gens, s.ns, now, limits, gone);
    if ExpiredRows(rows, now) == {} {
      hide Fits, UniqueIds;
      SurvivesEvictionIff(rows, InNamespace(rows, s.ns, s.gen), limits, gone, s);
    }
  }

  /** The newest row of its namespace survives unless it is too large by itself. */
  lemma NewestSurvivesIff(rows: Rows, s: Slot, now: int, limits: Limits)
    requires limits.Valid() && s in rows
    requires forall t | t in InNamespace(rows, s.ns, s.gen) && t != s :: Before(rows, t, s)
    ensures Survives(rows, s, now, limits) <==>
            ExpiredRows(rows, now) != {} || (limits.maxBytes.Some? ==> |rows[s].value| <= limits.maxBytes.value)
  {
    var all := InNamespace(rows, s.ns, s.gen);
    assert all - Older(rows, all, s) == {s};
    SumRemove({s}, SizeOf(rows), s);
    assert {s} - {s} == {};
  }

  lemma UniqueAfterWrite(rows: Rows, s: Slot, e: Entry, next: nat)
    requires UniqueIds(rows) && forall t | t in rows :: rows[t].id < next
    requires e.id == next || (s in rows && e.id == rows[s].id)
    ensures UniqueIds(rows[s := e])
  {
  }

  /** The written key can be read back exactly when its row survives. */
  lemma ReadBackIff(rows: Rows, gens: Generations, h: Hash, now: int, limits: Limits, s: Slot, left: Rows)
    requires CutToCapacity(rows, gens, s.ns, now, limits, left) && UniqueIds(rows)
    requires s in rows && s.ns in gens && s.gen == gens[s.ns] && rows[s].Live(now) && s.hash == h(rows[s].key)
    ensures Address(s.ns, rows[s].key) in View(gens, left, h, now) <==> Survives(rows, s, now, limits)
  {
    hide View, Survives, CutToCapacity, UniqueIds;
    SurvivesIff(rows, gens, now, limits, s, left);
    ViewIsLookup(gens, left, h, now, s.ns, rows[s].key);
    SubsetOfRows(rows, gens, s.ns, now, limits, left);
  }

  lemma SubsetOfRows(rows: Rows, gens: Generations, ns: string, now: int, limits: Limits, left: Rows)
    requires CutToCapacity(rows, gens, ns, now, limits, left)
    ensures forall t | t in left :: t in rows && left[t] == rows[t]
  {
  }

  /** One row written and capacity enforced, seen from outside. */
  lemma WriteThenEnforce(
    rows: Rows, gens: Generations, h: Hash, now: int, limits: Limits, s: Slot, e: Entry, left: Rows)
    requires s.ns in gens && s.gen == gens[s.ns] && s.hash == h(e.key) && e.Live(now)
    requires s in rows ==> s.hash == h(rows[s].key)
    requires CutToCapacity(rows[s := e], gens, s.ns, now, limits, left)
    ensures DropsOnlyFrom(
              s.ns,
              (View(gens, rows, h, now) - Collision(rows, s, e.key))[Address(s.ns, e.key) := ItemOf(e)],
              View(gens, left, h, now))
    ensures || Fits(left, InNamespace(left, s.ns, gens[s.ns]), limits)
            || (|left| <= |rows| && ExpiredRows(rows, now) != {})
  {
    hide View, Fits, Enforced, DropsOnlyFrom;
    var written := rows[s := e];
    var gone :| Enforced(written, gens, s.ns, now, limits, gone) && left == written - gone;
    ViewPut(gens, rows, h, now, s, e);
    EnforcedDropsOnly(written, gens, h, s.ns, now, limits, gone);
    CapacityAfterWrite(rows, gens, now, limits, s, e, gone);
  }

  lemma CapacityAfterWrite(
    rows: Rows, gens: Generations, now: int, limits: Limits, s: Slot, e: Entry, gone: set<Slot>)
    requires s.ns in gens && e.Live(now) && Enforced(rows[s := e], gens, s.ns, now, limits, gone)
    ensures var left := rows[s := e] - gone;
            || Fits(left, InNamespace(left, s.ns, gens[s.ns]), limits)
            || (|left| <= |rows| && ExpiredRows(rows, now) != {})
  {
    hide Fits, Enforced, InNamespace;
    var written := rows[s := e];
    LimitsAfterCut(written, gens, s.ns, now, limits, gone);
    EnforcedAreRows(written, gens, s.ns, now, limits, gone);
    if ExpiredRows(written, now) != {} {
      assert ExpiredRows(written, now) <= ExpiredRows(rows, now);
      KeysRemoved(written, gone);
      KeyAdded(rows, s, e);
    }
  }

  /** The accepted arguments of a write. */
  lemma ArgumentsSpelledOut(ns: string, key: string, ttl: Option<int>)
    ensures CacheStore.BadArguments(ns, key, ttl) <==>
            !ValidIdentifier(ns) || |key| < 1 || |key| > 1024 || (ttl.Some? && ttl.value <= 0)
  {
  }

  class CacheStore {
    const limits: Limits
    const hash: Hash

    var generations: Generations
    var entries: Rows
    var nextId: nat

    constructor (limits: Limits, hash: Hash)
      requires limits.Valid()
      ensures Valid() && entries == map[] && generations == map[]
      ensures this.limits == limits && this.hash == hash
    {
      this.limits := limits;
      this.hash := hash;
      generations, entries, nextId := map[], map[], 0;
    }

    ghost predicate Valid()
      reads this
    {
      && limits.Valid() && UniqueIds(entries)
      && forall s | s in entries ::
           && s.ns in generations && s.gen <= generations[s.ns]
           && s.hash == hash(entries[s].key) && entries[s].id < nextId
    }

    function Contents(now: int): Contents
      reads this
    {
      View(generations, entries, hash, now)
    }

    /** Between operations time alone passes. */
    lemma ContentsLater(now: int, later: int)
      requires now <= later
      ensures Contents(later) == LiveAt(Contents(now), later)
    {
      ViewLater(generations, entries, hash, now, later);
    }

    /** From `now` on, what callers see at `a`, if they see it at all, is `value`, until `deadline` in milliseconds. */
    ghost predicate LastsUntil(a: Address, value: Bytes, deadline: Option<int>, now: int)
      reads this
    {
      forall later | now <= later ::
        && (a in Contents(later) <==> a in Contents(now) && (deadline.None? || later < deadline.value))
        && (a in Contents(later) ==> Contents(later)[a].value == value)
    }

    lemma WrittenLasts(a: Address, item: Item, now: int)
      requires a in Contents(now) ==> Contents(now)[a] == item
      ensures LastsUntil(a, item.value, item.expiresAt, now)
    {
      hide View;
      forall later | now <= later
        ensures a in Contents(later) <==> a in Contents(now) && LiveItem(item, later)
        ensures a in Contents(later) ==> Contents(later)[a].value == item.value
      {
        ContentsLater(now, later);
      }
    }

    /** The slot a statement for `key` addresses; ensure_namespace starts at generation 0. */
    function SlotOf(ns: string, key: string): Slot
      reads this
    {
      Slot(ns, if ns in generations then generations[ns] else 0, hash(key))
    }

    ghost predicate WithinLimits(ns: string)
      reads this
    {
      ns in generations && Fits(entries, InNamespace(entries, ns, generations[ns]), limits)
    }

    static predicate BadArguments(ns: string, key: string, ttl: Option<int>) {
      !ValidIdentifier(ns) || !ValidCacheKey(key) || !ValidTtl(ttl)
    }

    method EnsureNamespace(ns: string)
      requires Valid()
      modifies this`generations
      ensures Valid() && ns in generations
      ensures generations == if ns in old(generations) then old(generations) else old(generations)[ns := 0]
      ensures forall now :: Contents(now) == old(Contents(now))
      ensures forall key :: SlotOf(ns, key) == old(SlotOf(ns, key))
    {
      if ns !in generations {
        forall now
          ensures View(generations[ns := 0], entries, hash, now) == View(generations, entries, hash, now)
        {
          ViewEnsure(generations, entries, hash, now, ns);
        }
        generations := generations[ns := 0];
      }
    }

    /** Returns the rows it deleted; `rows_affected` is their number. */
    method SweepExpired(limit: nat, now: int) returns (doomed: set<Slot>)
      requires Valid()
      modifies this`entries
      ensures Valid()
      ensures Doomed(old(entries), ExpiredRows(old(entries), now), limit, doomed)
      ensures forall s | s in doomed ::
                s in old(entries) && old(entries)[s].expiresAt.Some? && old(entries)[s].expiresAt.value <= now
      ensures forall s, t | s in doomed && t in entries && entries[t].expiresAt.Some? ::
                old(entries)[s].expiresAt.value <= entries[t].expiresAt.value
      ensures entries == old(entries) - doomed
      ensures Performed(Looked, old(Contents(now)), Contents(now))
    {
      hide View;
      var expired := ExpiredRows(entries, now);
      ghost var some := DoomedExists(entries, expired, limit);
      assert some <= expired;
      doomed :| doomed <= expired && Doomed(entries, expired, limit, doomed);
      ViewSweep(generations, entries, hash, now, doomed);
      entries := entries - doomed;
    }

    /** SUM(size_bytes) of some rows. */
    method ByteSize(rows: set<Slot>) returns (total: int)
      requires rows <= entries.Keys
      ensures total == Sum(rows, SizeOf(entries))
    {
      total := 0;
      var left := rows;
      while left != {}
        invariant left <= rows
        invariant total + Sum(left, SizeOf(entries)) == Sum(rows, SizeOf(entries))
        decreases |left|
      {
        var s :| s in left;
        SumRemove(left, SizeOf(entries), s);
        total := total + |entries[s].value|;
        left := left - {s};
      }
    }

    /** SELECT id ... ORDER BY last_accessed_at, id LIMIT 1. */
    method LeastRecentlyUsed(left: set<Slot>) returns (victim: Slot)
      requires left != {} && left <= entries.Keys && UniqueIds(entries)
      ensures victim in left && forall s | s in left && s != victim :: Before(entries, victim, s)
      ensures forall s | s in left :: entries[victim].lastAccess <= entries[s].lastAccess
      ensures forall s | s in left && s != victim && entries[s].lastAccess == entries[victim].lastAccess ::
                entries[victim].id < entries[s].id
    {
      ghost var oldest := Oldest(entries, left);
      victim :| victim in left && forall s | s in left && s != victim :: Before(entries, victim, s);
    }

    /** The eviction loop: delete the least recently used row until both limits hold. */
    method EvictUntilWithinLimits(ns: string, gen: nat) returns (ghost gone: set<Slot>)
      requires Valid()
      modifies this`entries
      ensures entries == old(entries) - gone
      ensures ShortestPrefix(old(entries), InNamespace(old(entries), ns, gen), limits, gone)
      ensures OldestWent(old(entries), gone, entries, ns, gen)
    {
      hide OldestWent, Sum, Fits, NeededPrefix, Before, UniqueIds, SizeOf;
      ghost var rows, all := entries, InNamespace(entries, ns, gen);
      gone := {};
      var left := InNamespace(entries, ns, gen);
      var excess := if limits.maxKeys.Some? then |left| - limits.maxKeys.value else 0;
      var bytes := ByteSize(left);
      var overBytes := limits.maxBytes.Some? && bytes > limits.maxBytes.value;
      FitsByCounters(rows, left, limits, excess, bytes);
      EmptyPrefix(rows, all, limits);
      assert left == all - gone && entries == rows - gone;
      while excess > 0 || overBytes
        invariant gone <= all && left == all - gone && entries == rows - gone
        invariant limits.maxKeys.Some? ==> excess == |left| - limits.maxKeys.value
        invariant limits.maxKeys.None? ==> excess <= 0
        invariant limits.maxBytes.Some? ==> bytes == Sum(left, SizeOf(rows))
        invariant overBytes <==> limits.maxBytes.Some? && bytes > limits.maxBytes.value
        invariant Fits(rows, left, limits) <==> !(excess > 0 || overBytes)
        invariant NeededPrefix(rows, all, limits, gone)
        decreases |left|
      {
        if left == {} {
          break;
        }
        FewerUniqueIds(rows, gone);
        var victim := LeastRecentlyUsed(left);
        NextVictim(rows, all, limits, gone, victim);
        EvictOne(rows, all, gone, victim);
        gone := gone + {victim};
        entries := entries - {victim};
        left := left - {victim};
        excess := excess - 1;
        if limits.maxBytes.Some? {
          bytes := ByteSize(left);
          SizeStable(rows, gone, left);
          overBytes := bytes > limits.maxBytes.value;
        }
        FitsByCounters(rows, left, limits, excess, bytes);
      }
      FitsByCounters(rows, left, limits, excess, bytes);
      OldestGoFirst(rows, ns, gen, limits, gone);
    }

    /** Returns the rows it removed. */
    method EnforceCapacity(ns: string, now: int) returns (ghost gone: set<Slot>)
      requires Valid()
      modifies this`entries
      ensures Valid()
      ensures Enforced(old(entries), generations, ns, now, limits, gone)
      ensures entries == old(entries) - gone
      ensures var expired := |ExpiredRows(old(entries), now)|;
              expired > 0 ==> |gone| == if expired < 1000 then expired else 1000
    {
      hide View, Fits, NeededPrefix;
      var doomed := SweepExpired(SWEEP_BATCH, now);
      gone := doomed;
      if |doomed| > 0 {
        return;
      }
      assert ExpiredRows(old(entries), now) == {};
      assert entries == old(entries);
      if ns in generations {
        gone := EvictUntilWithinLimits(ns, generations[ns]);
      }
    }

    /**
     What holds after a write: the limits, or else the table has not grown, and then
     only because something had expired.
     */
    twostate predicate Capped(ns: string, now: int)
      reads this
    {
      WithinLimits(ns) || (|entries| <= |old(entries)| && ExpiredRows(old(entries), now) != {})
    }

    /** The new table is the old one with row `e` written and the capacity enforced. */
    twostate predicate Stored(s: Slot, e: Entry, now: int)
      reads this
    {
      CutToCapacity(old(entries)[s := e], generations, s.ns, now, limits, entries)
    }

    /** The written key can be read back exactly when its row survives the cut. */
    twostate predicate ReadsBack(s: Slot, e: Entry, now: int)
      reads this
    {
      Address(s.ns, e.key) in Contents(now) <==> Survives(old(entries)[s := e], s, now, limits)
    }

    /** The row a set leaves: an existing one, even expired, keeps its id and last access. */
    function Overwritten(s: Slot, key: string, item: Item, now: int): (e: Entry)
      reads this
      ensures e.key == key && ItemOf(e) == item
      ensures s in entries ==> e.lastAccess == entries[s].lastAccess
      ensures s !in entries ==> e.lastAccess == now
    {
      if s in entries then entries[s].(key := key, value := item.value, expiresAt := item.expiresAt)
      else Entry(nextId, key, item.value, item.expiresAt, now)
    }

    /** The row a read-modify-write transaction leaves: an unexpired one keeps its id and last access. */
    function Rewritten(s: Slot, key: string, item: Item, now: int): (e: Entry)
      reads this
      ensures ItemOf(e) == item
      ensures s in entries && entries[s].Live(now) ==> e.lastAccess == entries[s].lastAccess
      ensures !(s in entries && entries[s].Live(now)) ==> e.key == key && e.lastAccess == now
    {
      if s in entries && entries[s].Live(now) then entries[s].(value := item.value, expiresAt := item.expiresAt)
      else Entry(nextId, key, item.value, item.expiresAt, now)
    }

    /** Writes one row of the current generation and enforces the capacity. */
    method WriteRow(s: Slot, e: Entry, now: int)
      requires Valid() && s.ns in generations && s.gen == generations[s.ns]
      requires s.hash == hash(e.key) && e.Live(now)
      requires e.id == if s in entries then entries[s].id else nextId
      modifies this`entries, this`nextId
      ensures Valid() && Stored(s, e, now)
    {
      hide View, Fits, Enforced;
      entries := entries[s := e];
      nextId := if nextId == e.id then nextId + 1 else nextId;
      ghost var gone := EnforceCapacity(s.ns, now);
    }

    method Set(ns: string, key: string, value: Bytes, ttl: Option<int>, now: int) returns (r: Result<()>)
      requires Valid()
      modifies this
      ensures Valid()
      ensures r == if BadArguments(ns, key, ttl) then Err(InvalidArgument) else Ok(())
      ensures r.Ok? ==> generations == if ns in old(generations) then old(generations) else old(generations)[ns := 0]
      ensures r.Err? ==> unchanged(this)
      ensures r.Ok? ==>
                var s := old(SlotOf(ns, key));
                var e := old(Overwritten(s, key, Item(value, Expiry(ttl, now)), now));
                Stored(s, e, now) && ReadsBack(s, e, now)
      ensures r.Ok? ==>
                var v, act := old(Contents(now)), Wrote(Address(ns, key), Item(value, Expiry(ttl, now)));
                && Performed(act, v, Contents(now))
                && Performed(act, v - Collision(old(entries), old(SlotOf(ns, key)), key), Contents(now))
                && LastsUntil(Address(ns, key), value, if ttl.Some? then Some(now + ttl.value * 1000) else None, now)
                && Capped(ns, now)
    {
      hide View, Fits, DropsOnlyFrom, CutToCapacity, Survives, UniqueIds, ExpiredRows, InNamespace;
      if BadArguments(ns, key, ttl) {
        return Err(InvalidArgument);
      }
      EnsureNamespace(ns);
      var s := SlotOf(ns, key);
      var e :=
        if s in entries then entries[s].(key := key, value := value, expiresAt := Expiry(ttl, now))
        else Entry(nextId, key, value, Expiry(ttl, now), now);
      UniqueAfterWrite(entries, s, e, nextId);
      WriteRow(s, e, now);
      ReadBackIff(old(entries)[s := e], generations, hash, now, limits, s, entries);
      WriteThenEnforce(old(entries), generations, hash, now, limits, s, e, entries);
      CollisionIsADrop(old(Contents(now)), Collision(old(entries), s, key), Address(ns, key), ItemOf(e), Contents(now));
      WrittenItem(Address(ns, key), ItemOf(e), old(Contents(now)), Contents(now));
      WrittenLasts(Address(ns, key), ItemOf(e), now);
      return Ok(());
    }

    /** delete_expired_key, then select_key_for_update. */
    method ReadForUpdate(s: Slot, key: string, now: int) returns (row: Option<Entry>)
      requires Valid()
      modifies this`entries
      ensures Valid()
      ensures var expired := s in old(entries) && old(entries)[s].key == key && !old(entries)[s].Live(now);
              entries == old(entries) - if expired then {s} else {}
      ensures Contents(now) == old(Contents(now))
      ensures row.Some? <==> s in entries && entries[s].key == key
      ensures row.Some? ==> row.value == entries[s] && row.value.Live(now)
    {
      hide View, UniqueIds;
      if s in entries && entries[s].key == key && !entries[s].Live(now) {
        FewerUniqueIds(entries, {s});
        ViewSweep(generations, entries, hash, now, {s});
        entries := entries - {s};
      }
      row := if s in entries && entries[s].key == key && entries[s].Live(now) then Some(entries[s]) else None;
    }

    /** The slot is taken by another key with the same hash. */
    predicate Collides(ns: string, key: string)
      reads this
    {
      var s := SlotOf(ns, key);
      s in entries && entries[s].key != key
    }

    /** The transaction of get_set, add_integer and concat: what they read, and how they write. */
    method Begin(ns: string, key: string, now: int) returns (s: Slot, row: Option<Entry>)
      requires Valid()
      modifies this`generations, this`entries
      ensures Valid() && ns in generations && s == SlotOf(ns, key) == old(SlotOf(ns, key))
      ensures Contents(now) == old(Contents(now)) == View(generations, old(entries), hash, now)
      ensures generations == if ns in old(generations) then old(generations) else old(generations)[ns := 0]
      ensures |entries| <= |old(entries)| && ExpiredRows(entries, now) <= ExpiredRows(old(entries), now)
      ensures row.Some? ==> s in entries && row.value == entries[s] && row.value.key == key && row.value.Live(now)
      ensures row.None? ==> (s in entries <==> old(Collides(ns, key)))
      ensures entries == old(entries) || (row.None? && entries == old(entries) - {s} && !old(entries)[s].Live(now))
      ensures row.Some? ==> s in old(entries) && row.value == old(entries)[s]
      ensures old(Collides(ns, key)) ==> row.None?
      ensures var a := Address(ns, key);
              && (row.Some? <==> a in Contents(now))
              && (row.Some? ==> Contents(now)[a] == ItemOf(row.value))
    {
      hide View;
      EnsureNamespace(ns);
      s := SlotOf(ns, key);
      row := ReadForUpdate(s, key, now);
      ViewIsLookup(generations, entries, hash, now, ns, key);
      SubsetSize(entries.Keys, old(entries).Keys);
      assert |entries.Keys| == |entries| && |old(entries).Keys| == |old(entries)|;
    }

    /** update_value on the row that was read, or insert_value into the slot, free since `before` or freed by expiry. */
    method Save(s: Slot, key: string, row: Option<Entry>, item: Item, now: int, ghost before: Rows)
      requires Valid() && s.ns in generations && s == SlotOf(s.ns, key) && LiveItem(item, now)
      requires if row.Some? then s in entries && entries[s] == row.value && row.value.key == key && row.value.Live(now)
               else s !in entries
      requires entries == before || entries == before - {s}
      requires s in before ==> before[s].key == key
      modifies this`entries, this`nextId
      ensures Valid()
      ensures CutToCapacity(
                before[s := old(Rewritten(s, key, item, now))], generations, s.ns, now, limits, entries)
      ensures DropsOnlyFrom(
                s.ns, View(generations, before, hash, now)[Address(s.ns, key) := item], Contents(now))
      ensures WithinLimits(s.ns) || (|entries| <= |before| && ExpiredRows(before, now) != {})
      ensures Address(s.ns, key) in Contents(now) <==>
              Survives(before[s := old(Rewritten(s, key, item, now))], s, now, limits)
    {
      hide View, Fits, DropsOnlyFrom, CutToCapacity, ExpiredRows, UniqueIds, InNamespace, ValidIdentifier, Survives;
      var e :=
        if row.Some? then row.value.(value := item.value, expiresAt := item.expiresAt)
        else Entry(nextId, key, item.value, item.expiresAt, now);
      assert entries[s := e] == before[s := e];
      UniqueAfterWrite(entries, s, e, nextId);
      WriteRow(s, e, now);
      ReadBackIff(before[s := e], generations, hash, now, limits, s, entries);
      WriteThenEnforce(before, generations, hash, now, limits, s, e, entries);
      NothingTaken(View(generations, before, hash, now));
    }

    /**
     The transaction shared by get_set, add_integer and concat: `compute` makes the new item of
     the one that was read, or fails. A failure rolls back.
     */
    method Transact(ns: string, key: string, compute: Option<Item> -> Option<Item>, now: int)
      returns (r: Result<Option<Item>>)
      requires Valid() && ValidIdentifier(ns) && ValidCacheKey(key) && KeepsLive(compute, now)
      modifies this
      ensures Valid()
      ensures var before := ItemAt(old(Contents(now)), Address(ns, key));
              && (r.Err? <==> compute(before).None? || old(Collides(ns, key)))
              && (r.Err? ==> r.error == if compute(before).None? then InvalidArgument else Database)
              && (r.Ok? ==> r.value == before)
              && (old(Collides(ns, key)) ==> before.None?)
      ensures r.Err? ==> entries == old(entries) && Contents(now) == old(Contents(now))
      ensures r.Ok? ==>
                var v, a, s := old(Contents(now)), Address(ns, key), old(SlotOf(ns, key));
                var item := compute(ItemAt(v, a)).value;
                && Stored(s, old(Rewritten(s, key, item, now)), now)
                && ReadsBack(s, old(Rewritten(s, key, item, now)), now)
                && Performed(Wrote(a, item), v, Contents(now))
                && LastsUntil(a, item.value, item.expiresAt, now)
                && Capped(ns, now)
    {
      hide View, Fits, DropsOnlyFrom, CutToCapacity, ExpiredRows, UniqueIds, InNamespace, Survives;
      hide ValidIdentifier, ValidCacheKey, LastsUntil;
      var before := entries;
      var s, row := Begin(ns, key, now);
      var read := if row.Some? then Some(ItemOf(row.value)) else None;
      var item := compute(read);
      if item.None? || (row.None? && s in entries) {
        entries := before;
        return Err(if item.None? then InvalidArgument else Database);
      }
      assert LiveItem(item.value, now);
      assert Rewritten(s, key, item.value, now) == old(Rewritten(s, key, item.value, now));
      Save(s, key, row, item.value, now, before);
      WrittenItem(Address(ns, key), item.value, old(Contents(now)), Contents(now));
      WrittenLasts(Address(ns, key), item.value, now);
      return Ok(read);
    }

    method GetSet(ns: string, key: string, value: Bytes, ttl: Option<int>, now: int)
      returns (r: Result<Option<Bytes>>)
      requires Valid()
      modifies this
      ensures Valid()
      ensures r.Err? <==> BadArguments(ns, key, ttl) || old(Collides(ns, key))
      ensures r.Err? ==> r.error == if BadArguments(ns, key, ttl) then InvalidArgument else Database
      ensures r.Err? ==> entries == old(entries) && Contents(now) == old(Contents(now))
      ensures r.Ok? ==>
                var s, v, a := old(SlotOf(ns, key)), old(Contents(now)), Address(ns, key);
                && r.value == (if a in v then Some(v[a].value) else None)
                && Stored(s, old(Rewritten(s, key, Item(value, Expiry(ttl, now)), now)), now)
                && ReadsBack(s, old(Rewritten(s, key, Item(value, Expiry(ttl, now)), now)), now)
                && Performed(Wrote(a, Item(value, Expiry(ttl, now))), v, Contents(now))
                && LastsUntil(a, value, if ttl.Some? then Some(now + ttl.value * 1000) else None, now)
                && Capped(ns, now)
    {
      hide View, Fits, DropsOnlyFrom, CutToCapacity, Survives, ExpiredRows;
      if BadArguments(ns, key, ttl) {
        return Err(InvalidArgument);
      }
      var previous := Transact(ns, key, _ => Some(Item(value, Expiry(ttl, now))), now);
      match previous
      case Err(e) => return Err(e);
      case Ok(item) => return Ok(if item.Some? then Some(item.value.value) else None);
    }

    method AddInteger(ns: string, key: string, delta: int, ttl: Option<int>, now: int) returns (r: Result<int>)
      requires Valid() && Decimal.IsI64(delta)
      modifies this
      ensures Valid()
      ensures r.Err? <==> BadArguments(ns, key, ttl) || old(Collides(ns, key))
                          || (Address(ns, key) in old(Contents(now))
                              && !CanAdd(old(Contents(now))[Address(ns, key)].value, delta))
      ensures r.Err? ==> r.error == if BadArguments(ns, key, ttl) || !old(Collides(ns, key)) then InvalidArgument
                                    else Database
      ensures r.Err? ==> entries == old(entries) && Contents(now) == old(Contents(now))
      ensures r.Ok? ==>
                var s, v, a := old(SlotOf(ns, key)), old(Contents(now)), Address(ns, key);
                var t := Added(ItemAt(v, a), delta, ttl, now).value;
                && r.value == t.sum == delta + (if a in v then Decimal.ParseI64(v[a].value).value else 0)
                && LastsUntil(a, Decimal.Print(r.value),
                              if ttl.Some? then Some(now + ttl.value * 1000)
                              else if a in v then v[a].expiresAt else None, now)
                && Stored(s, old(Rewritten(s, key, t.item, now)), now)
                && ReadsBack(s, old(Rewritten(s, key, t.item, now)), now)
                && Performed(Wrote(a, t.item), v, Contents(now))
                && Capped(ns, now)
    {
      hide View, Fits, DropsOnlyFrom, CutToCapacity, Survives, ExpiredRows, Added, CanAdd, LastsUntil, Performed;
      hide Decimal.ParseI64, Decimal.Print;
      if BadArguments(ns, key, ttl) {
        return Err(InvalidArgument);
      }
      var compute := item => var t := Added(item, delta, ttl, now); if t.Some? then Some(t.value.item) else None;
      AddedStaysLive(delta, ttl, now);
      AddedSpelledOut(ItemAt(Contents(now), Address(ns, key)), delta, ttl, now);
      var previous := Transact(ns, key, compute, now);
      match previous
      case Err(e) => return Err(e);
      case Ok(item) => return Ok(Added(item, delta, ttl, now).value.sum);
    }

    /** decrement: checked_neg fails on the smallest i64 before anything is touched. */
    method Decrement(ns: string, key: string, delta: int, ttl: Option<int>, now: int) returns (r: Result<int>)
      requires Valid() && Decimal.IsI64(delta)
      modifies this
      ensures Valid()
      ensures r.Err? <==> BadArguments(ns, key, ttl) || old(Collides(ns, key)) || delta == Decimal.I64_MIN
                          || (Address(ns, key) in old(Contents(now))
                              && !CanAdd(old(Contents(now))[Address(ns, key)].value, -delta))
      ensures r.Err? ==> r.error == if BadArguments(ns, key, ttl) || delta == Decimal.I64_MIN
                                       || !old(Collides(ns, key)) then InvalidArgument
                                    else Database
      ensures r.Err? ==> entries == old(entries) && Contents(now) == old(Contents(now))
      ensures r.Ok? ==>
                var s, v, a := old(SlotOf(ns, key)), old(Contents(now)), Address(ns, key);
                var t := Added(ItemAt(v, a), -delta, ttl, now).value;
                && r.value == t.sum == -delta + (if a in v then Decimal.ParseI64(v[a].value).value else 0)
                && LastsUntil(a, Decimal.Print(r.value),
                              if ttl.Some? then Some(now + ttl.value * 1000)
                              else if a in v then v[a].expiresAt else None, now)
                && Stored(s, old(Rewritten(s, key, t.item, now)), now)
                && ReadsBack(s, old(Rewritten(s, key, t.item, now)), now)
                && Performed(Wrote(a, t.item), v, Contents(now))
                && Capped(ns, now)
    {
      hide View, Fits, DropsOnlyFrom, CutToCapacity, Survives, ExpiredRows, Added, CanAdd, LastsUntil, Performed;
      hide Decimal.ParseI64, Decimal.Print;
      if !Decimal.IsI64(-delta) {
        return Err(InvalidArgument);
      }
      r := AddInteger(ns, key, -delta, ttl, now);
    }

    method Concat(ns: string, key: string, value: Bytes, ttl: Option<int>, position: Position, now: int)
      returns (r: Result<nat>)
      requires Valid()
      modifies this
      ensures Valid()
      ensures r.Err? <==> BadArguments(ns, key, ttl) || old(Collides(ns, key))
      ensures r.Err? ==> r.error == if BadArguments(ns, key, ttl) then InvalidArgument else Database
      ensures r.Err? ==> entries == old(entries) && Contents(now) == old(Contents(now))
      ensures r.Ok? ==>
                var s, v, a := old(SlotOf(ns, key)), old(Contents(now)), Address(ns, key);
                var joined :=
                  if a !in v then value else if position == Append then v[a].value + value else value + v[a].value;
                && r.value == |joined|
                && Stored(s, old(Rewritten(s, key, Item(joined, Expiry(ttl, now)), now)), now)
                && ReadsBack(s, old(Rewritten(s, key, Item(joined, Expiry(ttl, now)), now)), now)
                && Performed(Wrote(a, Item(joined, Expiry(ttl, now))), v, Contents(now))
                && LastsUntil(a, joined, if ttl.Some? then Some(now + ttl.value * 1000) else None, now)
                && Capped(ns, now)
    {
      hide View, Fits, DropsOnlyFrom, CutToCapacity, Survives, ExpiredRows;
      if BadArguments(ns, key, ttl) {
        return Err(InvalidArgument);
      }
      var previous := Transact(ns, key, item => Some(Item(Joined(item, value, position), Expiry(ttl, now))), now);
      match previous
      case Err(e) => return Err(e);
      case Ok(item) => return Ok(|Joined(item, value, position)|);
    }

    /** Creates the key only if a caller could not see it and no other key holds its slot. */
    method SetNx(ns: string, key: string, value: Bytes, ttl: Option<int>, now: int) returns (r: Result<bool>)
      requires Valid()
      modifies this
      ensures Valid()
      ensures r.Err? <==> BadArguments(ns, key, ttl)
      ensures r.Err? ==> r.error == InvalidArgument && unchanged(this)
      ensures r.Ok? ==> (r.value <==> Address(ns, key) !in old(Contents(now)) && !old(Collides(ns, key)))
      ensures r.Ok? && !r.value ==> Contents(now) == old(Contents(now))
      ensures r.Ok? && r.value ==>
                var s, v, a := old(SlotOf(ns, key)), old(Contents(now)), Address(ns, key);
                && Stored(s, old(Rewritten(s, key, Item(value, Expiry(ttl, now)), now)), now)
                && ReadsBack(s, old(Rewritten(s, key, Item(value, Expiry(ttl, now)), now)), now)
                && Performed(Wrote(a, Item(value, Expiry(ttl, now))), v, Contents(now))
                && LastsUntil(a, value, if ttl.Some? then Some(now + ttl.value * 1000) else None, now)
                && Capped(ns, now)
    {
      hide View, Fits, DropsOnlyFrom, CutToCapacity, Survives, ExpiredRows, UniqueIds, InNamespace;
      hide ValidIdentifier, ValidCacheKey;
      if BadArguments(ns, key, ttl) {
        return Err(InvalidArgument);
      }
      ghost var before := entries;
      var s, row := Begin(ns, key, now);
      if s in entries {
        return Ok(false);
      }
      var item := Item(value, Expiry(ttl, now));
      assert Rewritten(s, key, item, now) == old(Rewritten(s, key, item, now));
      Save(s, key, None, item, now, before);
      WrittenItem(Address(ns, key), item, old(Contents(now)), Contents(now));
      WrittenLasts(Address(ns, key), item, now);
      return Ok(true);
    }

    /** A hit returns what the map holds and marks the row as used. */
    method Get(ns: string, key: string, now: int) returns (r: Result<Option<Bytes>>)
      requires Valid()
      modifies this`entries
      ensures Valid()
      ensures r.Err? <==> !ValidIdentifier(ns) || !ValidCacheKey(key)
      ensures Performed(Looked, old(Contents(now)), Contents(now))
      ensures r.Ok? ==>
                var v, a := old(Contents(now)), Address(ns, key);
                r.value == if a in v then Some(v[a].value) else None
      ensures r.Ok? && r.value.Some? ==>
                var s := SlotOf(ns, key);
                s in old(entries) && entries == old(entries)[s := old(entries)[s].(lastAccess := now)]
      ensures r.Err? || r.value.None? ==> unchanged(this)
    {
      hide View;
      if !ValidIdentifier(ns) || !ValidCacheKey(key) {
        return Err(InvalidArgument);
      }
      if ns !in generations {
        ViewKnowsNamespaces(generations, entries, hash, now);
        return Ok(None);
      }
      var s := Slot(ns, generations[ns], hash(key));
      ViewIsLookup(generations, entries, hash, now, ns, key);
      if s in entries && entries[s].key == key && entries[s].Live(now) {
        var e := entries[s];
        ViewTouch(generations, entries, hash, now, s, e.(lastAccess := now));
        entries := entries[s := e.(lastAccess := now)];
        return Ok(Some(e.value));
      }
      return Ok(None);
    }

    /** A row of this very key is there, but no caller can see it any more. */
    predicate HoldsExpired(ns: string, key: string, now: int)
      reads this
    {
      var s := SlotOf(ns, key);
      ns in generations && s in entries && entries[s].key == key && !entries[s].Live(now)
    }

    /**
     The result tells whether a row was there, even one that had expired: it tells whether a
     caller could see the key exactly when no expired row of it was left.
     */
    method Delete(ns: string, key: string, now: int) returns (r: Result<bool>)
      requires Valid()
      modifies this`entries
      ensures Valid()
      ensures r.Err? <==> !ValidIdentifier(ns) || !ValidCacheKey(key)
      ensures r.Err? ==> unchanged(this)
      ensures r.Ok? ==> Performed(Erased(Address(ns, key)), old(Contents(now)), Contents(now))
      ensures r.Ok? ==>
                (r.value <==> ns in generations && SlotOf(ns, key) in old(entries) && !old(Collides(ns, key)))
      ensures r.Ok? ==>
                (r.value == (Address(ns, key) in old(Contents(now))) <==> !old(HoldsExpired(ns, key, now)))
    {
      hide View;
      if !ValidIdentifier(ns) || !ValidCacheKey(key) {
        return Err(InvalidArgument);
      }
      ViewKnowsNamespaces(generations, entries, hash, now);
      assert Address(ns, key) !in Contents(now) ==> Contents(now) - {Address(ns, key)} == Contents(now);
      if ns !in generations {
        return Ok(false);
      }
      var s := Slot(ns, generations[ns], hash(key));
      ViewIsLookup(generations, entries, hash, now, ns, key);
      if s in entries && entries[s].key == key {
        ViewDelete(generations, entries, hash, now, s);
        entries := entries - {s};
        return Ok(true);
      }
      return Ok(false);
    }

    /** Bumps the generation and deletes everything older. */
    method InvalidateNamespace(ns: string, now: int) returns (r: Result<()>)
      requires Valid()
      modifies this`generations, this`entries
      ensures Valid()
      ensures r.Err? <==> !ValidIdentifier(ns)
      ensures r.Err? ==> unchanged(this)
      ensures r.Ok? ==> Performed(Cleared(ns), old(Contents(now)), Contents(now))
      ensures r.Ok? ==> forall s | s in entries :: s.ns != ns
    {
      hide View, UniqueIds, ValidIdentifier;
      if !ValidIdentifier(ns) {
        return Err(InvalidArgument);
      }
      EnsureNamespace(ns);
      var gen := generations[ns] + 1;
      var stale := set s | s in entries && s.ns == ns && s.gen < gen;
      ViewInvalidate(generations, entries, hash, now, ns, stale);
      FewerUniqueIds(entries, stale);
      generations := generations[ns := gen];
      entries := entries - stale;
      return Ok(());
    }
  }

  // ----- A write that leaves its namespace over the limit -----

  lemma NothingCut(rows: Rows, gens: Generations, ns: string, now: int, limits: Limits, left: Rows)
    requires CutToCapacity(rows, gens, ns, now, limits, left)
    requires ExpiredRows(rows, now) == {} && FitsNamespace(rows, gens, ns, limits)
    ensures left == rows
  {
    hide Fits;
    var all := InNamespace(rows, ns, gens[ns]);
    assert Prefix(rows, all, {}) && all - {} == all;
  }

  lemma OnlySwept(rows: Rows, gens: Generations, ns: string, now: int, limits: Limits, left: Rows)
    requires CutToCapacity(rows, gens, ns, now, limits, left)
    requires 0 < |ExpiredRows(rows, now)| <= SWEEP_BATCH
    ensures left == rows - ExpiredRows(rows, now)
  {
    var gone :| Enforced(rows, gens, ns, now, limits, gone) && left == rows - gone;
    DoomedAreExpired(rows, ExpiredRows(rows, now), SWEEP_BATCH, gone);
  }

  /**
   A new key written to a namespace that already holds its number of live keys, while
   anything in the cache has expired, leaves the namespace over its limit.
   */
  lemma SweepLeavesOverLimit(
    rows: Rows, gens: Generations, now: int, limits: Limits, s: Slot, e: Entry, left: Rows)
    requires s.ns in gens && s.gen == gens[s.ns] && s !in rows && e.Live(now)
    requires 0 < |ExpiredRows(rows, now)| <= SWEEP_BATCH
    requires limits.maxKeys.Some?
    requires limits.maxKeys.value <= |InNamespace(rows, s.ns, s.gen) - ExpiredRows(rows, now)|
    requires CutToCapacity(rows[s := e], gens, s.ns, now, limits, left)
    ensures left == rows[s := e] - ExpiredRows(rows, now) && !FitsNamespace(left, gens, s.ns, limits)
  {
    hide CutToCapacity;
    var written, expired := rows[s := e], ExpiredRows(rows, now);
    assert ExpiredRows(written, now) == expired;
    OnlySwept(written, gens, s.ns, now, limits, left);
    var live := InNamespace(rows, s.ns, s.gen) - expired;
    assert InNamespace(left, s.ns, s.gen) == live + {s};
  }

  /** A set that meets no expired row and leaves the namespace within its limits only writes its row. */
  method SetFits(store: CacheStore, ns: string, key: string, value: Bytes, ttl: Option<int>, now: int)
    requires store.Valid() && !CacheStore.BadArguments(ns, key, ttl)
    requires var s := store.SlotOf(ns, key);
             var written := store.entries[s := store.Overwritten(s, key, Item(value, Expiry(ttl, now)), now)];
             ExpiredRows(written, now) == {} && Fits(written, InNamespace(written, ns, s.gen), store.limits)
    modifies store
    ensures store.Valid()
    ensures store.generations == if ns in old(store.generations) then old(store.generations)
                                 else old(store.generations)[ns := 0]
    ensures var s := old(store.SlotOf(ns, key));
            store.entries == old(store.entries[s := store.Overwritten(s, key, Item(value, Expiry(ttl, now)), now)])
  {
    hide CutToCapacity, View, UniqueIds, ValidIdentifier, ValidCacheKey, Survives, Fits, DropsOnlyFrom, ExpiredRows;
    ghost var s := store.SlotOf(ns, key);
    ghost var written := store.entries[s := store.Overwritten(s, key, Item(value, Expiry(ttl, now)), now)];
    var _ := store.Set(ns, key, value, ttl, now);
    NothingCut(written, store.generations, ns, now, store.limits, store.entries);
  }

  const OLD_KEY := Slot("m", 0, "a")
  const LIVE_KEY := Slot("n", 0, "a")
  const NEW_KEY := Slot("n", 0, "b")

  /** One key allowed per namespace; after a second, "m" holds an expired key and "n" a live one. */
  method OneExpiredOneLive() returns (store: CacheStore)
    ensures fresh(store) && store.Valid() && store.limits == Limits(Some(1), None)
    ensures store.generations == map["m" := 0, "n" := 0] && store.SlotOf("n", "b") == NEW_KEY
    ensures store.entries.Keys == {OLD_KEY, LIVE_KEY} && ExpiredRows(store.entries, SECOND) == {OLD_KEY}
    ensures store.SlotOf("m", "a") == OLD_KEY && store.entries[OLD_KEY].key == "a"
  {
    assert ValidIdentifier("m") && ValidIdentifier("n") && OLD_KEY.ns != LIVE_KEY.ns;
    hide CutToCapacity, View, UniqueIds, ValidIdentifier;
    store := new CacheStore(Limits(Some(1), None), key => key);
    ghost var first := store.entries[OLD_KEY := store.Overwritten(OLD_KEY, "a", Item("", Some(SECOND)), 0)];
    assert InNamespace(first, "m", 0) == {OLD_KEY};
    SetFits(store, "m", "a", "", Some(1), 0);
    ghost var second := store.entries[LIVE_KEY := store.Overwritten(LIVE_KEY, "a", Item("", None), 0)];
    assert InNamespace(second, "n", 0) == {LIVE_KEY};
    SetFits(store, "n", "a", "", None, 0);
  }

  /** Setting a second key in "n" sweeps "m" and leaves "n" over its limit. */
  method SetLeavesOverLimit() returns (store: CacheStore, r: Result<()>)
    ensures store.Valid() && store.limits == Limits(Some(1), None)
    ensures r == Ok(()) && !store.WithinLimits("n")
  {
    assert ValidIdentifier("n") && OLD_KEY.ns != "n" && LIVE_KEY.hash != NEW_KEY.hash;
    hide CutToCapacity, View, UniqueIds, Fits, DropsOnlyFrom, ExpiredRows, ValidIdentifier;
    store := OneExpiredOneLive();
    ghost var rows, e := store.entries, Entry(store.nextId, "b", "", None, SECOND);
    assert InNamespace(rows, "n", 0) - {OLD_KEY} == {LIVE_KEY};
    r := store.Set("n", "b", "", None, SECOND);
    SweepLeavesOverLimit(rows, store.generations, SECOND, store.limits, NEW_KEY, e, store.entries);
  }

  // ----- A write that evicts its own key -----

  const TWO_BYTES := Limits(None, Some(2))

  lemma OneByteEach(rows: Rows, kept: set<Slot>)
    requires kept <= rows.Keys
    requires forall s | s in kept :: |rows[s].value| == 1
    requires |kept| <= 2
    ensures Fits(rows, kept, TWO_BYTES)
  {
    SumOfOnes(rows, kept);
  }

  lemma {:induction false} SumOfOnes(rows: Rows, kept: set<Slot>)
    requires kept <= rows.Keys && forall s | s in kept :: |rows[s].value| == 1
    ensures Sum(kept, SizeOf(rows)) == |kept|
    decreases kept
  {
    if kept != {} {
      var s :| s in kept;
      SumRemove(kept, SizeOf(rows), s);
      SumOfOnes(rows, kept - {s});
    }
  }

  /** Two keys of one byte each, the first older than the second, in a namespace of two bytes. */
  method TwoSmallKeys() returns (store: CacheStore)
    ensures fresh(store) && store.Valid() && store.limits == TWO_BYTES
    ensures store.generations == map["n" := 0] && store.SlotOf("n", "a") == LIVE_KEY
    ensures store.entries.Keys == {LIVE_KEY, NEW_KEY} && store.hash("b") == "b"
    ensures store.entries[LIVE_KEY] == Entry(store.entries[LIVE_KEY].id, "a", "x", None, 0)
    ensures store.entries[NEW_KEY] == Entry(store.entries[NEW_KEY].id, "b", "x", None, 1)
  {
    assert ValidIdentifier("n") && LIVE_KEY.hash != NEW_KEY.hash;
    hide CutToCapacity, View, UniqueIds, ValidIdentifier, Fits;
    store := new CacheStore(TWO_BYTES, key => key);
    ghost var first := store.entries[LIVE_KEY := store.Overwritten(LIVE_KEY, "a", Item("x", None), 0)];
    assert InNamespace(first, "n", 0) == {LIVE_KEY};
    OneByteEach(first, {LIVE_KEY});
    SetFits(store, "n", "a", "x", None, 0);
    ghost var second := store.entries[NEW_KEY := store.Overwritten(NEW_KEY, "b", Item("x", None), 1)];
    assert InNamespace(second, "n", 0) == {LIVE_KEY, NEW_KEY};
    OneByteEach(second, {LIVE_KEY, NEW_KEY});
    SetFits(store, "n", "b", "x", None, 1);
  }

  /** Overwriting the older of the two keys with two bytes evicts it: it keeps its last access. */
  lemma OlderKeyIsEvicted(rows: Rows, now: int)
    requires rows.Keys == {LIVE_KEY, NEW_KEY} && rows[LIVE_KEY].expiresAt.None? && rows[NEW_KEY].expiresAt.None?
    requires |rows[LIVE_KEY].value| == 2 && |rows[NEW_KEY].value| == 1
    requires rows[LIVE_KEY].lastAccess < rows[NEW_KEY].lastAccess
    ensures !Survives(rows, LIVE_KEY, now, TWO_BYTES) && Survives(rows, NEW_KEY, now, TWO_BYTES)
  {
    var all := InNamespace(rows, "n", 0);
    assert LIVE_KEY != NEW_KEY && all == {LIVE_KEY, NEW_KEY} && ExpiredRows(rows, now) == {};
    assert Older(rows, all, LIVE_KEY) == {} && all - {} == all;
    assert Older(rows, all, NEW_KEY) == {LIVE_KEY} && all - {LIVE_KEY} == {NEW_KEY};
    SumRemove(all, SizeOf(rows), LIVE_KEY);
    SumOfOnes(rows, {NEW_KEY});
  }

  /** A set that returns Ok and whose value nobody can read. */
  method SetEvictsItsOwnKey() returns (store: CacheStore, r: Result<()>)
    ensures store.Valid() && r == Ok(())
    ensures Address("n", "a") !in store.Contents(2) && Address("n", "b") in store.Contents(2)
  {
    assert ValidIdentifier("n") && LIVE_KEY != NEW_KEY;
    hide CutToCapacity, View, UniqueIds, ValidIdentifier, Fits, Survives, DropsOnlyFrom, ExpiredRows, InNamespace;
    store := TwoSmallKeys();
    ghost var e := store.Overwritten(LIVE_KEY, "a", Item("xx", None), 2);
    ghost var written := store.entries[LIVE_KEY := e];
    UniqueAfterWrite(store.entries, LIVE_KEY, e, store.nextId);
    OlderKeyIsEvicted(written, 2);
    r := store.Set("n", "a", "xx", None, 2);
    assert store.generations == map["n" := 0];
    ReadBackIff(written, store.generations, store.hash, 2, store.limits, NEW_KEY, store.entries);
  }

  /** A delete that reports a key which no caller could see. */
  method DeleteReportsExpired() returns (store: CacheStore, ghost visible: bool, r: Result<bool>)
    ensures store.Valid() && r == Ok(true) && !visible
  {
    assert ValidIdentifier("m");
    store := OneExpiredOneLive();
    assert OLD_KEY in ExpiredRows(store.entries, SECOND);
    hide CutToCapacity, View, UniqueIds, ValidIdentifier, ExpiredRows;
    ViewIsLookup(store.generations, store.entries, store.hash, SECOND, "m", "a");
    visible := Address("m", "a") in store.Contents(SECOND);
    r := store.Delete("m", "a", SECOND);
  }

  /** With a collision-free hash no slot is ever taken by another key. */
  lemma InjectiveHashNeverCollides(rows: Rows, h: Hash, s: Slot, key: string)
    requires forall k, k' | h(k) == h(k') :: k == k'
    requires forall t | t in rows :: t.hash == h(rows[t].key)
    requires s.hash == h(key)
    ensures Collision(rows, s, key) == {}
  {
  }

  /** Losing a colliding key is losing a key of the namespace. */
  lemma CollisionIsADrop(v: Contents, taken: set<Address>, a: Address, item: Item, after: Contents)
    requires forall b | b in taken :: b.ns == a.ns
    requires DropsOnlyFrom(a.ns, (v - taken)[a := item], after)
    ensures Performed(Wrote(a, item), v, after)
  {
  }

  /** Without limits and collisions a write is a map update and nothing else. */
  lemma UnlimitedWriteIsExact(
    rows: Rows, gens: Generations, h: Hash, now: int, s: Slot, e: Entry, left: Rows)
    requires s.ns in gens && s.gen == gens[s.ns] && s.hash == h(e.key) && e.Live(now)
    requires s in rows ==> s.hash == h(rows[s].key)
    requires CutToCapacity(rows[s := e], gens, s.ns, now, Limits(None, None), left)
    requires Collision(rows, s, e.key) == {}
    ensures View(gens, left, h, now) == Plainly(View(gens, rows, h, now), Wrote(Address(s.ns, e.key), ItemOf(e)))
  {
    hide View;
    var none, written := Limits(None, None), rows[s := e];
    ViewPut(gens, rows, h, now, s, e);
    NothingTaken(View(gens, rows, h, now));
    if ExpiredRows(written, now) == {} {
      NothingCut(written, gens, s.ns, now, none, left);
    } else {
      var gone :| Enforced(written, gens, s.ns, now, none, gone) && left == written - gone;
      EnforcedAreRows(written, gens, s.ns, now, none, gone);
      ViewSweep(gens, written, h, now, gone);
    }
  }

  lemma WrittenItem(a: Address, item: Item, before: Contents, after: Contents)
    requires Performed(Wrote(a, item), before, after)
    ensures a in after ==> after[a] == item
  {
  }

  /** Every evicted row was used before every kept one, or at the same time and has the lower id. */
  ghost predicate OldestWent(rows: Rows, gone: set<Slot>, left: Rows, ns: string, gen: nat) {
    && gone <= rows.Keys
    && forall s, t | s in gone && t in left && t.ns == ns && t.gen == gen ::
         || rows[s].lastAccess < left[t].lastAccess
         || (rows[s].lastAccess == left[t].lastAccess && rows[s].id < left[t].id)
  }

  lemma OldestGoFirst(rows: Rows, ns: string, gen: nat, limits: Limits, gone: set<Slot>)
    requires UniqueIds(rows) && NeededPrefix(rows, InNamespace(rows, ns, gen), limits, gone)
    ensures OldestWent(rows, gone, rows - gone, ns, gen)
  {
    hide Fits;
  }

  lemma NothingTaken(v: Contents)
    ensures v - {} == v
  {
  }

  lemma KeyAdded(rows: Rows, s: Slot, e: Entry)
    ensures |rows[s := e]| <= |rows| + 1
  {
  }

  lemma KeysRemoved(rows: Rows, gone: set<Slot>)
    requires gone <= rows.Keys
    ensures |rows - gone| == |rows| - |gone|
  {
  }
}
