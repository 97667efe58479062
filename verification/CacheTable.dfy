/**
 The cache tables, the plain map with expiry that callers see through them, and the
 least-recently-used order in which rows are evicted.
 */
module CacheTable {
  import opened Wrappers
  import opened Collections

  type Bytes = string
  type Hash = string -> string

  const SECOND := 1000

  /** The unique key of cache_entries. */
  datatype Slot = Slot(ns: string, gen: nat, hash: string)

  datatype Entry = Entry(id: nat, key: string, value: Bytes, expiresAt: Option<int>, lastAccess: int)
  {
    predicate Live(now: int) {
      expiresAt.None? || now < expiresAt.value
    }
  }

  type Rows = map<Slot, Entry>

  /** cache_namespaces: the current generation of each namespace. */
  type Generations = map<string, nat>

  function Expiry(ttl: Option<int>, now: int): Option<int> {
    if ttl.Some? then Some(now + ttl.value * SECOND) else None
  }

  // ----- What callers see -----

  datatype Address = Address(ns: string, key: string)

  datatype Item = Item(value: Bytes, expiresAt: Option<int>)

  type Contents = map<Address, Item>

  /** The row a `get` issued now would hit. */
  predicate Visible(gens: Generations, rows: Rows, h: Hash, now: int, s: Slot) {
    && s in rows && s.ns in gens && s.gen == gens[s.ns]
    && s.hash == h(rows[s].key) && rows[s].Live(now)
  }

  function AddressOf(rows: Rows, s: Slot): Address
    requires s in rows
  {
    Address(s.ns, rows[s].key)
  }

  function ItemOf(e: Entry): Item {
    Item(e.value, e.expiresAt)
  }

  function View(gens: Generations, rows: Rows, h: Hash, now: int): Contents {
    map s | s in rows && Visible(gens, rows, h, now, s) :: AddressOf(rows, s) := ItemOf(rows[s])
  }

  /** Looking a key up by its hash, current generation and full key is looking it up in the view. */
  lemma ViewIsLookup(gens: Generations, rows: Rows, h: Hash, now: int, ns: string, key: string)
    requires ns in gens
    ensures var s := Slot(ns, gens[ns], h(key));
            var hit := s in rows && rows[s].key == key && rows[s].Live(now);
            && (hit <==> Address(ns, key) in View(gens, rows, h, now))
            && (hit ==> View(gens, rows, h, now)[Address(ns, key)] == ItemOf(rows[s]))
  {
  }

  predicate LiveItem(item: Item, now: int) {
    item.expiresAt.None? || now < item.expiresAt.value
  }

  /** What has not expired by `now`. */
  function LiveAt(v: Contents, now: int): Contents {
    map a | a in v && LiveItem(v[a], now) :: v[a]
  }

  /** Time alone only makes items expire. */
  lemma ViewLater(gens: Generations, rows: Rows, h: Hash, now: int, later: int)
    requires now <= later
    ensures View(gens, rows, h, later) == LiveAt(View(gens, rows, h, now), later)
  {
    var v, v' := View(gens, rows, h, now), View(gens, rows, h, later);
    ViewKnowsNamespaces(gens, rows, h, now);
    ViewKnowsNamespaces(gens, rows, h, later);
    forall a: Address | a.ns in gens
      ensures a in v' <==> a in v && LiveItem(v[a], later)
      ensures a in v' ==> v'[a] == v[a]
    {
      ViewIsLookup(gens, rows, h, now, a.ns, a.key);
      ViewIsLookup(gens, rows, h, later, a.ns, a.key);
    }
    hide View;
    assert v'.Keys == LiveAt(v, later).Keys;
  }

  /** `after` is `before` without some addresses of namespace `ns`. */
  ghost predicate DropsOnlyFrom(ns: string, before: Contents, after: Contents) {
    && (forall a | a in after :: a in before && after[a] == before[a])
    && (forall a | a in before && a.ns != ns :: a in after)
  }

  /** What an operation does to the plain map. */
  datatype Act =
    | Wrote(address: Address, item: Item)
    | Erased(address: Address)
    | Cleared(ns: string)
    | Looked  // reads, sweeps and everything that fails

  /** The plain map after an operation. */
  function Plainly(v: Contents, act: Act): Contents {
    match act
    case Wrote(a, item) => v[a := item]
    case Erased(a) => v - {a}
    case Cleared(ns) => map a | a in v && a.ns != ns :: v[a]
    case Looked => v
  }

  /** An operation does what it does to a plain map; a write may also drop keys of its namespace. */
  ghost predicate Performed(act: Act, before: Contents, after: Contents) {
    if act.Wrote? then DropsOnlyFrom(act.address.ns, Plainly(before, act), after)
    else after == Plainly(before, act)
  }

  /** The address whose row a colliding key would overwrite, if any. */
  function Collision(rows: Rows, s: Slot, key: string): set<Address> {
    if s in rows && rows[s].key != key then {Address(s.ns, rows[s].key)} else {}
  }

  lemma ViewPut(gens: Generations, rows: Rows, h: Hash, now: int, s: Slot, e: Entry)
    requires s.ns in gens && s.gen == gens[s.ns] && s.hash == h(e.key) && e.Live(now)
    requires s in rows ==> s.hash == h(rows[s].key)
    ensures View(gens, rows[s := e], h, now)
            == (View(gens, rows, h, now) - Collision(rows, s, e.key))[Address(s.ns, e.key) := ItemOf(e)]
  {
    hide View, Visible;
    var rows' := rows[s := e];
    var v, v' := View(gens, rows, h, now), View(gens, rows', h, now);
    var spec := (v - Collision(rows, s, e.key))[Address(s.ns, e.key) := ItemOf(e)];
    ViewKnowsNamespaces(gens, rows, h, now);
    ViewKnowsNamespaces(gens, rows', h, now);
    forall a: Address | a.ns in gens
      ensures a in v' <==> a in spec
      ensures a in v' ==> v'[a] == spec[a]
    {
      ViewIsLookup(gens, rows, h, now, a.ns, a.key);
      ViewIsLookup(gens, rows', h, now, a.ns, a.key);
    }
    assert v'.Keys == spec.Keys;
  }

  lemma ViewRemove(gens: Generations, rows: Rows, h: Hash, now: int, gone: set<Slot>)
    ensures View(gens, rows - gone, h, now)
            == View(gens, rows, h, now) - (set s | s in gone && Visible(gens, rows, h, now, s) :: AddressOf(rows, s))
  {
  }

  /** Removing rows that no caller can see changes nothing for anyone. */
  lemma ViewSweep(gens: Generations, rows: Rows, h: Hash, now: int, gone: set<Slot>)
    requires forall s | s in gone && s in rows :: !rows[s].Live(now)
    ensures View(gens, rows - gone, h, now) == View(gens, rows, h, now)
  {
  }

  /** A namespace without rows of its own appears empty. */
  lemma ViewEnsure(gens: Generations, rows: Rows, h: Hash, now: int, ns: string)
    requires ns !in gens && forall s | s in rows :: s.ns != ns
    ensures View(gens[ns := 0], rows, h, now) == View(gens, rows, h, now)
  {
  }

  lemma ViewKnowsNamespaces(gens: Generations, rows: Rows, h: Hash, now: int)
    ensures forall a | a in View(gens, rows, h, now) :: a.ns in gens
  {
  }

  lemma ViewTouch(gens: Generations, rows: Rows, h: Hash, now: int, s: Slot, e: Entry)
    requires s in rows && e == rows[s].(lastAccess := e.lastAccess)
    ensures View(gens, rows[s := e], h, now) == View(gens, rows, h, now)
  {
    var rows' := rows[s := e];
    forall t | t in rows
      ensures Visible(gens, rows', h, now, t) == Visible(gens, rows, h, now, t)
      ensures AddressOf(rows', t) == AddressOf(rows, t) && ItemOf(rows'[t]) == ItemOf(rows[t])
    {
    }
  }

  lemma ViewDelete(gens: Generations, rows: Rows, h: Hash, now: int, s: Slot)
    requires s in rows && s.ns in gens && s.gen == gens[s.ns] && s.hash == h(rows[s].key)
    ensures View(gens, rows - {s}, h, now) == View(gens, rows, h, now) - {AddressOf(rows, s)}
  {
  }

  lemma ViewInvalidate(gens: Generations, rows: Rows, h: Hash, now: int, ns: string, stale: set<Slot>)
    requires ns in gens && forall s | s in rows && s.ns == ns :: s.gen <= gens[ns]
    requires stale == set s | s in rows && s.ns == ns && s.gen < gens[ns] + 1
    ensures var v := View(gens, rows, h, now);
            View(gens[ns := gens[ns] + 1], rows - stale, h, now) == map a | a in v && a.ns != ns :: v[a]
  {
    var gens', rows' := gens[ns := gens[ns] + 1], rows - stale;
    var v, v' := View(gens, rows, h, now), View(gens', rows', h, now);
    forall a: Address | a.ns in gens
      ensures a in v' <==> a in v && a.ns != ns
      ensures a in v' ==> v'[a] == v[a]
    {
      ViewIsLookup(gens, rows, h, now, a.ns, a.key);
      ViewIsLookup(gens', rows', h, now, a.ns, a.key);
    }
  }

  // ----- Capacity -----

  datatype Limits = Limits(maxKeys: Option<int>, maxBytes: Option<int>)
  {
    /** Limits are positive when given. */
    predicate Valid() {
      (maxKeys.Some? ==> 0 < maxKeys.value) && (maxBytes.Some? ==> 0 < maxBytes.value)
    }
  }

  function SizeOf(rows: Rows): Slot -> int {
    s => if s in rows then |rows[s].value| else 0
  }

  function InNamespace(rows: Rows, ns: string, gen: nat): set<Slot> {
    set s | s in rows && s.ns == ns && s.gen == gen
  }

  ghost predicate Fits(rows: Rows, kept: set<Slot>, limits: Limits) {
    && (limits.maxKeys.Some? ==> |kept| <= limits.maxKeys.value)
    && (limits.maxBytes.Some? ==> Sum(kept, SizeOf(rows)) <= limits.maxBytes.value)
  }

  /** ORDER BY last_accessed_at, id. */
  predicate Before(rows: Rows, s: Slot, t: Slot) {
    && s in rows && t in rows
    && (rows[s].lastAccess < rows[t].lastAccess
        || (rows[s].lastAccess == rows[t].lastAccess && rows[s].id < rows[t].id))
  }

  ghost predicate UniqueIds(rows: Rows) {
    forall s, t | s in rows && t in rows && rows[s].id == rows[t].id :: s == t
  }

  /** `gone` is a prefix of `all` in eviction order. */
  ghost predicate Prefix(rows: Rows, all: set<Slot>, gone: set<Slot>) {
    gone <= all && forall s, t | t in gone && s in all && Before(rows, s, t) :: s in gone
  }

  /** `gone` is a prefix that every prefix sufficient for the limits contains. */
  ghost predicate NeededPrefix(rows: Rows, all: set<Slot>, limits: Limits, gone: set<Slot>) {
    && Prefix(rows, all, gone)
    && forall other | Prefix(rows, all, other) && Fits(rows, all - other, limits) :: gone <= other
  }

  /** `gone` is the shortest prefix whose removal brings `all` within both limits. */
  ghost predicate ShortestPrefix(rows: Rows, all: set<Slot>, limits: Limits, gone: set<Slot>) {
    NeededPrefix(rows, all, limits, gone) && Fits(rows, all - gone, limits)
  }

  lemma ShortestPrefixUnique(rows: Rows, all: set<Slot>, limits: Limits, a: set<Slot>, b: set<Slot>)
    requires ShortestPrefix(rows, all, limits, a) && ShortestPrefix(rows, all, limits, b)
    ensures a == b
  {
  }

  /** Fewer rows fit where more did. */
  lemma FewerFit(rows: Rows, kept: set<Slot>, fewer: set<Slot>, limits: Limits)
    requires fewer <= kept && Fits(rows, kept, limits)
    ensures Fits(rows, fewer, limits)
  {
    SubsetSize(fewer, kept);
    SumOfSubset(fewer, kept, SizeOf(rows));
  }

  /** The rows that are evicted before `s`. */
  function Older(rows: Rows, all: set<Slot>, s: Slot): set<Slot> {
    set t | t in all && Before(rows, t, s)
  }

  lemma OlderIsPrefix(rows: Rows, all: set<Slot>, s: Slot)
    ensures Prefix(rows, all, Older(rows, all, s))
  {
  }

  /** A prefix without `s` holds only older rows. */
  lemma PrefixBefore(rows: Rows, all: set<Slot>, gone: set<Slot>, s: Slot)
    requires all <= rows.Keys && UniqueIds(rows) && Prefix(rows, all, gone) && s in all && s !in gone
    ensures gone <= Older(rows, all, s)
  {
    forall t | t in gone
      ensures Before(rows, t, s)
    {
      assert Before(rows, s, t) || Before(rows, t, s) || s == t;
    }
  }

  /** A row survives exact eviction exactly when removing all older rows is enough. */
  lemma SurvivesEvictionIff(rows: Rows, all: set<Slot>, limits: Limits, gone: set<Slot>, s: Slot)
    requires all <= rows.Keys && UniqueIds(rows) && ShortestPrefix(rows, all, limits, gone) && s in all
    ensures s !in gone <==> Fits(rows, all - Older(rows, all, s), limits)
  {
    hide Fits, UniqueIds, Before;
    OlderIsPrefix(rows, all, s);
    NotOlder(rows, all, s);
    if s !in gone {
      PrefixBefore(rows, all, gone, s);
      FewerFit(rows, all - gone, all - Older(rows, all, s), limits);
    }
  }

  lemma NotOlder(rows: Rows, all: set<Slot>, s: Slot)
    ensures s !in Older(rows, all, s)
  {
  }

  /** The next victim exists. */
  lemma Oldest(rows: Rows, left: set<Slot>) returns (v: Slot)
    requires left != {} && left <= rows.Keys && UniqueIds(rows)
    ensures v in left && forall s | s in left && s != v :: Before(rows, v, s)
    decreases left
  {
    var x :| x in left;
    v := x;
    if left != {x} {
      var y := Oldest(rows, left - {x});
      v := if Before(rows, y, x) then y else x;
      assert forall s | s in left && s != x :: s in left - {x};
    } else {
      assert forall s | s in left :: s in {x};
    }
  }

  /** While the limits are exceeded, every sufficient prefix reaches past what is already gone. */
  lemma NextVictim(rows: Rows, all: set<Slot>, limits: Limits, gone: set<Slot>, v: Slot)
    requires all <= rows.Keys && NeededPrefix(rows, all, limits, gone) && !Fits(rows, all - gone, limits)
    requires v in all - gone && forall s | s in all - gone && s != v :: Before(rows - gone, v, s)
    ensures NeededPrefix(rows, all, limits, gone + {v})
  {
    hide Fits;
    forall s | s in all && s !in gone && s != v
      ensures Before(rows, v, s)
    {
      assert s in all - gone;
    }
    forall s, t | t in gone + {v} && s in all && Before(rows, s, t)
      ensures s in gone + {v}
    {
    }
    forall other | Prefix(rows, all, other) && Fits(rows, all - other, limits)
      ensures gone + {v} <= other
    {
      assert gone <= other && other != gone;
      var s :| s in other && s !in gone;
      assert s == v || Before(rows, v, s);
    }
  }

  lemma FewerUniqueIds(rows: Rows, gone: set<Slot>)
    requires UniqueIds(rows)
    ensures UniqueIds(rows - gone)
  {
  }

  lemma EmptyPrefix(rows: Rows, all: set<Slot>, limits: Limits)
    ensures NeededPrefix(rows, all, limits, {})
  {
  }

  /** The two loop variables of the eviction loop say whether the limits hold. */
  lemma FitsByCounters(rows: Rows, left: set<Slot>, limits: Limits, excess: int, bytes: int)
    requires limits.maxKeys.Some? ==> excess == |left| - limits.maxKeys.value
    requires limits.maxKeys.None? ==> excess <= 0
    requires limits.maxBytes.Some? ==> bytes == Sum(left, SizeOf(rows))
    ensures Fits(rows, left, limits) <==> excess <= 0 && (limits.maxBytes.Some? ==> bytes <= limits.maxBytes.value)
    ensures limits.Valid() && left == {} ==> Fits(rows, left, limits)
  {
  }

  lemma SizeStable(rows: Rows, gone: set<Slot>, kept: set<Slot>)
    requires kept <= rows.Keys && kept !! gone
    ensures Sum(kept, SizeOf(rows - gone)) == Sum(kept, SizeOf(rows))
  {
  }

  /** Limits are judged the same before and after other rows are removed. */
  lemma FitsAfterRemoval(rows: Rows, gone: set<Slot>, kept: set<Slot>, limits: Limits)
    requires kept <= rows.Keys && kept !! gone
    ensures Fits(rows - gone, kept, limits) <==> Fits(rows, kept, limits)
  {
    SizeStable(rows, gone, kept);
  }

  /** Bookkeeping of one eviction. */
  lemma EvictOne(rows: Rows, all: set<Slot>, gone: set<Slot>, v: Slot)
    requires all <= rows.Keys && gone <= all && v in all - gone
    ensures gone + {v} <= all && (all - gone) - {v} == all - (gone + {v})
    ensures (rows - gone) - {v} == rows - (gone + {v})
    ensures |all - (gone + {v})| == |all - gone| - 1
    ensures all - (gone + {v}) <= (rows - (gone + {v})).Keys
  {
  }
}
