/**
 The cache over whole sequences of operations. Between operations time passes and items
 expire; each operation does to what callers see what it does to a plain map with expiry,
 and a write may drop keys of its namespace. So the cache never shows anything but what the
 plain map holds, it forgets only by such drops, and without drops it is the plain map.
 */
module CacheRuns {
  import opened Wrappers
  import opened CacheTable

  /** One operation at `now`: what callers could see just before and just after it. */
  datatype Moment = Moment(now: int, act: Act, before: Contents, after: Contents)

  /** What was there when the first `k` operations were over. */
  function Left(ms: seq<Moment>, k: nat): Contents
    requires k <= |ms|
  {
    if k == 0 then map[] else ms[k - 1].after
  }

  /** Operations in the order of time, on a cache that nothing but them and time changes. */
  ghost predicate Session(ms: seq<Moment>) {
    && (forall i, j | 0 <= i < j < |ms| :: ms[i].now <= ms[j].now)
    && (forall i | 0 <= i < |ms| ::
          && ms[i].before == LiveAt(Left(ms, i), ms[i].now)
          && Performed(ms[i].act, ms[i].before, ms[i].after))
  }

  /** The plain map with expiry after the same first `k` operations. */
  function PlainMap(ms: seq<Moment>, k: nat): Contents
    requires k <= |ms|
  {
    if k == 0 then map[] else Plainly(LiveAt(PlainMap(ms, k - 1), ms[k - 1].now), ms[k - 1].act)
  }

  ghost predicate Within(v: Contents, w: Contents) {
    forall a | a in v :: a in w && v[a] == w[a]
  }

  lemma SessionAt(ms: seq<Moment>, i: nat)
    requires Session(ms) && i < |ms|
    ensures ms[i].before == LiveAt(Left(ms, i), ms[i].now) && Performed(ms[i].act, ms[i].before, ms[i].after)
  {
    hide LiveAt, Performed;
  }

  lemma WithinStep(v: Contents, w: Contents, m: Moment)
    requires Within(v, w) && m.before == LiveAt(v, m.now) && Performed(m.act, m.before, m.after)
    ensures Within(m.after, Plainly(LiveAt(w, m.now), m.act))
  {
  }

  /** Whatever the cache shows, the plain map holds, with the same value and expiry. */
  lemma {:induction false} NeverInvents(ms: seq<Moment>, k: nat)
    requires Session(ms) && k <= |ms|
    ensures Within(Left(ms, k), PlainMap(ms, k))
  {
    hide Session, LiveAt, Performed, Plainly;
    if k > 0 {
      NeverInvents(ms, k - 1);
      SessionAt(ms, k - 1);
      hide Within;
      WithinStep(Left(ms, k - 1), PlainMap(ms, k - 1), ms[k - 1]);
    }
  }

  /** A write that dropped `a` from its namespace, as a plain map would not have done. */
  ghost predicate Drops(m: Moment, a: Address) {
    m.act.Wrote? && m.act.address.ns == a.ns && a in Plainly(m.before, m.act) && a !in m.after
  }

  ghost predicate Writes(m: Moment, a: Address) {
    m.act.Wrote? && m.act.address == a
  }

  lemma ForgottenStep(v: Contents, w: Contents, m: Moment, a: Address)
    requires Within(v, w) && m.before == LiveAt(v, m.now) && Performed(m.act, m.before, m.after)
    requires a in Plainly(LiveAt(w, m.now), m.act) && a !in m.after
    ensures Drops(m, a) || (a in w && a !in v && !Writes(m, a))
  {
  }

  /**
   A key that the plain map still holds is missed only because a write to its namespace
   dropped it, and it has not been written since.
   */
  lemma {:induction false} ForgetsOnlyByDrops(ms: seq<Moment>, k: nat, a: Address) returns (i: nat)
    requires Session(ms) && k <= |ms| && a in PlainMap(ms, k) && a !in Left(ms, k)
    ensures i < k && Drops(ms[i], a) && forall j | i < j < k :: !Writes(ms[j], a)
  {
    hide Session, LiveAt, Performed, Plainly, Drops, Within;
    NeverInvents(ms, k - 1);
    SessionAt(ms, k - 1);
    ForgottenStep(Left(ms, k - 1), PlainMap(ms, k - 1), ms[k - 1], a);
    if Drops(ms[k - 1], a) {
      i := k - 1;
    } else {
      i := ForgetsOnlyByDrops(ms, k - 1, a);
    }
  }

  lemma ExactStep(m: Moment)
    requires Performed(m.act, m.before, m.after) && forall a :: !Drops(m, a)
    ensures m.after == Plainly(m.before, m.act)
  {
    if m.act.Wrote? {
      forall a | a in Plainly(m.before, m.act)
        ensures a in m.after
      {
        assert !Drops(m, a);
      }
      assert m.after.Keys == Plainly(m.before, m.act).Keys;
    }
  }

  /** A session in which no write drops anything is the plain map. */
  lemma {:induction false} WithoutDropsExact(ms: seq<Moment>, k: nat)
    requires Session(ms) && k <= |ms| && forall i, a | 0 <= i < k :: !Drops(ms[i], a)
    ensures Left(ms, k) == PlainMap(ms, k)
  {
    hide Session, LiveAt, Performed, Plainly, Drops;
    if k > 0 {
      WithoutDropsExact(ms, k - 1);
      SessionAt(ms, k - 1);
      ExactStep(ms[k - 1]);
    }
  }
}
