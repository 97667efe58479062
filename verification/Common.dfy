/** Failure-carrying results, shared by every store. */
module Wrappers {
  datatype Option<+T> = None | Some(value: T)

  /** The error kinds of PgAppError that the modelled operations can return. */
  datatype Error = InvalidArgument | NotFound | Database

  datatype Result<+T> = Ok(value: T) | Err(error: Error)
}

/** Facts about finite sets that SQL's ORDER BY ... LIMIT, COUNT and SUM rest on. */
module Collections {
  lemma Least(s: set<nat>) returns (m: nat)
    requires s != {}
    ensures m in s && forall x | x in s :: m <= x
  {
    var y :| y in s;
    m := y;
    if s != {y} {
      var rest := Least(s - {y});
      m := if rest < y then rest else y;
      assert forall x | x in s && x != y :: x in s - {y};
    } else {
      assert forall x | x in s :: x in {y};
    }
  }

  function Min(s: set<nat>): (m: nat)
    requires s != {}
    ensures m in s && forall x | x in s :: m <= x
  {
    assert exists m :: m in s && forall x | x in s :: m <= x by {
      var m := Least(s);
    }
    var m :| m in s && forall x | x in s :: m <= x;
    m
  }

  lemma {:induction false} Greatest(s: set<nat>) returns (m: nat)
    requires s != {}
    ensures m in s && forall x | x in s :: x <= m
  {
    var y :| y in s;
    m := y;
    if s != {y} {
      var rest := Greatest(s - {y});
      m := if rest > y then rest else y;
      assert forall x | x in s && x != y :: x in s - {y};
    } else {
      assert forall x | x in s :: x in {y};
    }
  }

  function Max(s: set<nat>): (m: nat)
    requires s != {}
    ensures m in s && forall x | x in s :: x <= m
  {
    assert exists m :: m in s && forall x | x in s :: x <= m by {
      var m := Greatest(s);
    }
    var m :| m in s && forall x | x in s :: x <= m;
    m
  }

  /** SELECT ... ORDER BY id LIMIT n, as the set of ids it returns. */
  function Lowest(s: set<nat>, n: nat): (r: set<nat>)
    ensures r <= s
    ensures |r| == if n < |s| then n else |s|
    ensures forall x, y | x in r && y in s && y !in r :: x < y
  {
    if n == 0 || s == {} then
      {}
    else
      var m := Min(s);
      var rest := Lowest(s - {m}, n - 1);
      assert forall y | y in s && y != m :: y in s - {m};
      {m} + rest
  }

  /** A subset of the right size whose members precede everything left out is the only one. */
  lemma LowestUnique(s: set<nat>, n: nat, r: set<nat>)
    requires r <= s
    requires |r| == if n < |s| then n else |s|
    requires forall x, y | x in r && y in s && y !in r :: x < y
    ensures r == Lowest(s, n)
  {
    var l := Lowest(s, n);
    if !(r <= l) {
      var x :| x in r && x !in l;
      assert forall y | y in l :: y < x;
      assert l <= r;
      ProperSubsetSmaller(l, r);
    } else if r != l {
      ProperSubsetSmaller(r, l);
    }
  }

  /** A member is among the `n` lowest exactly when fewer than `n` members precede it. */
  lemma InLowestIff(s: set<nat>, n: nat, x: nat)
    requires x in s
    ensures x in Lowest(s, n) <==> |set y | y in s && y < x| < n
  {
    var l := Lowest(s, n);
    var ahead := set y | y in s && y < x;
    if x in l {
      assert ahead <= l - {x};
      SubsetSize(ahead, l - {x});
    } else {
      assert l <= ahead;
      SubsetSize(l, ahead);
      if |s| <= n {
        ProperSubsetSmaller(l, s);
      }
    }
  }

  lemma ProperSubsetSmaller<T>(a: set<T>, b: set<T>)
    requires a < b
    ensures |a| < |b|
  {
    assert b == a + (b - a);
    assert |b| == |a| + |b - a|;
  }

  lemma SubsetSize<T>(a: set<T>, b: set<T>)
    requires a <= b
    ensures |a| <= |b|
  {
    assert b == a + (b - a);
  }

  /** Sets that a function matches one to one have the same size. */
  lemma {:induction false} SameSize<T(!new)>(s: set<T>, t: set<nat>, f: T -> nat)
    requires forall x, y | x in s && y in s && f(x) == f(y) :: x == y
    requires forall x | x in s :: f(x) in t
    requires forall n | n in t :: exists x :: x in s && f(x) == n
    ensures |s| == |t|
    decreases s
  {
    if s == {} {
      assert t == {};
    } else {
      var x :| x in s;
      forall n | n in t - {f(x)}
        ensures exists y :: y in s - {x} && f(y) == n
      {
        var y :| y in s && f(y) == n;
        assert y in s - {x};
      }
      SameSize(s - {x}, t - {f(x)}, f);
    }
  }

  /** SUM(weight) over a set of rows. */
  ghost function Sum<T(!new)>(s: set<T>, weight: T -> int): int
  {
    if s == {} then 0 else
      var x :| x in s;
      weight(x) + Sum(s - {x}, weight)
  }

  lemma {:induction false} SumRemove<T(!new)>(s: set<T>, weight: T -> int, x: T)
    requires x in s
    ensures Sum(s, weight) == weight(x) + Sum(s - {x}, weight)
    decreases s
  {
    var y :| y in s && Sum(s, weight) == weight(y) + Sum(s - {y}, weight);
    if y != x {
      SumRemove(s - {y}, weight, x);
      SumRemove(s - {x}, weight, y);
      assert s - {x} - {y} == s - {y} - {x};
    }
  }

  /** A smaller set of smaller weights has a smaller sum, strictly if a row left or shrank. */
  lemma {:induction false} SumMonotone<T(!new)>(small: set<T>, large: set<T>, f: T -> int, g: T -> int)
    requires small <= large
    requires forall x | x in large :: 0 < g(x)
    requires forall x | x in small :: f(x) <= g(x)
    ensures Sum(small, f) <= Sum(large, g)
    ensures (small != large || exists x :: x in small && f(x) < g(x)) ==> Sum(small, f) < Sum(large, g)
    decreases large
  {
    if large == {} {
    } else {
      var x :| x in large;
      SumRemove(large, g, x);
      if x in small {
        SumRemove(small, f, x);
      } else {
        assert small - {x} == small;
      }
      SumMonotone(small - {x}, large - {x}, f, g);
      if small != large || exists y :: y in small && f(y) < g(y) {
        if x in small && f(x) == g(x) {
          if small != large {
            assert !(large <= small);
            var z :| z in large && z !in small;
            assert z in (large - {x}) - (small - {x});
          } else {
            var y :| y in small && f(y) < g(y);
            assert y in small - {x};
          }
        }
      }
    }
  }

  lemma {:induction false} SumNonNegative<T(!new)>(s: set<T>, weight: T -> int)
    requires forall x | x in s :: 0 <= weight(x)
    ensures 0 <= Sum(s, weight)
    decreases s
  {
    if s != {} {
      var x :| x in s;
      SumRemove(s, weight, x);
      SumNonNegative(s - {x}, weight);
    }
  }

  lemma {:induction false} SumOfSubset<T(!new)>(small: set<T>, large: set<T>, weight: T -> int)
    requires small <= large && forall x | x in large :: 0 <= weight(x)
    ensures Sum(small, weight) <= Sum(large, weight)
    decreases large
  {
    if large != {} {
      var x :| x in large;
      SumRemove(large, weight, x);
      if x in small {
        SumRemove(small, weight, x);
      } else {
        assert small - {x} == small;
      }
      SumOfSubset(small - {x}, large - {x}, weight);
    }
  }
}
