/** How often something occurs in a list. */
module Counting {
  function Times<T(==)>(ts: seq<T>, t: T): nat {
    if ts == [] then 0 else Times(ts[..|ts| - 1], t) + if ts[|ts| - 1] == t then 1 else 0
  }

  lemma TimesSnoc<T>(ts: seq<T>, u: T, t: T)
    ensures Times(ts + [u], t) == Times(ts, t) + if u == t then 1 else 0
  {
    assert (ts + [u])[..|ts|] == ts;
  }

  lemma {:induction false} TimesConcat<T>(a: seq<T>, b: seq<T>, t: T)
    ensures Times(a + b, t) == Times(a, t) + Times(b, t)
    decreases |b|
  {
    if b == [] {
      assert a + b == a;
    } else {
      assert (a + b)[..|a + b| - 1] == a + b[..|b| - 1];
      TimesConcat(a, b[..|b| - 1], t);
    }
  }

  lemma TimesRemove<T>(ts: seq<T>, i: nat, t: T)
    requires i < |ts|
    ensures Times(ts[..i] + ts[i + 1..], t) + (if ts[i] == t then 1 else 0) == Times(ts, t)
  {
    SplitAt(ts, i);
    TimesAround(ts[..i], ts[i], ts[i + 1..], t);
  }

  lemma SplitAt<T>(ts: seq<T>, i: nat)
    requires i < |ts|
    ensures ts == ts[..i] + [ts[i]] + ts[i + 1..]
  {}

  lemma TimesAround<T>(a: seq<T>, u: T, b: seq<T>, t: T)
    ensures Times(a + b, t) + (if u == t then 1 else 0) == Times(a + [u] + b, t)
  {
    TimesConcat(a, b, t);
    TimesConcat(a + [u], b, t);
    TimesSnoc(a, u, t);
  }

  lemma TimesTail<T>(ts: seq<T>, t: T)
    requires ts != []
    ensures Times(ts[1..], t) + (if ts[0] == t then 1 else 0) == Times(ts, t)
  {
    TimesRemove(ts, 0, t);
    assert ts[..0] + ts[1..] == ts[1..];
  }

  lemma {:induction false} TimesMember<T>(ts: seq<T>, t: T)
    ensures Times(ts, t) > 0 <==> t in ts
    decreases |ts|
  {
    if ts != [] {
      var n := |ts| - 1;
      TimesMember(ts[..n], t);
      assert ts == ts[..n] + [ts[n]];
    }
  }
}
