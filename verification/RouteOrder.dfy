/** Registration order does not matter, and what a rejected registration leaves behind. */
module RouteOrder {
  import opened Wrappers
  import opened Http
  import opened RouteTable

  // ---------------------------------------------------------------- when a registration succeeds

  ghost predicate Named(segs: seq<string>) {
    forall i :: 0 <= i < |segs| ==> SegOf(segs[i]) != Param("")
  }

  /** Two patterns that name the parameter at one position differently. */
  ghost predicate Clash(p: Pattern, q: Pattern) {
    exists i :: ClashAt(p, q, i)
  }

  ghost predicate ClashAt(p: Pattern, q: Pattern, i: int) {
    && 0 <= i < |p| && i < |q| && p[i].Param? && q[i].Param?
    && p[i].name != q[i].name && p[..i] == q[..i]
  }

  ghost predicate ClashesBelow(t: Table, p: Pattern, k: nat) {
    exists q, i :: q in t && k <= i && ClashAt(p, q, i)
  }

  lemma NamedTail(segs: seq<string>)
    requires segs != []
    ensures Named(segs) <==> SegOf(segs[0]) != Param("") && Named(segs[1..])
  {
    assert forall i :: 0 <= i < |segs[1..]| ==> segs[1..][i] == segs[i + 1];
    assert forall i :: 0 < i < |segs| ==> segs[i] == segs[1..][i - 1];
  }

  lemma {:induction false} ResolveOkIff(t: Table, segs: seq<string>, at: Pattern)
    requires WellFormed(t) && at in t && Plain(segs)
    ensures Resolve(t, segs, at).node.Ok? <==>
            Named(segs) && !ClashesBelow(t, at + PatternOf(segs), |at|)
    decreases |segs|
  {
    var p := at + PatternOf(segs);
    if segs != [] {
      var s := SegOf(segs[0]);
      assert segs[0] in segs;
      PlainTail(segs);
      PatternStep(at, segs);
      assert p[..|at|] == at && p[|at|] == s;
      if s.Param? && HasParam(t, at) && ParamName(t, at) != s.name {
        var q := at + [Param(ParamName(t, at))];
        assert q[..|at|] == at;
        assert ClashAt(p, q, |at|);
      } else if s != Param("") {
        AddNodeKeeps(t, at, s);
        ResolveOkIff(AddNode(t, at + [s]), segs[1..], at + [s]);
        NoClashHere(t, at, s, p);
        NamedTail(segs);
      } else {
        assert SegOf(segs[0]) == Param("");
      }
    }
  }

  /** Stepping over a segment that does not clash leaves the clashes further down, old nodes only. */
  lemma NoClashHere(t: Table, at: Pattern, s: Seg, p: Pattern)
    requires WellFormed(t) && |at| < |p| && p[..|at|] == at && p[|at|] == s
    requires s.Param? && HasParam(t, at) ==> ParamName(t, at) == s.name
    ensures ClashesBelow(AddNode(t, at + [s]), p, |at| + 1) <==> ClashesBelow(t, p, |at|)
  {
    if q: Pattern, i :| q in t && |at| <= i && ClashAt(p, q, i) {
      if i == |at| {
        assert q[..i + 1] == at + [q[i]];
        OnlyParam(t, at, q[i].name);
      }
      assert q in AddNode(t, at + [s]) && ClashAt(p, q, i) && |at| + 1 <= i;
    }
  }

  /** A registration succeeds exactly when its parameters are named, it clashes with no registered
      pattern, and its method is still free there. */
  lemma SuccessIff(t: Table, m: Method, segs: seq<string>, e: Entry)
    requires WellFormed(t) && Tight(t) && Plain(segs)
    ensures var p := PatternOf(segs);
            AddRoute(t, m, segs, e).error == None <==>
            Named(segs) && (forall q :: q in Routes(t) ==> !Clash(p, q)) && !(p in Routes(t) && m in Routes(t)[p])
  {
    var p := PatternOf(segs);
    assert [] + p == p;
    ResolveOkIff(t, segs, []);
    ResolveKeeps(t, segs, []);
    ClashWithRoutes(t, p);
    assert p in t && p !in Routes(t) ==> t[p] == map[];
    if Resolve(t, segs, []).node.Ok? { ResolvedNode(t, m, segs, e); }
  }

  lemma ResolvedNode(t: Table, m: Method, segs: seq<string>, e: Entry)
    requires WellFormed(t) && Plain(segs) && Resolve(t, segs, []).node.Ok?
    ensures var p := PatternOf(segs); AddRoute(t, m, segs, e).error == None <==> !(p in t && m in t[p])
  {
    ResolveKeeps(t, segs, []);
    assert [] + PatternOf(segs) == PatternOf(segs);
  }

  lemma ClashWithRoutes(t: Table, p: Pattern)
    requires WellFormed(t) && Tight(t)
    ensures ClashesBelow(t, p, 0) <==> exists q :: q in Routes(t) && Clash(p, q)
  {
    if q, i :| q in t && 0 <= i && ClashAt(p, q, i) {
      var r :| r in Routes(t) && q <= r;
      assert r[..i] == q[..i];
      assert ClashAt(p, r, i);
      assert Clash(p, r);
    }
    if q :| q in Routes(t) && Clash(p, q) {
      var i :| ClashAt(p, q, i);
      assert q in t && ClashAt(p, q, i);
    }
  }

  // ---------------------------------------------------------------- order independence

  ghost predicate Compatible(r: Registration, s: Registration) {
    var p, q := PatternOf(r.segs), PatternOf(s.segs);
    !Clash(p, q) && !(p == q && r.verb == s.verb)
  }

  ghost predicate PairwiseCompatible(rs: seq<Registration>) {
    && (forall r :: r in rs ==> Named(r.segs))
    && forall i, j :: 0 <= i < j < |rs| ==> Compatible(rs[i], rs[j])
  }

  ghost predicate HasRoute(t: Table, p: Pattern, m: Method, e: Entry) {
    p in t && m in t[p] && t[p][m] == e
  }

  ghost predicate Listed(rs: seq<Registration>, p: Pattern, m: Method, e: Entry) {
    exists r :: r in rs && PatternOf(r.segs) == p && r.verb == m && r.entry == e
  }

  /** The routes of a table are those of the list. */
  ghost predicate Collects(t: Table, rs: seq<Registration>) {
    forall p, m, e :: HasRoute(t, p, m, e) <==> Listed(rs, p, m, e)
  }

  lemma ClashSymmetric(p: Pattern, q: Pattern)
    requires Clash(p, q)
    ensures Clash(q, p)
  {
    var i :| ClashAt(p, q, i);
    assert ClashAt(q, p, i);
  }

  lemma CompatibleSymmetric(r: Registration, s: Registration)
    requires Compatible(r, s)
    ensures Compatible(s, r)
  {
    if Clash(PatternOf(s.segs), PatternOf(r.segs)) { ClashSymmetric(PatternOf(s.segs), PatternOf(r.segs)); }
  }

  lemma BuildSnoc(init: seq<Registration>, r: Registration)
    ensures Build(init + [r]) ==
            match Build(init)
            case None => None
            case Some(t) =>
              var added := AddRoute(t, r.verb, r.segs, r.entry);
              if added.error.Some? then None else Some(added.table)
  {
    assert (init + [r])[..|init|] == init;
  }

  lemma {:induction false} BuildIff(rs: seq<Registration>)
    requires AllPlain(rs)
    ensures Build(rs).Some? <==> PairwiseCompatible(rs)
    ensures Build(rs).Some? ==> Collects(Build(rs).value, rs)
  {
    if rs == [] {
      EmptyOk();
      forall p, m, e ensures !HasRoute(EMPTY, p, m, e) {}
    } else {
      var init, r := rs[..|rs| - 1], rs[|rs| - 1];
      assert rs == init + [r] && r in rs;
      assert forall x :: x in init ==> x in rs;
      BuildIff(init);
      BuildSnoc(init, r);
      PairwiseSnoc(init, r);
      if Build(init).Some? {
        BuildKeeps(init);
        LastCompatible(Build(init).value, init, r);
        if AddRoute(Build(init).value, r.verb, r.segs, r.entry).error == None {
          CollectsOneMore(Build(init).value, init, r);
        }
      }
    }
  }

  lemma PairwiseSnoc(init: seq<Registration>, r: Registration)
    ensures PairwiseCompatible(init + [r]) <==>
            PairwiseCompatible(init) && Named(r.segs) && forall x :: x in init ==> Compatible(x, r)
  {
    var rs := init + [r];
    if PairwiseCompatible(rs) {
      assert rs[|init|] == r;
      forall x | x in init ensures Compatible(x, r) && Named(x.segs) {
        var i :| 0 <= i < |init| && init[i] == x;
        assert rs[i] == x && x in rs;
      }
      forall i, j | 0 <= i < j < |init| ensures Compatible(init[i], init[j]) {
        assert rs[i] == init[i] && rs[j] == init[j];
      }
    }
  }

  /** The next registration succeeds exactly when it is compatible with all before it. */
  lemma LastCompatible(t: Table, init: seq<Registration>, r: Registration)
    requires WellFormed(t) && Tight(t) && Plain(r.segs) && Collects(t, init)
    ensures AddRoute(t, r.verb, r.segs, r.entry).error == None <==>
            Named(r.segs) && forall x :: x in init ==> Compatible(x, r)
  {
    var p := PatternOf(r.segs);
    SuccessIff(t, r.verb, r.segs, r.entry);
    if forall x :: x in init ==> Compatible(x, r) {
      forall q | q in Routes(t) ensures !Clash(p, q) {
        var m := SomeKey(t[q]);
        assert HasRoute(t, q, m, t[q][m]);
        var x :| x in init && PatternOf(x.segs) == q && x.verb == m;
        if Clash(p, q) { ClashSymmetric(p, q); }
      }
      if p in t && r.verb in t[p] { assert HasRoute(t, p, r.verb, t[p][r.verb]); }
    } else {
      var x :| x in init && !Compatible(x, r);
      assert Listed(init, PatternOf(x.segs), x.verb, x.entry);
      assert HasRoute(t, PatternOf(x.segs), x.verb, x.entry);
      if Clash(PatternOf(x.segs), p) { ClashSymmetric(PatternOf(x.segs), p); }
    }
  }

  ghost function SomeKey(hs: map<Method, Entry>): (m: Method)
    requires hs != map[]
    ensures m in hs
  {
    assert hs.Keys != {};
    var m :| m in hs; m
  }

  lemma RouteAdded(t: Table, m: Method, segs: seq<string>, e: Entry)
    requires WellFormed(t) && Tight(t) && Plain(segs) && AddRoute(t, m, segs, e).error == None
    ensures forall q, k, x :: HasRoute(AddRoute(t, m, segs, e).table, q, k, x) <==>
                              HasRoute(t, q, k, x) || (q == PatternOf(segs) && k == m && x == e)
  {
    SuccessAddsRoute(t, m, segs, e);
    var t', p := AddRoute(t, m, segs, e).table, PatternOf(segs);
    forall q, k, x ensures HasRoute(t', q, k, x) <==> HasRoute(t, q, k, x) || (q == p && k == m && x == e) {
      HasRouteIff(t, q, k, x);
      HasRouteIff(t', q, k, x);
      HandlerAdded(t, t', p, m, e, q, k, x);
    }
  }

  lemma HasRouteIff(t: Table, q: Pattern, k: Method, x: Entry)
    ensures HasRoute(t, q, k, x) <==> q in Routes(t) && k in Routes(t)[q] && Routes(t)[q][k] == x
  {}

  lemma HandlerAdded(t: Table, t': Table, p: Pattern, m: Method, e: Entry, q: Pattern, k: Method, x: Entry)
    requires !(p in t && m in t[p]) && Routes(t') == Routes(t)[p := (if p in t then t[p] else map[])[m := e]]
    ensures q in Routes(t') && k in Routes(t')[q] && Routes(t')[q][k] == x <==>
            (q in Routes(t) && k in Routes(t)[q] && Routes(t)[q][k] == x) || (q == p && k == m && x == e)
  {}

  lemma CollectsOneMore(t: Table, init: seq<Registration>, r: Registration)
    requires WellFormed(t) && Tight(t) && Plain(r.segs) && Collects(t, init)
    requires AddRoute(t, r.verb, r.segs, r.entry).error == None
    ensures Collects(AddRoute(t, r.verb, r.segs, r.entry).table, init + [r])
  {
    RouteAdded(t, r.verb, r.segs, r.entry);
    forall p, m, e
      ensures Listed(init + [r], p, m, e) <==>
              Listed(init, p, m, e) || (p == PatternOf(r.segs) && m == r.verb && e == r.entry)
    {
      ListedSnoc(init, r, p, m, e);
    }
  }

  lemma ListedSnoc(init: seq<Registration>, r: Registration, p: Pattern, m: Method, e: Entry)
    ensures Listed(init + [r], p, m, e) <==>
            Listed(init, p, m, e) || (p == PatternOf(r.segs) && m == r.verb && e == r.entry)
  {
    var rs := init + [r];
    assert rs[|init|] == r && r in rs;
    assert forall x :: x in rs <==> x in init || x == r;
  }

  lemma PairwiseTail(rs: seq<Registration>)
    requires PairwiseCompatible(rs) && rs != []
    ensures PairwiseCompatible(rs[1..]) && rs[0] !in rs[1..]
  {
    assert forall x :: x in rs[1..] ==> x in rs;
    forall k | 0 <= k < |rs[1..]| ensures rs[1..][k] != rs[0] {
      assert rs[1..][k] == rs[k + 1] && Compatible(rs[0], rs[k + 1]);
    }
  }

  lemma {:induction false} AtMostOnce(rs: seq<Registration>, r: Registration)
    requires PairwiseCompatible(rs)
    ensures multiset(rs)[r] <= 1
  {
    if rs != [] {
      PairwiseTail(rs);
      AtMostOnce(rs[1..], r);
      CountOfFirst(rs, r);
    }
  }

  lemma CountOfFirst(rs: seq<Registration>, r: Registration)
    requires rs != []
    ensures multiset(rs)[r] == multiset(rs[1..])[r] + if r == rs[0] then 1 else 0
    ensures r !in rs[1..] ==> multiset(rs[1..])[r] == 0
  {
    assert rs == [rs[0]] + rs[1..];
  }

  lemma PairwiseInAnyOrder(rs: seq<Registration>, ss: seq<Registration>)
    requires PairwiseCompatible(rs) && multiset(rs) == multiset(ss)
    ensures PairwiseCompatible(ss)
  {
    forall r ensures r in ss <==> r in rs { assert r in multiset(ss) <==> r in multiset(rs); }
    forall i, j | 0 <= i < j < |ss| ensures Compatible(ss[i], ss[j]) {
      assert ss == ss[..j] + ss[j..];
      assert ss[i] in ss[..j] && ss[j] in ss[j..];
      AtMostOnce(rs, ss[j]);
      assert ss[i] != ss[j];
      assert ss[i] in rs && ss[j] in rs;
      var a :| 0 <= a < |rs| && rs[a] == ss[i];
      var b :| 0 <= b < |rs| && rs[b] == ss[j];
      if b < a { CompatibleSymmetric(rs[b], rs[a]); }
    }
  }

  /** Order independence: a list of registrations succeeds in every order or in none, and every
      order builds the same trie, hence the same matches. */
  lemma OrderDoesNotMatter(rs: seq<Registration>, ss: seq<Registration>)
    requires AllPlain(rs) && Build(rs).Some? && multiset(rs) == multiset(ss)
    ensures Build(ss) == Build(rs)
  {
    forall r ensures r in ss <==> r in rs { assert r in multiset(ss) <==> r in multiset(rs); }
    BuildIff(rs);
    PairwiseInAnyOrder(rs, ss);
    BuildIff(ss);
    BuildKeeps(rs);
    BuildKeeps(ss);
    forall p, m, e ensures HasRoute(Build(rs).value, p, m, e) <==> HasRoute(Build(ss).value, p, m, e) {
      assert Listed(rs, p, m, e) <==> Listed(ss, p, m, e);
    }
    SameRoutes(Build(rs).value, Build(ss).value);
    RoutesDetermineTrie(Build(rs).value, Build(ss).value);
  }

  lemma RoutesWithin(t: Table, s: Table)
    requires forall p, m, e :: HasRoute(t, p, m, e) ==> HasRoute(s, p, m, e)
    ensures forall p :: p in Routes(t) ==> p in Routes(s)
    ensures forall p, m :: p in Routes(t) && m in t[p] ==> p in s && m in s[p] && s[p][m] == t[p][m]
  {
    forall p | p in Routes(t) ensures p in Routes(s) {
      var k := SomeKey(t[p]);
      assert HasRoute(t, p, k, t[p][k]);
    }
    forall p, m | p in Routes(t) && m in t[p] ensures p in s && m in s[p] && s[p][m] == t[p][m] {
      assert HasRoute(t, p, m, t[p][m]);
    }
  }

  lemma SameRoutes(t: Table, s: Table)
    requires forall p, m, e :: HasRoute(t, p, m, e) <==> HasRoute(s, p, m, e)
    ensures Routes(t) == Routes(s)
  {
    RoutesWithin(t, s);
    RoutesWithin(s, t);
    forall p | p in Routes(t) ensures t[p] == s[p] {
      forall m ensures m in t[p] <==> m in s[p] {}
    }
  }

  // ---------------------------------------------------------------- rejected registrations

  lemma {:induction false} ResolveExisting(t: Table, segs: seq<string>, at: Pattern)
    requires WellFormed(t) && at in t && Resolve(t, segs, at).node.Ok? && at + PatternOf(segs) in t
    ensures Resolve(t, segs, at).table == t
    decreases |segs|
  {
    if segs != [] {
      var s := SegOf(segs[0]);
      PatternStep(at, segs);
      PrefixPresent(t, at + [s], at + PatternOf(segs));
      ResolveExisting(t, segs[1..], at + [s]);
    }
  }

  ghost predicate Leaf(t: Table, at: Pattern) {
    forall q :: q in t ==> !(at < q)
  }

  lemma PrefixTrans(at: Pattern, s: Seg, q: Pattern)
    requires at + [s] <= q
    ensures at < q
  {}

  lemma {:induction false} NoConflictBelowLeaf(t: Table, segs: seq<string>, at: Pattern)
    requires Leaf(t, at)
    ensures Resolve(t, segs, at).node != Err(Conflict)
    decreases |segs|
  {
    if segs != [] {
      var s := SegOf(segs[0]);
      forall a ensures at + [Param(a)] !in t { PrefixTrans(at, Param(a), at + [Param(a)]); }
      var t' := AddNode(t, at + [s]);
      forall q | at + [s] < q ensures q !in t' { PrefixTrans(at, s, q); }
      NoConflictBelowLeaf(t', segs[1..], at + [s]);
    }
  }

  lemma {:induction false} ConflictCreatesNothing(t: Table, segs: seq<string>, at: Pattern)
    requires WellFormed(t) && at in t && Plain(segs) && Resolve(t, segs, at).node == Err(Conflict)
    ensures Resolve(t, segs, at).table == t
    decreases |segs|
  {
    if segs != [] {
      var s := SegOf(segs[0]);
      assert segs[0] in segs;
      PlainTail(segs);
      if s.Lit? || (s.name != "" && (HasParam(t, at) ==> ParamName(t, at) == s.name)) {
        if at + [s] in t {
          ConflictCreatesNothing(t, segs[1..], at + [s]);
        } else {
          FreshIsLeaf(t, at, s);
          NoConflictBelowLeaf(AddNode(t, at + [s]), segs[1..], at + [s]);
        }
      }
    }
  }

  lemma FreshIsLeaf(t: Table, at: Pattern, s: Seg)
    requires WellFormed(t) && at + [s] !in t
    ensures Leaf(AddNode(t, at + [s]), at + [s])
  {
    forall q | q in t && at + [s] < q ensures false { PrefixPresent(t, at + [s], q); }
  }

  /** A registration rejected as a duplicate or for a conflicting parameter name leaves the router
      as it was. */
  lemma RejectionChangesNothing(t: Table, m: Method, segs: seq<string>, e: Entry)
    requires WellFormed(t) && Plain(segs)
    requires AddRoute(t, m, segs, e).error == Some(Duplicate) || AddRoute(t, m, segs, e).error == Some(Conflict)
    ensures AddRoute(t, m, segs, e).table == t
  {
    ResolveKeeps(t, segs, []);
    assert [] + PatternOf(segs) == PatternOf(segs);
    if AddRoute(t, m, segs, e).error == Some(Conflict) {
      ConflictCreatesNothing(t, segs, []);
    } else {
      ResolveExisting(t, segs, []);
    }
  }
}
