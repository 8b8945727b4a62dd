/** The route trie of Router.cpp as a finite map from pattern prefixes to handlers: what
    registration does to it, how `match` walks it, and what both mean for the plain set of
    registered routes. */
module RouteTable {
  import opened Wrappers
  import opened Http

  datatype Seg = Lit(text: string) | Param(name: string)

  type Pattern = seq<Seg>

  datatype Target = Target(host: string, port: nat)

  datatype Entry = Entry(handler: Option<nat>, echoResponse: bool, proxyTarget: Option<Target>)

  /** One node per key; the node of a pattern prefix holds the handlers registered there. */
  type Table = map<Pattern, map<Method, Entry>>

  const EMPTY: Table := map[[] := map[]]

  /** A registered segment: `:name` is a parameter. */
  function SegOf(text: string): Seg {
    if text != "" && text[0] == ':' then Param(text[1..]) else Lit(text)
  }

  ghost predicate HasParam(t: Table, at: Pattern) {
    exists a :: at + [Param(a)] in t
  }

  ghost function ParamName(t: Table, at: Pattern): string
    requires HasParam(t, at)
  {
    var a :| at + [Param(a)] in t; a
  }

  ghost predicate WellFormed(t: Table) {
    && [] in t
    && (forall p, k :: p in t && 0 <= k <= |p| ==> p[..k] in t)
    && (forall p, q :: p in t && q in t ==> !RivalParams(p, q))
    && (forall p: Pattern, i :: p in t && 0 <= i < |p| && p[i].Lit? ==> PlainSegment(p[i].text))
  }

  /** Two parameter children of one node with different names. */
  ghost predicate RivalParams(p: Pattern, q: Pattern) {
    && |p| == |q| > 0 && p[|p| - 1].Param? && q[|p| - 1].Param?
    && p[|p| - 1].name != q[|p| - 1].name && p[..|p| - 1] == q[..|p| - 1]
  }

  lemma OneParam(t: Table, at: Pattern, a: string, b: string)
    requires WellFormed(t) && at + [Param(a)] in t && at + [Param(b)] in t
    ensures a == b
  {
    var p, q := at + [Param(a)], at + [Param(b)];
    assert p[..|at|] == at == q[..|at|];
    assert !RivalParams(p, q);
  }

  /** What a path segment is made of. */
  ghost predicate PlainSegment(text: string) {
    text != "" && '/' !in text
  }

  // ---------------------------------------------------------------- registration

  datatype RegError = NoHandler | NoHost | BadPath | Unnamed | Conflict | Duplicate

  datatype Resolved = Resolved(table: Table, node: Result<Pattern, RegError>)

  ghost function AddNode(t: Table, p: Pattern): Table {
    if p in t then t else t[p := map[]]
  }

  /** `resolveOrCreateNode` from the node `at` on; nodes made before an error stay. */
  ghost function Resolve(t: Table, segs: seq<string>, at: Pattern): Resolved
    decreases |segs|
  {
    if segs == [] then Resolved(t, Ok(at))
    else
      match SegOf(segs[0])
      case Param(name) =>
        if name == "" then Resolved(t, Err(Unnamed))
        else if HasParam(t, at) && ParamName(t, at) != name then Resolved(t, Err(Conflict))
        else Resolve(AddNode(t, at + [Param(name)]), segs[1..], at + [Param(name)])
      case Lit(text) => Resolve(AddNode(t, at + [Lit(text)]), segs[1..], at + [Lit(text)])
  }

  datatype Registered = Registered(table: Table, error: Option<RegError>)

  ghost function AddRoute(t: Table, m: Method, segs: seq<string>, e: Entry): Registered {
    var r := Resolve(t, segs, []);
    match r.node
    case Err(error) => Registered(r.table, Some(error))
    case Ok(p) =>
      if p in r.table && m in r.table[p] then Registered(r.table, Some(Duplicate))
      else if p in r.table then Registered(r.table[p := r.table[p][m := e]], None)
      else Registered(r.table, None)
  }

  function PatternOf(segs: seq<string>): (p: Pattern)
    ensures |p| == |segs| && forall i :: 0 <= i < |p| ==> p[i] == SegOf(segs[i])
  {
    seq(|segs|, i requires 0 <= i < |segs| => SegOf(segs[i]))
  }

  // ---------------------------------------------------------------- matching

  datatype Found = Found(entry: Entry, params: map<string, string>)

  /** `emplace`: the first value for a name stays. */
  function Emplace(ps: map<string, string>, name: string, value: string): map<string, string> {
    if name in ps then ps else ps[name := value]
  }

  /** The walk of `match`: a literal child if there is one, otherwise the parameter child, and
      never back. */
  ghost function MatchFrom(t: Table, m: Method, segs: seq<string>, at: Pattern, ps: map<string, string>): Option<Found>
    decreases |segs|
  {
    if segs == [] then
      if at in t && m in t[at] then Some(Found(t[at][m], ps)) else None
    else if at + [Lit(segs[0])] in t then MatchFrom(t, m, segs[1..], at + [Lit(segs[0])], ps)
    else if HasParam(t, at) then
      var a := ParamName(t, at);
      MatchFrom(t, m, segs[1..], at + [Param(a)], Emplace(ps, a, segs[0]))
    else None
  }

  ghost function Match(t: Table, m: Method, segs: seq<string>): Option<Found> {
    MatchFrom(t, m, segs, [], map[])
  }

  // ---------------------------------------------------------------- registration keeps the shape

  lemma AddNodeKeeps(t: Table, at: Pattern, s: Seg)
    requires WellFormed(t) && at in t
    requires s.Param? ==> !HasParam(t, at) || ParamName(t, at) == s.name
    requires s.Lit? ==> PlainSegment(s.text)
    ensures WellFormed(AddNode(t, at + [s])) && at + [s] in AddNode(t, at + [s])
  {
    var child, t' := at + [s], AddNode(t, at + [s]);
    assert child[..|at|] == at;
    forall p, k | p in t' && 0 <= k <= |p| ensures p[..k] in t' {
      if p == child && k < |p| {
        assert p[..k] == at[..k];
      } else if p == child {
        assert p[..k] == p;
      }
    }
    forall p: Pattern, q: Pattern | p in t' && q in t' ensures !RivalParams(p, q) {
      if p == child && q in t { NoRival(t, at, s, q); }
      if q == child && p in t { NoRival(t, at, s, p); }
    }
  }

  lemma NoRival(t: Table, at: Pattern, s: Seg, q: Pattern)
    requires WellFormed(t) && q in t && (s.Param? && HasParam(t, at) ==> ParamName(t, at) == s.name)
    ensures !RivalParams(at + [s], q) && !RivalParams(q, at + [s])
  {
    if q != [] && q[|q| - 1].Param? && q[..|q| - 1] == at {
      assert q == at + [q[|q| - 1]];
      OnlyParam(t, at, q[|q| - 1].name);
    }
  }

  lemma OnlyParam(t: Table, at: Pattern, name: string)
    requires WellFormed(t) && at + [Param(name)] in t
    ensures HasParam(t, at) && ParamName(t, at) == name
  {
    OneParam(t, at, name, ParamName(t, at));
  }

  lemma LastOf(p: Pattern, a: Seg, q: Pattern, b: Seg)
    ensures p + [a] == q + [b] <==> p == q && a == b
  {
    if p + [a] == q + [b] {
      assert (p + [a])[..|p|] == p && (q + [b])[..|q|] == q;
      assert (p + [a])[|p|] == a && (q + [b])[|q|] == b;
    }
  }

  ghost predicate Plain(segs: seq<string>) {
    forall s :: s in segs ==> PlainSegment(s)
  }

  /** `s` has the nodes and handlers of `t`, and otherwise only nodes without handlers. */
  ghost predicate Extends(t: Table, s: Table) {
    forall p :: p in t ==> p in s && s[p] == t[p]
  }

  ghost predicate NewAreBare(t: Table, s: Table) {
    forall p :: p in s && p !in t ==> s[p] == map[]
  }

  lemma {:induction false} ResolveKeeps(t: Table, segs: seq<string>, at: Pattern)
    requires WellFormed(t) && at in t && Plain(segs)
    ensures var r := Resolve(t, segs, at);
            && WellFormed(r.table) && Extends(t, r.table) && NewAreBare(t, r.table)
            && (if r.node.Ok? then r.node.value == at + PatternOf(segs) && r.node.value in r.table
                else r.node.error == Unnamed || r.node.error == Conflict)
    decreases |segs|
  {
    if segs == [] {
      assert at + PatternOf(segs) == at;
    } else {
      var s := SegOf(segs[0]);
      assert segs[0] in segs;
      PlainTail(segs);
      if s.Lit? || (s.name != "" && (HasParam(t, at) ==> ParamName(t, at) == s.name)) {
        AddNodeKeeps(t, at, s);
        ResolveKeeps(AddNode(t, at + [s]), segs[1..], at + [s]);
        PatternStep(at, segs);
      }
    }
  }

  lemma PlainTail(segs: seq<string>)
    requires Plain(segs) && segs != []
    ensures Plain(segs[1..])
  {
    forall x | x in segs[1..] ensures x in segs {}
  }

  lemma PatternStep(at: Pattern, segs: seq<string>)
    requires segs != []
    ensures at + [SegOf(segs[0])] + PatternOf(segs[1..]) == at + PatternOf(segs)
  {}

  lemma AddRouteKeeps(t: Table, m: Method, segs: seq<string>, e: Entry)
    requires WellFormed(t) && Plain(segs)
    ensures WellFormed(AddRoute(t, m, segs, e).table)
  {
    ResolveKeeps(t, segs, []);
  }

  // ---------------------------------------------------------------- refinement of the flat route set

  /** The registered routes: patterns with at least one handler. */
  ghost function Routes(t: Table): Table {
    map p | p in t && t[p] != map[] :: t[p]
  }

  ghost predicate IsPrefixOfRoute(routes: Table, p: Pattern) {
    p == [] || exists q :: q in routes && p <= q
  }

  /** Every node leads to a route; registrations that succeed keep it so. */
  ghost predicate Tight(t: Table) {
    forall p :: p in t ==> IsPrefixOfRoute(Routes(t), p)
  }

  lemma PrefixPresent(t: Table, p: Pattern, q: Pattern)
    requires WellFormed(t) && q in t && p <= q
    ensures p in t
  {
    assert q[..|p|] == p;
  }

  /** In a tight trie the nodes are exactly the prefixes of the registered patterns. */
  lemma NodesArePrefixes(t: Table, p: Pattern)
    requires WellFormed(t) && Tight(t)
    ensures p in t <==> IsPrefixOfRoute(Routes(t), p)
  {
    if p != [] && IsPrefixOfRoute(Routes(t), p) {
      var q :| q in Routes(t) && p <= q;
      PrefixPresent(t, p, q);
    }
  }

  /** Greedy matching on the plain set of routes, without a trie. */
  ghost function FlatMatchFrom(routes: Table, m: Method, segs: seq<string>, at: Pattern,
                               ps: map<string, string>): Option<Found>
    decreases |segs|
  {
    if segs == [] then
      if at in routes && m in routes[at] then Some(Found(routes[at][m], ps)) else None
    else if IsPrefixOfRoute(routes, at + [Lit(segs[0])]) then
      FlatMatchFrom(routes, m, segs[1..], at + [Lit(segs[0])], ps)
    else if FlatHasParam(routes, at) then
      var a := FlatParamName(routes, at);
      FlatMatchFrom(routes, m, segs[1..], at + [Param(a)], Emplace(ps, a, segs[0]))
    else None
  }

  ghost predicate FlatHasParam(routes: Table, at: Pattern) {
    exists a :: IsPrefixOfRoute(routes, at + [Param(a)])
  }

  ghost function FlatParamName(routes: Table, at: Pattern): string
    requires FlatHasParam(routes, at)
  {
    var a :| IsPrefixOfRoute(routes, at + [Param(a)]); a
  }

  lemma FlatParamIsParam(t: Table, at: Pattern)
    requires WellFormed(t) && Tight(t)
    ensures HasParam(t, at) <==> FlatHasParam(Routes(t), at)
    ensures HasParam(t, at) ==> ParamName(t, at) == FlatParamName(Routes(t), at)
  {
    if HasParam(t, at) {
      NodesArePrefixes(t, at + [Param(ParamName(t, at))]);
    }
    if FlatHasParam(Routes(t), at) {
      var a := FlatParamName(Routes(t), at);
      NodesArePrefixes(t, at + [Param(a)]);
      OnlyParam(t, at, a);
    }
  }

  lemma {:induction false} MatchIsFlat(t: Table, m: Method, segs: seq<string>, at: Pattern, ps: map<string, string>)
    requires WellFormed(t) && Tight(t)
    ensures MatchFrom(t, m, segs, at, ps) == FlatMatchFrom(Routes(t), m, segs, at, ps)
    decreases |segs|
  {
    if segs != [] {
      var k := segs[0];
      NodesArePrefixes(t, at + [Lit(k)]);
      FlatParamIsParam(t, at);
      if at + [Lit(k)] in t {
        MatchIsFlat(t, m, segs[1..], at + [Lit(k)], ps);
      } else if HasParam(t, at) {
        var a := ParamName(t, at);
        MatchIsFlat(t, m, segs[1..], at + [Param(a)], Emplace(ps, a, k));
      }
    }
  }

  // ---------------------------------------------------------------- whole registration sequences

  datatype Registration = Registration(verb: Method, segs: seq<string>, entry: Entry)

  /** The table after registering the routes in turn, if every one of them succeeded. */
  ghost function Build(rs: seq<Registration>): Option<Table> {
    if rs == [] then Some(EMPTY)
    else
      var r := rs[|rs| - 1];
      match Build(rs[..|rs| - 1])
      case None => None
      case Some(t) =>
        var added := AddRoute(t, r.verb, r.segs, r.entry);
        if added.error.Some? then None else Some(added.table)
  }

  ghost predicate AllPlain(rs: seq<Registration>) {
    forall r :: r in rs ==> Plain(r.segs)
  }

  /** Adding a route changes the set of routes by that route and nothing else. */
  lemma SuccessAddsRoute(t: Table, m: Method, segs: seq<string>, e: Entry)
    requires WellFormed(t) && Tight(t) && Plain(segs) && AddRoute(t, m, segs, e).error == None
    ensures var t', p := AddRoute(t, m, segs, e).table, PatternOf(segs);
            && Tight(t') && p in t' && !(p in t && m in t[p])
            && Routes(t') == Routes(t)[p := (if p in t then t[p] else map[])[m := e]]
  {
    ResolveKeeps(t, segs, []);
    var p := PatternOf(segs);
    assert [] + p == p;
    var made, t' := Resolve(t, segs, []).table, AddRoute(t, m, segs, e).table;
    assert t' == made[p := made[p][m := e]];
    assert m in made[p][m := e];
    RoutesAfterUpdate(t, made, p, made[p][m := e]);
    forall q | q in t' ensures IsPrefixOfRoute(Routes(t'), q) {
      if q in t {
        PrefixStays(t, t', q);
      } else {
        if q != p { ResolveMakesPrefixes(t, segs, [], q); }
        assert q <= p && p in Routes(t');
      }
    }
  }

  lemma RoutesAfterUpdate(t: Table, made: Table, p: Pattern, hs: map<Method, Entry>)
    requires Extends(t, made) && NewAreBare(t, made) && p in made && hs != map[]
    ensures Routes(made[p := hs]) == Routes(t)[p := hs]
  {}

  lemma PrefixStays(t: Table, t': Table, q: Pattern)
    requires IsPrefixOfRoute(Routes(t), q) && forall r :: r in Routes(t) ==> r in Routes(t')
    ensures IsPrefixOfRoute(Routes(t'), q)
  {}

  /** Only prefixes of the pattern being registered are created. */
  lemma {:induction false} ResolveMakesPrefixes(t: Table, segs: seq<string>, at: Pattern, q: Pattern)
    requires q in Resolve(t, segs, at).table && q !in t
    ensures at < q && q <= at + PatternOf(segs)
    decreases |segs|
  {
    if segs != [] {
      var s := SegOf(segs[0]);
      assert at + PatternOf(segs) == at + [s] + PatternOf(segs[1..]);
      if q != at + [s] {
        ResolveMakesPrefixes(AddNode(t, at + [s]), segs[1..], at + [s], q);
      }
    }
  }

  lemma {:induction false} BuildKeeps(rs: seq<Registration>)
    requires AllPlain(rs) && Build(rs).Some?
    ensures WellFormed(Build(rs).value) && Tight(Build(rs).value)
  {
    if rs == [] {
      EmptyOk();
    } else {
      var r := rs[|rs| - 1];
      assert r in rs;
      BuildKeeps(rs[..|rs| - 1]);
      AddRouteKeeps(Build(rs[..|rs| - 1]).value, r.verb, r.segs, r.entry);
      SuccessAddsRoute(Build(rs[..|rs| - 1]).value, r.verb, r.segs, r.entry);
    }
  }

  lemma EmptyOk()
    ensures WellFormed(EMPTY) && Tight(EMPTY) && Routes(EMPTY) == map[]
  {
    forall p: Pattern, s: Seg ensures p + [s] != [] { assert |p + [s]| == |p| + 1; }
  }

  /** The routes of a list of registrations, without a trie. */
  function RoutesOf(rs: seq<Registration>): Table {
    if rs == [] then map[]
    else
      var r, before := rs[|rs| - 1], RoutesOf(rs[..|rs| - 1]);
      var p := PatternOf(r.segs);
      before[p := (if p in before then before[p] else map[])[r.verb := r.entry]]
  }

  lemma {:induction false} BuildHasRoutes(rs: seq<Registration>)
    requires AllPlain(rs) && Build(rs).Some?
    ensures Routes(Build(rs).value) == RoutesOf(rs)
  {
    if rs == [] {
      EmptyOk();
    } else {
      var init, r := rs[..|rs| - 1], rs[|rs| - 1];
      assert r in rs && forall x :: x in init ==> x in rs;
      BuildKeeps(init);
      BuildHasRoutes(init);
      SuccessAddsRoute(Build(init).value, r.verb, r.segs, r.entry);
    }
  }

  /** Refinement: after any sequence of successful registrations the trie matches exactly as a
      greedy static-first search of the list of registered routes does. */
  lemma TrieRefinesFlatRoutes(rs: seq<Registration>, m: Method, segs: seq<string>)
    requires AllPlain(rs) && Build(rs).Some?
    ensures Match(Build(rs).value, m, segs) == FlatMatchFrom(RoutesOf(rs), m, segs, [], map[])
  {
    BuildKeeps(rs);
    BuildHasRoutes(rs);
    MatchIsFlat(Build(rs).value, m, segs, [], map[]);
  }

  /** Two tries with the same routes are the same trie. */
  lemma RoutesDetermineTrie(t: Table, s: Table)
    requires WellFormed(t) && WellFormed(s) && Tight(t) && Tight(s) && Routes(t) == Routes(s)
    ensures t == s
  {
    forall p ensures p in t <==> p in s {
      NodesArePrefixes(t, p);
      NodesArePrefixes(s, p);
    }
    forall p | p in t ensures t[p] == s[p] {
      assert p in Routes(t) <==> t[p] != map[];
      assert p in Routes(s) <==> s[p] != map[];
      if p in Routes(t) { assert Routes(t)[p] == Routes(s)[p]; }
    }
  }

  // ---------------------------------------------------------------- what a match means

  /** The pattern fits the segments and the parameters hold the value at the first place of each
      name. */
  ghost predicate Fits(p: Pattern, segs: seq<string>, ps: map<string, string>) {
    && |p| == |segs|
    && (forall i :: 0 <= i < |p| && p[i].Lit? ==> p[i].text == segs[i])
    && (forall i :: 0 <= i < |p| && p[i].Param? ==> p[i].name in ps)
    && (forall a :: a in ps ==> exists i :: FirstPlace(p, a, i) && ps[a] == segs[i])
  }

  ghost predicate FirstPlace(p: Pattern, a: string, i: int) {
    0 <= i < |p| && p[i] == Param(a) && forall j :: 0 <= j < i ==> p[j] != Param(a)
  }

  lemma {:induction false} MatchFits(t: Table, m: Method, segs: seq<string>, at: Pattern, seen: seq<string>,
                                     ps: map<string, string>)
    returns (p: Pattern)
    requires MatchFrom(t, m, segs, at, ps).Some? && Fits(at, seen, ps)
    ensures var found := MatchFrom(t, m, segs, at, ps).value;
            p in t && m in t[p] && t[p][m] == found.entry && Fits(p, seen + segs, found.params)
    decreases |segs|
  {
    if segs == [] {
      p := at;
      assert seen + segs == seen;
    } else {
      var k := segs[0];
      assert seen + segs == seen + [k] + segs[1..];
      if at + [Lit(k)] in t {
        FitsLit(at, seen, ps, k);
        p := MatchFits(t, m, segs[1..], at + [Lit(k)], seen + [k], ps);
      } else {
        var a := ParamName(t, at);
        FitsParam(at, seen, ps, a, k);
        p := MatchFits(t, m, segs[1..], at + [Param(a)], seen + [k], Emplace(ps, a, k));
      }
    }
  }

  lemma FirstPlaceStays(p: Pattern, s: Seg, a: string, i: int)
    requires FirstPlace(p, a, i)
    ensures FirstPlace(p + [s], a, i)
  {}

  lemma FitsLit(at: Pattern, seen: seq<string>, ps: map<string, string>, k: string)
    requires Fits(at, seen, ps)
    ensures Fits(at + [Lit(k)], seen + [k], ps)
  {
    forall a | a in ps ensures exists i :: FirstPlace(at + [Lit(k)], a, i) && ps[a] == (seen + [k])[i] {
      var i :| FirstPlace(at, a, i) && ps[a] == seen[i];
      FirstPlaceStays(at, Lit(k), a, i);
      assert (seen + [k])[i] == seen[i];
    }
  }

  lemma FitsParam(at: Pattern, seen: seq<string>, ps: map<string, string>, name: string, k: string)
    requires Fits(at, seen, ps)
    ensures Fits(at + [Param(name)], seen + [k], Emplace(ps, name, k))
  {
    var p, qs := at + [Param(name)], Emplace(ps, name, k);
    forall a | a in qs ensures exists i :: FirstPlace(p, a, i) && qs[a] == (seen + [k])[i] {
      if a in ps {
        var i :| FirstPlace(at, a, i) && ps[a] == seen[i];
        FirstPlaceStays(at, Param(name), a, i);
        assert (seen + [k])[i] == seen[i];
      } else {
        assert FirstPlace(p, a, |at|) && (seen + [k])[|at|] == k;
      }
    }
  }

  ghost predicate DistinctNames(p: Pattern) {
    forall i, j :: 0 <= i < j < |p| && p[i].Param? && p[j].Param? ==> p[i].name != p[j].name
  }

  /** A pattern with its parameters replaced. */
  ghost function Instantiate(p: Pattern, ps: map<string, string>): seq<string> {
    seq(|p|, i requires 0 <= i < |p| =>
      match p[i] case Lit(text) => text case Param(a) => if a in ps then ps[a] else "")
  }

  /** Match soundness: a match comes from a route registered for that method whose pattern, with
      distinct names, turns into the segments of the path when its parameters are replaced by the
      values returned. */
  lemma MatchSound(t: Table, m: Method, segs: seq<string>) returns (p: Pattern)
    requires Match(t, m, segs).Some?
    ensures p in t && m in t[p] && t[p][m] == Match(t, m, segs).value.entry
    ensures Fits(p, segs, Match(t, m, segs).value.params)
    ensures DistinctNames(p) ==> Instantiate(p, Match(t, m, segs).value.params) == segs
  {
    assert Fits([], [], map[]);
    p := MatchFits(t, m, segs, [], [], map[]);
    assert [] + segs == segs;
    var ps := Match(t, m, segs).value.params;
    if DistinctNames(p) {
      forall i | 0 <= i < |p| ensures Instantiate(p, ps)[i] == segs[i] {
        if p[i].Param? {
          var k :| FirstPlace(p, p[i].name, k) && ps[p[i].name] == segs[k];
          assert k == i;
        }
      }
    }
  }

  /** An all-literal route is found for its own path, whatever else is registered. */
  lemma {:induction false} LiteralRouteFound(t: Table, m: Method, segs: seq<string>, at: Pattern,
                                             ps: map<string, string>)
    requires WellFormed(t) && forall i :: 0 <= i < |segs| ==> SegOf(segs[i]).Lit?
    requires at + PatternOf(segs) in t && m in t[at + PatternOf(segs)]
    ensures MatchFrom(t, m, segs, at, ps) == Some(Found(t[at + PatternOf(segs)][m], ps))
    decreases |segs|
  {
    var p := at + PatternOf(segs);
    if segs == [] {
      assert p == at;
    } else {
      PatternStep(at, segs);
      PrefixPresent(t, at + [Lit(segs[0])], p);
      LiteralRouteFound(t, m, segs[1..], at + [Lit(segs[0])], ps);
    }
  }

  /** A node for `/a` without a child that fits "y" hides everything else from the path `/a/y`: the
      walk never goes back. */
  lemma NoBacktracking(t: Table, m: Method)
    requires [Lit("a")] in t && [Lit("a"), Lit("y")] !in t && !HasParam(t, [Lit("a")])
    ensures Match(t, m, ["a", "y"]) == None
  {
    assert [] + [Lit("a")] == [Lit("a")] && [Lit("a")] + [Lit("y")] == [Lit("a"), Lit("y")];
    assert ["a", "y"][1..] == ["y"];
  }
}
