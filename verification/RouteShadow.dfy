/** A registration rejected for an unnamed `:` segment may leave nodes behind.  Exactly when one of
    them hides a parameter subtree, later matches change. */
module RouteShadow {
  import opened Wrappers
  import opened Http
  import opened RouteTable
  import opened RouteOrder

  /** Some route lies at or below `q`. */
  ghost predicate RouteBelow(t: Table, q: Pattern) {
    exists r :: r in t && q <= r && t[r] != map[]
  }

  /** The first node a registration would create is a literal beside a parameter with routes. */
  ghost predicate Shadows(t: Table, segs: seq<string>, at: Pattern)
    decreases |segs|
  {
    segs != [] &&
    match SegOf(segs[0])
    case Param(name) => name != "" && at + [Param(name)] in t && Shadows(t, segs[1..], at + [Param(name)])
    case Lit(text) =>
      if at + [Lit(text)] in t then Shadows(t, segs[1..], at + [Lit(text)])
      else HasParam(t, at) && RouteBelow(t, at + [Param(ParamName(t, at))])
  }

  /** `s` is `t` with handler-less nodes added, all of them at or below one new child of `at`. */
  ghost predicate Grown(t: Table, s: Table, at: Pattern, child: Seg) {
    && WellFormed(t) && WellFormed(s) && Extends(t, s) && NewAreBare(t, s)
    && at in t && at + [child] in s && at + [child] !in t
    && (forall q :: q in s && q !in t ==> at + [child] <= q)
    && (child.Param? ==> !HasParam(t, at))
  }

  // ---------------------------------------------------------------- the nodes left behind

  /** The first node created is a child of a node that was there, on the way of the segments. */
  lemma {:induction false} Leftover(t: Table, segs: seq<string>, at: Pattern)
    returns (k: nat, parent: Pattern, child: Seg)
    requires WellFormed(t) && at in t && Plain(segs) && Resolve(t, segs, at).node == Err(Unnamed)
    requires Resolve(t, segs, at).table != t
    ensures Grown(t, Resolve(t, segs, at).table, parent, child)
    ensures Shadows(t, segs, at) <==>
            child.Lit? && HasParam(t, parent) && RouteBelow(t, parent + [Param(ParamName(t, parent))])
    ensures child.Lit? ==> PlainSegment(child.text)
    ensures k < |segs| && Named(segs[..k + 1]) && parent == at + PatternOf(segs[..k]) && child == SegOf(segs[k])
    decreases |segs|
  {
    var s := SegOf(segs[0]);
    assert segs[0] in segs;
    PlainTail(segs);
    ResolveKeeps(t, segs, at);
    if at + [s] in t {
      k, parent, child := Leftover(t, segs[1..], at + [s]);
      OneMoreAhead(segs, k, at);
      k := k + 1;
    } else {
      k, parent, child := 0, at, s;
      FirstAlone(segs, at);
      NewChild(t, segs, at, s);
    }
  }

  /** A walk whose first step creates a node creates nothing that is not below it. */
  lemma NewChild(t: Table, segs: seq<string>, at: Pattern, s: Seg)
    requires WellFormed(t) && at in t && Plain(segs) && segs != [] && s == SegOf(segs[0]) && at + [s] !in t
    requires s != Param("") && (s.Param? ==> !HasParam(t, at) || ParamName(t, at) == s.name)
    ensures Grown(t, Resolve(t, segs, at).table, at, s)
  {
    var made := Resolve(t, segs, at).table;
    assert segs[0] in segs;
    PlainTail(segs);
    AddNodeKeeps(t, at, s);
    ResolveKeeps(t, segs, at);
    ResolveKeeps(AddNode(t, at + [s]), segs[1..], at + [s]);
    forall q | q in made && q !in t ensures at + [s] <= q {
      if q != at + [s] { ResolveMakesPrefixes(AddNode(t, at + [s]), segs[1..], at + [s], q); }
    }
  }

  lemma FirstAlone(segs: seq<string>, at: Pattern)
    requires segs != []
    ensures at + PatternOf(segs[..0]) == at && segs[..1] == [segs[0]]
    ensures SegOf(segs[0]) != Param("") ==> Named(segs[..1])
  {}

  lemma OneMoreAhead(segs: seq<string>, k: nat, at: Pattern)
    requires k + 1 < |segs| && SegOf(segs[0]) != Param("") && Named(segs[1..][..k + 1])
    ensures Named(segs[..k + 2])
    ensures at + [SegOf(segs[0])] + PatternOf(segs[1..][..k]) == at + PatternOf(segs[..k + 1])
  {
    assert segs[..k + 2][1..] == segs[1..][..k + 1];
    assert segs[..k + 1][1..] == segs[1..][..k];
    NamedTail(segs[..k + 2]);
    PatternStep(at, segs[..k + 1]);
  }

  /** Without leftovers there is nothing to hide behind. */
  lemma {:induction false} NothingLeftNoShadow(t: Table, segs: seq<string>, at: Pattern)
    requires WellFormed(t) && at in t && Plain(segs) && Resolve(t, segs, at).node == Err(Unnamed)
    requires Resolve(t, segs, at).table == t
    ensures !Shadows(t, segs, at)
    decreases |segs|
  {
    var s := SegOf(segs[0]);
    assert segs[0] in segs;
    PlainTail(segs);
    if s != Param("") {
      AddNodeKeeps(t, at, s);
      ResolveKeeps(AddNode(t, at + [s]), segs[1..], at + [s]);
      assert at + [s] in t;
      NothingLeftNoShadow(t, segs[1..], at + [s]);
    }
  }

  // ---------------------------------------------------------------- walks

  lemma {:induction false} NothingBelow(t: Table, m: Method, segs: seq<string>, at: Pattern, ps: map<string, string>)
    requires !RouteBelow(t, at)
    ensures MatchFrom(t, m, segs, at, ps) == None
    decreases |segs|
  {
    if segs == [] {
      assert at <= at;
    } else {
      if at + [Lit(segs[0])] in t {
        NarrowerBelow(t, at, Lit(segs[0]));
        NothingBelow(t, m, segs[1..], at + [Lit(segs[0])], ps);
      } else if HasParam(t, at) {
        var a := ParamName(t, at);
        NarrowerBelow(t, at, Param(a));
        NothingBelow(t, m, segs[1..], at + [Param(a)], Emplace(ps, a, segs[0]));
      }
    }
  }

  lemma NarrowerBelow(t: Table, at: Pattern, s: Seg)
    ensures RouteBelow(t, at + [s]) ==> RouteBelow(t, at)
  {
    if RouteBelow(t, at + [s]) {
      var r: Pattern :| r in t && at + [s] <= r && t[r] != map[];
      PrefixTrans(at, s, r);
    }
  }

  lemma NewSubtreeIsBare(t: Table, s: Table, at: Pattern, child: Seg)
    requires Grown(t, s, at, child)
    ensures !RouteBelow(s, at + [child])
  {
    if r :| r in s && at + [child] <= r && s[r] != map[] {
      if r in t { PrefixPresent(t, at + [child], r); }
    }
  }

  /** Nodes outside the new subtree have the children they had. */
  lemma SameChild(t: Table, s: Table, at: Pattern, child: Seg, w: Pattern, c: Seg)
    requires Grown(t, s, at, child) && w in t && !(w == at && c == child)
    ensures w + [c] in s <==> w + [c] in t
  {
    if w + [c] in s && w + [c] !in t {
      assert at + [child] <= w + [c];
      if |w| > |at| {
        assert at + [child] <= w;
        PrefixPresent(t, at + [child], w);
      } else {
        assert w + [c] == at + [child];
        LastOf(w, c, at, child);
      }
    }
  }

  lemma SameParam(t: Table, s: Table, at: Pattern, child: Seg, w: Pattern)
    requires Grown(t, s, at, child) && w in t && (w == at ==> child.Lit?)
    ensures HasParam(s, w) <==> HasParam(t, w)
    ensures HasParam(t, w) ==> ParamName(s, w) == ParamName(t, w)
  {
    forall a ensures w + [Param(a)] in s <==> w + [Param(a)] in t { SameChild(t, s, at, child, w, Param(a)); }
    if HasParam(t, w) { OnlyParam(s, w, ParamName(t, w)); }
  }

  /** Growth that hides no route changes no match. */
  lemma {:induction false} HarmlessGrowth(t: Table, s: Table, at: Pattern, child: Seg, m: Method,
                                          segs: seq<string>, w: Pattern, ps: map<string, string>)
    requires Grown(t, s, at, child) && w in t
    requires child.Lit? && HasParam(t, at) ==> !RouteBelow(t, at + [Param(ParamName(t, at))])
    ensures MatchFrom(s, m, segs, w, ps) == MatchFrom(t, m, segs, w, ps)
    decreases |segs|
  {
    if segs != [] {
      var k := segs[0];
      if w == at && (child == Lit(k) || (child.Param? && at + [Lit(k)] !in t)) {
        IntoNewSubtree(t, s, at, child, m, segs, ps);
      } else {
        SameChild(t, s, at, child, w, Lit(k));
        if w + [Lit(k)] in t {
          HarmlessGrowth(t, s, at, child, m, segs[1..], w + [Lit(k)], ps);
        } else {
          SameParam(t, s, at, child, w);
          if HasParam(t, w) {
            var a := ParamName(t, w);
            HarmlessGrowth(t, s, at, child, m, segs[1..], w + [Param(a)], Emplace(ps, a, k));
          }
        }
      }
    }
  }

  /** A walk that now enters the new subtree finds nothing there, and found nothing before. */
  lemma IntoNewSubtree(t: Table, s: Table, at: Pattern, child: Seg, m: Method, segs: seq<string>,
                       ps: map<string, string>)
    requires Grown(t, s, at, child) && segs != []
    requires child == Lit(segs[0]) || (child.Param? && at + [Lit(segs[0])] !in t)
    requires child.Lit? && HasParam(t, at) ==> !RouteBelow(t, at + [Param(ParamName(t, at))])
    ensures MatchFrom(s, m, segs, at, ps) == None == MatchFrom(t, m, segs, at, ps)
  {
    NewSubtreeIsBare(t, s, at, child);
    if child.Lit? {
      NothingBelow(s, m, segs[1..], at + [child], ps);
      if HasParam(t, at) {
        var a := ParamName(t, at);
        NothingBelow(t, m, segs[1..], at + [Param(a)], Emplace(ps, a, segs[0]));
      }
    } else {
      SameChild(t, s, at, child, at, Lit(segs[0]));
      OnlyParam(s, at, child.name);
      NothingBelow(s, m, segs[1..], at + [child], Emplace(ps, child.name, segs[0]));
    }
  }

  // ---------------------------------------------------------------- a path that shows the change

  /** A segment that is no literal of the trie. */
  ghost predicate Unused(t: Table, text: string) {
    PlainSegment(text) && forall p, i :: p in t && 0 <= i < |p| ==> p[i] != Lit(text)
  }

  lemma SomeUnused(t: Table) returns (text: string)
    ensures Unused(t, text)
  {
    var n := LongestLiteral(t.Keys);
    text := seq(n + 1, _ => 'a');
  }

  lemma {:induction false} LongestLiteral(ps: set<Pattern>) returns (n: nat)
    ensures forall p: Pattern, i :: p in ps && 0 <= i < |p| && p[i].Lit? ==> |p[i].text| <= n
  {
    if ps == {} {
      n := 0;
    } else {
      var p :| p in ps;
      var rest := LongestLiteral(ps - {p});
      n := LongestIn(p, rest);
      forall q: Pattern, i | q in ps && 0 <= i < |q| && q[i].Lit? ensures |q[i].text| <= n {
        if q != p { assert q in ps - {p}; }
      }
    }
  }

  lemma {:induction false} LongestIn(p: Pattern, least: nat) returns (n: nat)
    ensures n >= least && forall i :: 0 <= i < |p| && p[i].Lit? ==> |p[i].text| <= n
  {
    if p == [] {
      n := least;
    } else {
      n := LongestIn(p[..|p| - 1], least);
      if p[|p| - 1].Lit? && |p[|p| - 1].text| > n { n := |p[|p| - 1].text|; }
    }
  }

  /** Segments that lead down to the node `r`, with `odd` at the place `k`. */
  ghost function PathTo(r: Pattern, k: nat, odd: string, other: string): seq<string> {
    seq(|r|, i requires 0 <= i < |r| => if r[i].Lit? then r[i].text else if i == k then odd else other)
  }

  ghost predicate Leads(t: Table, segs: seq<string>, r: Pattern) {
    && |segs| == |r| && r in t
    && forall i :: 0 <= i < |r| ==>
         if r[i].Lit? then segs[i] == r[i].text else r[..i] + [Lit(segs[i])] !in t
  }

  lemma {:induction false} WalkTo(t: Table, m: Method, segs: seq<string>, r: Pattern, i: nat, ps: map<string, string>)
    requires WellFormed(t) && Leads(t, segs, r) && m in t[r] && i <= |r|
    ensures MatchFrom(t, m, segs[i..], r[..i], ps).Some?
    decreases |r| - i
  {
    if i == |r| {
      assert r[..i] == r;
    } else {
      assert r[..i + 1] == r[..i] + [r[i]] && segs[i..][1..] == segs[i + 1..];
      PrefixPresent(t, r[..i + 1], r);
      if r[i].Lit? {
        WalkTo(t, m, segs, r, i + 1, ps);
      } else {
        OnlyParam(t, r[..i], r[i].name);
        WalkTo(t, m, segs, r, i + 1, Emplace(ps, r[i].name, segs[i]));
      }
    }
  }

  /** In the grown trie the same walk is caught by the new literal. */
  lemma {:induction false} WalkCaught(t: Table, s: Table, at: Pattern, child: Seg, m: Method, segs: seq<string>,
                                      r: Pattern, i: nat, ps: map<string, string>)
    requires Grown(t, s, at, child) && child.Lit? && Leads(t, segs, r)
    requires at < r && segs[|at|] == child.text && i <= |at|
    ensures MatchFrom(s, m, segs[i..], r[..i], ps) == None
    decreases |at| - i
  {
    if i == |at| {
      assert r[..i] == at;
      Caught(t, s, at, child, m, segs[i..], ps);
    } else {
      assert r[..i + 1] == r[..i] + [r[i]] && segs[i..][1..] == segs[i + 1..];
      WalkStep(t, s, at, child, segs, r, i);
      WalkCaught(t, s, at, child, m, segs, r, i + 1, if r[i].Lit? then ps else Emplace(ps, r[i].name, segs[i]));
    }
  }

  lemma Caught(t: Table, s: Table, at: Pattern, child: Seg, m: Method, segs: seq<string>, ps: map<string, string>)
    requires Grown(t, s, at, child) && segs != [] && child == Lit(segs[0])
    ensures MatchFrom(s, m, segs, at, ps) == None
  {
    NewSubtreeIsBare(t, s, at, child);
    NothingBelow(s, m, segs[1..], at + [child], ps);
  }

  /** Above the new literal the grown trie offers the walk the same child. */
  lemma WalkStep(t: Table, s: Table, at: Pattern, child: Seg, segs: seq<string>, r: Pattern, i: nat)
    requires Grown(t, s, at, child) && child.Lit? && Leads(t, segs, r) && i < |at| < |r|
    ensures if r[i].Lit? then r[i] == Lit(segs[i]) && r[..i] + [Lit(segs[i])] in s
            else r[..i] + [Lit(segs[i])] !in s && HasParam(s, r[..i]) && ParamName(s, r[..i]) == r[i].name
  {
    assert r[..i + 1] == r[..i] + [r[i]];
    PrefixPresent(t, r[..i], r);
    PrefixPresent(t, r[..i + 1], r);
    assert |r[..i]| == i && r[..i] != at;
    SameChild(t, s, at, child, r[..i], Lit(segs[i]));
    SameParam(t, s, at, child, r[..i]);
    if r[i].Param? { OnlyParam(t, r[..i], r[i].name); }
  }

  lemma LostMatch(t: Table, s: Table, at: Pattern, child: Seg) returns (m: Method, segs: seq<string>)
    requires Grown(t, s, at, child) && child.Lit? && PlainSegment(child.text)
    requires HasParam(t, at) && RouteBelow(t, at + [Param(ParamName(t, at))])
    ensures Plain(segs) && Match(t, m, segs).Some? && Match(s, m, segs) == None
  {
    var b := ParamName(t, at);
    var r: Pattern :| r in t && at + [Param(b)] <= r && t[r] != map[];
    m := SomeKey(t[r]);
    var other := SomeUnused(t);
    segs := PathTo(r, |at|, child.text, other);
    PrefixTrans(at, Param(b), r);
    PathLeads(t, at, b, child.text, r, other);
    assert segs[0..] == segs && r[..0] == [];
    WalkTo(t, m, segs, r, 0, map[]);
    WalkCaught(t, s, at, child, m, segs, r, 0, map[]);
  }

  /** With a literal that is no child of `at` and one that is nowhere in the trie. */
  lemma PathLeads(t: Table, at: Pattern, b: string, odd: string, r: Pattern, other: string)
    requires WellFormed(t) && r in t && at + [Param(b)] <= r && at + [Lit(odd)] !in t
    requires PlainSegment(odd) && Unused(t, other)
    ensures var segs := PathTo(r, |at|, odd, other); Leads(t, segs, r) && Plain(segs) && segs[|at|] == odd
  {
    var segs := PathTo(r, |at|, odd, other);
    assert r[..|at|] == at && r[|at|] == Param(b);
    forall i | 0 <= i < |r| && r[i].Param? ensures r[..i] + [Lit(segs[i])] !in t {
      var p := r[..i] + [Lit(segs[i])];
      assert p[i] == Lit(segs[i]);
      if i == |at| { assert r[..i] == at; }
    }
    forall x | x in segs ensures PlainSegment(x) {
      var i :| 0 <= i < |segs| && segs[i] == x;
    }
  }

  ghost predicate SameMatches(t: Table, s: Table) {
    forall m, segs :: Plain(segs) ==> Match(s, m, segs) == Match(t, m, segs)
  }

  /** A registration rejected for an unnamed parameter leaves every match as it was exactly when the
      first node it would create is not a literal beside a parameter that leads to a route. */
  lemma UnnamedRejectionIff(t: Table, m: Method, segs: seq<string>, e: Entry)
    requires WellFormed(t) && Plain(segs) && AddRoute(t, m, segs, e).error == Some(Unnamed)
    ensures SameMatches(t, AddRoute(t, m, segs, e).table) <==> !Shadows(t, segs, [])
  {
    var s := Resolve(t, segs, []).table;
    ResolveKeeps(t, segs, []);
    if s == t {
      NothingLeftNoShadow(t, segs, []);
    } else {
      var k, at, child := Leftover(t, segs, []);
      if Shadows(t, segs, []) {
        var m', lost := LostMatch(t, s, at, child);
      } else {
        forall m', path | Plain(path) ensures Match(s, m', path) == Match(t, m', path) {
          HarmlessGrowth(t, s, at, child, m', path, [], map[]);
        }
      }
    }
  }

  /** The router with the one route `/:p/y`. */
  function OneRoute(m: Method, e: Entry): seq<Registration> {
    [Registration(m, [":p", "y"], e)]
  }

  ghost function OneRouteTable(m: Method, e: Entry): Table {
    map[[] := map[], [Param("p")] := map[], [Param("p"), Lit("y")] := map[m := e]]
  }

  lemma ParamP()
    ensures SegOf(":p") == Param("p") && SegOf("y") == Lit("y")
  {
    assert ":p"[1..] == "p";
  }

  lemma OneRouteAdded(m: Method, e: Entry)
    ensures AddRoute(EMPTY, m, [":p", "y"], e) == Registered(OneRouteTable(m, e), None)
  {
    ParamP();
    EmptyOk();
    TwoStepsAdded(EMPTY, m, ":p", "p", "y", e);
  }

  lemma OneRouteBuilds(m: Method, e: Entry)
    ensures AllPlain(OneRoute(m, e)) && Build(OneRoute(m, e)) == Some(OneRouteTable(m, e))
  {
    OneRouteAdded(m, e);
    var rs := OneRoute(m, e);
    assert rs[..0] == [] && Build([]) == Some(EMPTY);
  }

  /** Two new nodes below the root, and a handler at the lower one. */
  lemma TwoStepsAdded(s: Table, m: Method, text: string, name: string, y: string, e: Entry)
    requires SegOf(text) == Param(name) && name != "" && SegOf(y) == Lit(y) && !HasParam(s, [])
    requires [Param(name)] !in s && [Param(name), Lit(y)] !in s
    ensures AddRoute(s, m, [text, y], e) ==
            Registered(s[[Param(name)] := map[]][[Param(name), Lit(y)] := map[m := e]], None)
  {
    var p, q := [Param(name)], [Param(name), Lit(y)];
    var s1 := s[p := map[]];
    assert [text, y][1..] == [y] && [] + p == p && p + [Lit(y)] == q;
    ResolveLast(s1, y, p, q);
    assert Resolve(s, [text, y], []) == Resolve(s1, [y], p);
    HandlerAtNewNode(s1, m, q, e);
  }

  lemma HandlerAtNewNode(s: Table, m: Method, q: Pattern, e: Entry)
    ensures var t := s[q := map[]]; t[q := t[q][m := e]] == s[q := map[m := e]]
  {
    assert map[][m := e] == map[m := e];
  }

  lemma ResolveLast(s: Table, y: string, p: Pattern, q: Pattern)
    requires SegOf(y) == Lit(y) && p + [Lit(y)] == q && q !in s
    ensures Resolve(s, [y], p) == Resolved(s[q := map[]], Ok(q))
  {
    assert [y][1..] == [];
  }

  /** `/:p/y` is found under `/a/y` until somebody fails to register `/a/:`. */
  lemma FailedRegistrationHidesRoute(m: Method, e: Entry)
    ensures Build(OneRoute(m, e)).Some?
    ensures var t := Build(OneRoute(m, e)).value;
            var failed := AddRoute(t, m, ["a", ":"], e);
            failed.error == Some(Unnamed) && !SameMatches(t, failed.table)
  {
    OneRouteBuilds(m, e);
    BuildKeeps(OneRoute(m, e));
    NoLiteralA(m, e);
    UnderParamP(m, e);
    RouteUnder(OneRouteTable(m, e), [], "p", [Param("p"), Lit("y")]);
    HidesBeside(OneRouteTable(m, e), "a", m, e);
  }

  lemma NoLiteralA(m: Method, e: Entry)
    ensures [Lit("a")] !in OneRouteTable(m, e)
  {
    assert [Lit("a")][0] != Param("p");
  }

  lemma UnderParamP(m: Method, e: Entry)
    ensures [] + [Param("p")] in OneRouteTable(m, e) && [] + [Param("p")] <= [Param("p"), Lit("y")]
    ensures [Param("p"), Lit("y")] in OneRouteTable(m, e) && OneRouteTable(m, e)[[Param("p"), Lit("y")]] == map[m := e]
    ensures map[m := e] != map[]
  {
    assert [] + [Param("p")] == [Param("p")];
    assert m in map[m := e];
  }

  lemma RouteUnder(t: Table, at: Pattern, b: string, r: Pattern)
    requires WellFormed(t) && at + [Param(b)] in t && r in t && at + [Param(b)] <= r && t[r] != map[]
    ensures HasParam(t, at) && ParamName(t, at) == b && RouteBelow(t, at + [Param(b)])
  {
    OnlyParam(t, at, b);
  }

  /** A failed registration below a new literal beside a parameter with routes. */
  lemma HidesBeside(t: Table, a: string, m: Method, e: Entry)
    requires WellFormed(t) && HasParam(t, []) && RouteBelow(t, [] + [Param(ParamName(t, []))])
    requires PlainSegment(a) && SegOf(a) == Lit(a) && [Lit(a)] !in t
    ensures AddRoute(t, m, [a, ":"], e).error == Some(Unnamed) && !SameMatches(t, AddRoute(t, m, [a, ":"], e).table)
  {
    var segs := [a, ":"];
    FailsBelow(t, a, m, e);
    assert [] + [Lit(a)] == [Lit(a)];
    UnnamedRejectionIff(t, m, segs, e);
  }

  lemma FailsBelow(t: Table, a: string, m: Method, e: Entry)
    requires PlainSegment(a) && SegOf(a) == Lit(a)
    ensures Plain([a, ":"])
    ensures AddRoute(t, m, [a, ":"], e) == Registered(AddNode(t, [Lit(a)]), Some(Unnamed))
  {
    var t1 := AddNode(t, [Lit(a)]);
    assert [a, ":"][1..] == [":"] && ":"[1..] == "" && [] + [Lit(a)] == [Lit(a)];
    assert Resolve(t1, [":"], [Lit(a)]) == Resolved(t1, Err(Unnamed));
    assert Resolve(t, [a, ":"], []) == Resolve(t1, [":"], [Lit(a)]);
  }
}
