/** When a registered route is found for a path that fits it. */
module RouteReach {
  import opened Wrappers
  import opened Http
  import opened RouteTable
  import opened RouteOrder

  /** Where the walk of `match` ends, if it gets through all segments. */
  ghost function WalkEnd(t: Table, segs: seq<string>, at: Pattern): Option<Pattern>
    decreases |segs|
  {
    if segs == [] then Some(at)
    else if at + [Lit(segs[0])] in t then WalkEnd(t, segs[1..], at + [Lit(segs[0])])
    else if HasParam(t, at) then WalkEnd(t, segs[1..], at + [Param(ParamName(t, at))])
    else None
  }

  /** A match is what is registered where the walk ends. */
  lemma {:induction false} MatchAtWalkEnd(t: Table, m: Method, segs: seq<string>, at: Pattern, ps: map<string, string>)
    ensures var end, found := WalkEnd(t, segs, at), MatchFrom(t, m, segs, at, ps);
            && (found.Some? <==> end.Some? && end.value in t && m in t[end.value])
            && (found.Some? ==> found.value.entry == t[end.value][m])
    decreases |segs|
  {
    if segs != [] {
      if at + [Lit(segs[0])] in t {
        MatchAtWalkEnd(t, m, segs[1..], at + [Lit(segs[0])], ps);
      } else if HasParam(t, at) {
        var a := ParamName(t, at);
        MatchAtWalkEnd(t, m, segs[1..], at + [Param(a)], Emplace(ps, a, segs[0]));
      }
    }
  }

  /** The path fits the pattern: as long, and equal at the literals. */
  ghost predicate FitsPath(p: Pattern, segs: seq<string>) {
    |p| == |segs| && forall i :: 0 <= i < |p| && p[i].Lit? ==> p[i].text == segs[i]
  }

  /** At the parameter `i` of the pattern the path is drawn to a literal instead. */
  ghost predicate DivertedAt(t: Table, p: Pattern, segs: seq<string>, i: int) {
    0 <= i < |p| && |p| == |segs| && p[i].Param? && p[..i] + [Lit(segs[i])] in t
  }

  ghost predicate Diverted(t: Table, p: Pattern, segs: seq<string>, from: nat) {
    exists i :: from <= i && DivertedAt(t, p, segs, i)
  }

  /** The walk for a path that fits a pattern of the trie ends at that pattern exactly when the path
      is not diverted on the way. */
  lemma {:induction false} WalkEndsIff(t: Table, p: Pattern, segs: seq<string>, k: nat)
    requires WellFormed(t) && p in t && FitsPath(p, segs) && k <= |p|
    ensures WalkEnd(t, segs[k..], p[..k]) == Some(p) <==> !Diverted(t, p, segs, k)
    decreases |p| - k
  {
    if k == |p| {
      assert p[..k] == p;
    } else {
      assert segs[k..][1..] == segs[k + 1..] && p[..k + 1] == p[..k] + [p[k]];
      PrefixPresent(t, p[..k + 1], p);
      WalkEndsIff(t, p, segs, k + 1);
      if DivertedAt(t, p, segs, k) {
        WalkGoesOn(t, segs[k + 1..], p[..k] + [Lit(segs[k])]);
        OtherBranch(p, k, Lit(segs[k]));
      } else if p[k].Param? {
        OnlyParam(t, p[..k], p[k].name);
      }
    }
  }

  lemma OtherBranch(p: Pattern, k: nat, s: Seg)
    requires k < |p| && p[k] != s
    ensures !(p[..k] + [s] <= p)
  {
    assert (p[..k] + [s])[k] == s;
  }

  lemma {:induction false} WalkGoesOn(t: Table, segs: seq<string>, at: Pattern)
    ensures WalkEnd(t, segs, at).Some? ==> at <= WalkEnd(t, segs, at).value
    decreases |segs|
  {
    if segs != [] {
      if at + [Lit(segs[0])] in t {
        WalkGoesOn(t, segs[1..], at + [Lit(segs[0])]);
      } else if HasParam(t, at) {
        WalkGoesOn(t, segs[1..], at + [Param(ParamName(t, at))]);
      }
    }
  }

  /** A registered route is reached by a path that fits it, and then found, exactly when the path is
      nowhere drawn away from a parameter of the pattern to a literal of the trie. */
  lemma RouteFoundIff(t: Table, m: Method, p: Pattern, segs: seq<string>)
    requires WellFormed(t) && p in t && m in t[p] && FitsPath(p, segs)
    ensures WalkEnd(t, segs, []) == Some(p) <==> !Diverted(t, p, segs, 0)
    ensures !Diverted(t, p, segs, 0) ==> Match(t, m, segs).Some? && Match(t, m, segs).value.entry == t[p][m]
  {
    assert segs[0..] == segs && p[..0] == [];
    WalkEndsIff(t, p, segs, 0);
    MatchAtWalkEnd(t, m, segs, [], map[]);
  }

  /** A registered pattern goes on with the literal where `p` has its parameter `i`. */
  ghost predicate Draws(s: Registration, p: Pattern, segs: seq<string>, i: int) {
    0 <= i < |p| && |p| == |segs| && p[i].Param? && p[..i] + [Lit(segs[i])] <= PatternOf(s.segs)
  }

  ghost predicate Drawn(rs: seq<Registration>, p: Pattern, segs: seq<string>) {
    exists s, i :: s in rs && Draws(s, p, segs, i)
  }

  /** The same for a list of registrations: a registered route is reached by a path that fits it if
      and only if no registered pattern follows it up to one of its parameters and has the segment of
      the path there as a literal. */
  lemma RegisteredRouteFoundIff(rs: seq<Registration>, r: Registration, segs: seq<string>)
    requires AllPlain(rs) && Build(rs).Some? && r in rs && FitsPath(PatternOf(r.segs), segs)
    ensures var t, p := Build(rs).value, PatternOf(r.segs);
            && (WalkEnd(t, segs, []) == Some(p) <==> !Drawn(rs, p, segs))
            && (!Drawn(rs, p, segs) ==> Match(t, r.verb, segs).Some? && Match(t, r.verb, segs).value.entry == r.entry)
  {
    var t, p := Build(rs).value, PatternOf(r.segs);
    BuildIff(rs);
    BuildKeeps(rs);
    assert Listed(rs, p, r.verb, r.entry);
    assert HasRoute(t, p, r.verb, r.entry);
    RouteFoundIff(t, r.verb, p, segs);
    DivertedIffDrawn(rs, p, segs);
  }

  lemma DivertedIffDrawn(rs: seq<Registration>, p: Pattern, segs: seq<string>)
    requires AllPlain(rs) && Build(rs).Some?
    ensures Diverted(Build(rs).value, p, segs, 0) <==> Drawn(rs, p, segs)
  {
    var t := Build(rs).value;
    if i :| 0 <= i && DivertedAt(t, p, segs, i) {
      NodeOfRegistration(rs, p[..i] + [Lit(segs[i])]);
      var s :| s in rs && p[..i] + [Lit(segs[i])] <= PatternOf(s.segs);
      assert Draws(s, p, segs, i);
    }
    if s, i :| s in rs && Draws(s, p, segs, i) {
      NodeOfRegistration(rs, p[..i] + [Lit(segs[i])]);
      assert DivertedAt(t, p, segs, i);
    }
  }

  /** The nodes of the trie are the prefixes of the registered patterns. */
  lemma NodeOfRegistration(rs: seq<Registration>, p: Pattern)
    requires AllPlain(rs) && Build(rs).Some? && p != []
    ensures p in Build(rs).value <==> exists s :: s in rs && p <= PatternOf(s.segs)
  {
    var t := Build(rs).value;
    BuildIff(rs);
    BuildKeeps(rs);
    NodesArePrefixes(t, p);
    if q :| q in Routes(t) && p <= q {
      var m := SomeKey(t[q]);
      assert HasRoute(t, q, m, t[q][m]);
      var s :| s in rs && PatternOf(s.segs) == q && s.verb == m;
    }
    if s :| s in rs && p <= PatternOf(s.segs) {
      assert Listed(rs, PatternOf(s.segs), s.verb, s.entry);
      assert HasRoute(t, PatternOf(s.segs), s.verb, s.entry);
      PrefixPresent(t, p, PatternOf(s.segs));
    }
  }

  // ---------------------------------------------------------------- an example

  /** The routes `/a/x` and `/:p/y`, registered in this order. */
  function Siblings(m: Method, e: Entry, f: Entry): seq<Registration> {
    [Registration(m, ["a", "x"], e), Registration(m, [":p", "y"], f)]
  }

  lemma SiblingsBuild(m: Method, e: Entry, f: Entry)
    ensures AllPlain(Siblings(m, e, f)) && Build(Siblings(m, e, f)).Some?
    ensures PatternOf(["a", "x"]) == [Lit("a"), Lit("x")] && PatternOf([":p", "y"]) == [Param("p"), Lit("y")]
  {
    var rs := Siblings(m, e, f);
    assert ":p"[1..] == "p";
    assert PatternOf(["a", "x"]) == [Lit("a"), Lit("x")] && PatternOf([":p", "y"]) == [Param("p"), Lit("y")];
    forall i ensures !ClashAt([Lit("a"), Lit("x")], [Param("p"), Lit("y")], i) {}
    BuildIff(rs);
  }

  /** With both registered `/b/y` is found and `/a/y` is not, although it fits `/:p/y`. */
  lemma StaticSiblingHidesRoute(m: Method, e: Entry, f: Entry)
    ensures Build(Siblings(m, e, f)).Some?
    ensures var t := Build(Siblings(m, e, f)).value;
            && FitsPath([Param("p"), Lit("y")], ["a", "y"]) && Match(t, m, ["a", "y"]) == None
            && Match(t, m, ["b", "y"]).Some? && Match(t, m, ["b", "y"]).value.entry == f
  {
    SiblingsBuild(m, e, f);
    SiblingsEndAtA(m, e, f);
    NoBacktracking(Build(Siblings(m, e, f)).value, m);
    SiblingsReachB(m, e, f);
  }

  /** The node of `/a` has the one child `x`. */
  lemma SiblingsEndAtA(m: Method, e: Entry, f: Entry)
    requires Build(Siblings(m, e, f)).Some? && AllPlain(Siblings(m, e, f))
    requires PatternOf(["a", "x"]) == [Lit("a"), Lit("x")] && PatternOf([":p", "y"]) == [Param("p"), Lit("y")]
    ensures var t := Build(Siblings(m, e, f)).value;
            [Lit("a")] in t && [Lit("a"), Lit("y")] !in t && !HasParam(t, [Lit("a")])
  {
    var rs := Siblings(m, e, f);
    var t := Build(rs).value;
    assert rs[0] in rs;
    NodeOfRegistration(rs, [Lit("a")]);
    NodeOfRegistration(rs, [Lit("a"), Lit("y")]);
    forall a ensures [Lit("a")] + [Param(a)] !in t {
      var p := [Lit("a")] + [Param(a)];
      assert p[0] == Lit("a") && p[1] == Param(a);
      NodeOfRegistration(rs, p);
    }
  }

  lemma SiblingsReachB(m: Method, e: Entry, f: Entry)
    requires Build(Siblings(m, e, f)).Some? && AllPlain(Siblings(m, e, f))
    requires PatternOf(["a", "x"]) == [Lit("a"), Lit("x")] && PatternOf([":p", "y"]) == [Param("p"), Lit("y")]
    ensures var t := Build(Siblings(m, e, f)).value;
            Match(t, m, ["b", "y"]).Some? && Match(t, m, ["b", "y"]).value.entry == f
  {
    var rs := Siblings(m, e, f);
    assert rs[1] in rs;
    RegisteredRouteFoundIff(rs, rs[1], ["b", "y"]);
    forall s, i | s in rs ensures !Draws(s, [Param("p"), Lit("y")], ["b", "y"], i) {}
  }
}
