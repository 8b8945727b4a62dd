/** What the nodes left behind by a rejected registration do to later registrations. */
module RouteLater {
  import opened Wrappers
  import opened Http
  import opened RouteTable
  import opened RouteOrder
  import opened RouteShadow

  /** The walk creates a parameter node before it meets the unnamed parameter. */
  ghost predicate LeavesParam(t: Table, segs: seq<string>, at: Pattern)
    decreases |segs|
  {
    segs != [] &&
    match SegOf(segs[0])
    case Param(name) => name != "" && (at + [Param(name)] !in t || LeavesParam(t, segs[1..], at + [Param(name)]))
    case Lit(text) => LeavesParam(t, segs[1..], at + [Lit(text)])
  }

  /** Every registration has the same outcome in both tables. */
  ghost predicate SameOutcomes(t: Table, s: Table) {
    forall m, segs, e :: Plain(segs) ==> AddRoute(s, m, segs, e).error == AddRoute(t, m, segs, e).error
  }

  // ---------------------------------------------------------------- without new parameters

  ghost predicate SameParams(t: Table, s: Table) {
    forall p: Pattern, a :: p + [Param(a)] in t <==> p + [Param(a)] in s
  }

  lemma SameParamName(t: Table, s: Table, at: Pattern)
    requires WellFormed(t) && WellFormed(s) && SameParams(t, s)
    ensures HasParam(t, at) <==> HasParam(s, at)
    ensures HasParam(t, at) ==> ParamName(t, at) == ParamName(s, at)
  {
    if HasParam(t, at) { OnlyParam(s, at, ParamName(t, at)); }
  }

  lemma {:induction false} SameWay(t: Table, s: Table, segs: seq<string>, at: Pattern)
    requires WellFormed(t) && WellFormed(s) && SameParams(t, s) && at in t && at in s && Plain(segs)
    ensures Resolve(t, segs, at).node == Resolve(s, segs, at).node
    decreases |segs|
  {
    if segs != [] {
      var c := SegOf(segs[0]);
      assert segs[0] in segs;
      PlainTail(segs);
      SameParamName(t, s, at);
      if c.Lit? || (c.name != "" && (HasParam(t, at) ==> ParamName(t, at) == c.name)) {
        AddNodeKeeps(t, at, c);
        AddNodeKeeps(s, at, c);
        SameWay(AddNode(t, at + [c]), AddNode(s, at + [c]), segs[1..], at + [c]);
      }
    }
  }

  lemma SameParamsSameOutcomes(t: Table, s: Table)
    requires WellFormed(t) && WellFormed(s) && SameParams(t, s) && Extends(t, s) && NewAreBare(t, s)
    ensures SameOutcomes(t, s)
  {
    forall m, segs, e | Plain(segs) ensures AddRoute(s, m, segs, e).error == AddRoute(t, m, segs, e).error {
      SameWay(t, s, segs, []);
      ResolveKeeps(t, segs, []);
      ResolveKeeps(s, segs, []);
      assert [] + PatternOf(segs) == PatternOf(segs);
    }
  }

  /** A walk that creates no parameter node leaves the parameter nodes as they were. */
  lemma {:induction false} NoNewParams(t: Table, now: Table, segs: seq<string>, at: Pattern)
    requires WellFormed(now) && at in now && SameParams(t, now) && Plain(segs) && !LeavesParam(t, segs, at)
    requires Resolve(now, segs, at).node == Err(Unnamed)
    ensures SameParams(t, Resolve(now, segs, at).table)
    decreases |segs|
  {
    var c := SegOf(segs[0]);
    assert segs[0] in segs;
    PlainTail(segs);
    if c != Param("") {
      AddNodeKeeps(now, at, c);
      forall p: Pattern, a ensures p + [Param(a)] in t <==> p + [Param(a)] in AddNode(now, at + [c]) {
        LastOf(p, Param(a), at, c);
      }
      NoNewParams(t, AddNode(now, at + [c]), segs[1..], at + [c]);
    }
  }

  // ---------------------------------------------------------------- with a new parameter

  /** What is new of the pattern is literal. */
  ghost predicate NewAreLiteral(t: Table, p: Pattern) {
    forall i :: 0 <= i < |p| && p[..i + 1] !in t ==> p[i].Lit?
  }

  ghost predicate SpellsOut(way: seq<string>, p: Pattern) {
    Plain(way) && Named(way) && PatternOf(way) == p
  }

  lemma SpellsOneMore(way: seq<string>, p: Pattern, text: string)
    requires SpellsOut(way, p) && PlainSegment(text) && SegOf(text) != Param("")
    ensures SpellsOut(way + [text], p + [SegOf(text)])
  {
    assert forall x :: x in way + [text] ==> x in way || x == text;
  }

  lemma NewLiteralOneMore(t: Table, p: Pattern, c: Seg)
    requires NewAreLiteral(t, p) && (c.Lit? || p + [c] in t)
    ensures NewAreLiteral(t, p + [c])
  {
    var q := p + [c];
    forall i | 0 <= i < |q| && q[..i + 1] !in t ensures q[i].Lit? {
      if i < |p| { assert q[..i + 1] == p[..i + 1]; } else { assert q[..i + 1] == q; }
    }
  }

  /** The first parameter node created, with segments that lead there. */
  lemma {:induction false} FirstNewParam(t: Table, now: Table, segs: seq<string>, at: Pattern, path: seq<string>)
    returns (q: Pattern, x: string, way: seq<string>)
    requires WellFormed(t) && WellFormed(now) && at in now && SameParams(t, now) && Plain(segs)
    requires SpellsOut(path, at) && NewAreLiteral(t, at)
    requires LeavesParam(t, segs, at) && Resolve(now, segs, at).node == Err(Unnamed)
    ensures SpellsOut(way, q) && NewAreLiteral(t, q) && '/' !in x
    ensures !HasParam(t, q) && q + [Param(x)] in Resolve(now, segs, at).table
    decreases |segs|
  {
    var c := SegOf(segs[0]);
    assert segs[0] in segs;
    PlainTail(segs);
    AddNodeKeeps(now, at, c);
    ResolveKeeps(AddNode(now, at + [c]), segs[1..], at + [c]);
    if c.Param? && at + [c] !in t {
      q, x, way := at, c.name, path;
      SameParamName(t, now, at);
    } else {
      SpellsOneMore(path, at, segs[0]);
      NewLiteralOneMore(t, at, c);
      forall p: Pattern, a ensures p + [Param(a)] in t <==> p + [Param(a)] in AddNode(now, at + [c]) {
        LastOf(p, Param(a), at, c);
      }
      q, x, way := FirstNewParam(t, AddNode(now, at + [c]), segs[1..], at + [c], path + [segs[0]]);
    }
  }

  /** With another name for that parameter a registration that succeeded before now fails. */
  lemma OtherNameFails(t: Table, s: Table, q: Pattern, x: string, way: seq<string>) returns (segs: seq<string>)
    requires WellFormed(t) && WellFormed(s) && [] in t && SpellsOut(way, q) && NewAreLiteral(t, q) && '/' !in x
    requires !HasParam(t, q) && q + [Param(x)] in s
    ensures Plain(segs)
    ensures forall m, e :: AddRoute(t, m, segs, e).error == None && AddRoute(s, m, segs, e).error.Some?
  {
    var y := x + "a";
    var text := ":" + y;
    assert text[1..] == y && SegOf(text) == Param(y);
    SpellsOneMore(way, q, text);
    segs := way + [text];
    var p, r := q + [Param(y)], q + [Param(x)];
    assert [] + PatternOf(segs) == p;
    assert y != x by { assert |y| == |x| + 1; }
    ResolveOkIff(t, segs, []);
    ResolveOkIff(s, segs, []);
    NothingClashes(t, q, y);
    assert ClashAt(p, r, |q|) by { assert p[..|q|] == q == r[..|q|]; }
    ResolveKeeps(t, segs, []);
    assert p !in t;
  }

  lemma NothingClashes(t: Table, q: Pattern, y: string)
    requires WellFormed(t) && NewAreLiteral(t, q) && !HasParam(t, q)
    ensures !ClashesBelow(t, q + [Param(y)], 0)
  {
    var p := q + [Param(y)];
    assert p[..|q|] == q;
    forall r: Pattern, i | r in t && 0 <= i ensures !ClashAt(p, r, i) {
      if i < |r| && i < |p| && r[..i] == p[..i] && r[i].Param? {
        assert r[..i + 1] == p[..i] + [r[i]];
        PrefixPresent(t, r[..i + 1], r);
        if i < |q| {
          assert p[..i] == q[..i] && p[..i + 1] == q[..i] + [q[i]] == q[..i + 1];
          if q[i].Param? { OneParam(t, q[..i], q[i].name, r[i].name); }
        }
      }
    }
  }

  /** A registration rejected for an unnamed parameter leaves the outcome of every later one as it
      was exactly when it created no parameter node on the way. */
  lemma LaterOutcomesIff(t: Table, m: Method, segs: seq<string>, e: Entry)
    requires WellFormed(t) && Plain(segs) && AddRoute(t, m, segs, e).error == Some(Unnamed)
    ensures SameOutcomes(t, AddRoute(t, m, segs, e).table) <==> !LeavesParam(t, segs, [])
  {
    var s := Resolve(t, segs, []).table;
    ResolveKeeps(t, segs, []);
    if LeavesParam(t, segs, []) {
      assert SpellsOut([], []);
      var q, x, way := FirstNewParam(t, t, segs, [], []);
      var later := OtherNameFails(t, s, q, x, way);
      assert AddRoute(s, m, later, e).error != AddRoute(t, m, later, e).error;
    } else {
      NoNewParams(t, t, segs, []);
      SameParamsSameOutcomes(t, s);
    }
  }

  /** After a failed `/b/:x/:` on an empty router `/b/:y` is refused, which succeeds without it. */
  lemma FailedRegistrationBlocksRoute(m: Method, e: Entry)
    ensures var failed := AddRoute(EMPTY, m, ["b", ":x", ":"], e);
            failed.error == Some(Unnamed) && !SameOutcomes(EMPTY, failed.table)
  {
    var segs := ["b", ":x", ":"];
    assert segs[1..] == [":x", ":"] && segs[1..][1..] == [":"] && ":x"[1..] == "x" && ":"[1..] == "";
    assert Plain(segs);
    EmptyOk();
    assert [] + [Lit("b")] == [Lit("b")];
    assert [Lit("b")] + [Param("x")] !in EMPTY;
    NoParamsYet("b");
    LaterOutcomesIff(EMPTY, m, segs, e);
  }

  lemma NoParamsYet(text: string)
    ensures forall at: Pattern :: !HasParam(AddNode(EMPTY, [Lit(text)]), at) && !HasParam(EMPTY, at)
  {
    forall at: Pattern, a ensures at + [Param(a)] !in AddNode(EMPTY, [Lit(text)]) && at + [Param(a)] !in EMPTY {
      assert (at + [Param(a)])[|at|] == Param(a);
    }
  }

  // ---------------------------------------------------------------- whatever is registered later

  /** The table after a list of registrations, whatever their outcomes. */
  ghost function After(t: Table, rs: seq<Registration>): Table {
    if rs == [] then t
    else
      var r := rs[|rs| - 1];
      AddRoute(After(t, rs[..|rs| - 1]), r.verb, r.segs, r.entry).table
  }

  lemma AfterOne(t: Table, r: Registration)
    ensures After(t, [r]) == AddRoute(t, r.verb, r.segs, r.entry).table
    ensures LastOutcome(t, [r]) == AddRoute(t, r.verb, r.segs, r.entry).error
  {
    assert [r][..0] == [] && After(t, []) == t;
  }

  /** The outcome of the last of them. */
  ghost function LastOutcome(t: Table, rs: seq<Registration>): Option<RegError>
    requires rs != []
  {
    var r := rs[|rs| - 1];
    AddRoute(After(t, rs[..|rs| - 1]), r.verb, r.segs, r.entry).error
  }

  /** Nobody can tell the tables apart: after the same registrations the next has the same outcome
      and every match is the same. */
  ghost predicate Indistinguishable(t: Table, s: Table) {
    forall rs {:trigger AllPlain(rs)} :: AllPlain(rs) ==>
      && (rs != [] ==> LastOutcome(s, rs) == LastOutcome(t, rs))
      && SameMatches(After(t, rs), After(s, rs))
  }

  /** Parameters have names that can be registered. */
  ghost predicate Sayable(t: Table) {
    forall p: Pattern, i :: p in t && 0 <= i < |p| && p[i].Param? ==> PlainSegment(p[i].name)
  }

  lemma {:induction false} ResolveKeepsSayable(t: Table, segs: seq<string>, at: Pattern)
    requires Sayable(t) && at in t && Plain(segs)
    ensures Sayable(Resolve(t, segs, at).table)
    decreases |segs|
  {
    if segs != [] {
      var s := SegOf(segs[0]);
      assert segs[0] in segs;
      PlainTail(segs);
      if s != Param("") {
        assert forall c :: c in segs[0][1..] ==> c in segs[0];
        var p, t' := at + [s], AddNode(t, at + [s]);
        assert forall i :: 0 <= i < |at| ==> p[i] == at[i];
        ResolveKeepsSayable(t', segs[1..], p);
      }
    }
  }

  lemma {:induction false} AfterKeeps(rs: seq<Registration>)
    requires AllPlain(rs)
    ensures WellFormed(After(EMPTY, rs)) && Sayable(After(EMPTY, rs))
  {
    if rs == [] {
      EmptyOk();
    } else {
      var init, r := rs[..|rs| - 1], rs[|rs| - 1];
      assert r in rs && forall x :: x in init ==> x in rs;
      AfterKeeps(init);
      AddRouteKeeps(After(EMPTY, init), r.verb, r.segs, r.entry);
      ResolveKeepsSayable(After(EMPTY, init), r.segs, []);
      SayableUpdate(After(EMPTY, init), r.verb, r.segs, r.entry);
    }
  }

  lemma SayableUpdate(t: Table, m: Method, segs: seq<string>, e: Entry)
    requires Sayable(Resolve(t, segs, []).table)
    ensures Sayable(AddRoute(t, m, segs, e).table)
  {}

  // ---------------------------------------------------------------- one more registration

  lemma {:induction false} WalkExisting(t: Table, way: seq<string>, rest: seq<string>, at: Pattern)
    requires WellFormed(t) && Named(way) && at + PatternOf(way) in t
    ensures Resolve(t, way + rest, at) == Resolve(t, rest, at + PatternOf(way))
    decreases |way|
  {
    if way == [] {
      assert way + rest == rest && at + PatternOf(way) == at;
    } else {
      var s := SegOf(way[0]);
      assert (way + rest)[1..] == way[1..] + rest;
      NamedTail(way);
      PatternStep(at, way);
      PrefixPresent(t, at + [s], at + PatternOf(way));
      if s.Param? { OnlyParam(t, at, s.name); }
      WalkExisting(t, way[1..], rest, at + [s]);
    }
  }

  lemma ParamSegment(way: seq<string>, b: string)
    requires Plain(way) && PlainSegment(b)
    ensures Plain(way + [":" + b]) && SegOf(":" + b) == Param(b)
  {
    assert (":" + b)[1..] == b;
    assert forall x :: x in way + [":" + b] ==> x in way || x == ":" + b;
  }

  lemma ResolveParam(t: Table, at: Pattern, text: string, b: string)
    requires SegOf(text) == Param(b) && b != "" && (HasParam(t, at) ==> ParamName(t, at) == b)
    ensures Resolve(t, [text], at) == Resolved(AddNode(t, at + [Param(b)]), Ok(at + [Param(b)]))
  {
    assert [text][1..] == [];
  }

  /** A route registered as the parameter child of a node that is there. */
  lemma ParamRouteAdded(t: Table, way: seq<string>, b: string, m: Method, e: Entry)
    requires WellFormed(t) && Plain(way) && Named(way) && PatternOf(way) in t && PlainSegment(b)
    requires HasParam(t, PatternOf(way)) ==> ParamName(t, PatternOf(way)) == b
    requires PatternOf(way) + [Param(b)] in t ==> t[PatternOf(way) + [Param(b)]] == map[]
    ensures Plain(way + [":" + b])
    ensures AddRoute(t, m, way + [":" + b], e) ==
            Registered(t[PatternOf(way) + [Param(b)] := map[m := e]], None)
    ensures WellFormed(AddRoute(t, m, way + [":" + b], e).table)
  {
    var last, at := ":" + b, PatternOf(way);
    ParamSegment(way, b);
    assert [] + at == at;
    WalkExisting(t, way, [last], []);
    ResolveParam(t, at, last, b);
    AddRouteKeeps(t, m, way + [last], e);
  }

  /** A literal node left behind hides a route that is registered beside it later. */
  lemma LiteralNoticed(t: Table, s: Table, way: seq<string>, child: Seg, m: Method, e: Entry)
    requires Grown(t, s, PatternOf(way), child) && Sayable(t) && Plain(way) && Named(way)
    requires child.Lit? && PlainSegment(child.text)
    ensures !Indistinguishable(t, s)
  {
    var at := PatternOf(way);
    if HasParam(t, at) && RouteBelow(t, at + [Param(ParamName(t, at))]) {
      var m', lost := LostMatch(t, s, at, child);
      assert AllPlain([]) && After(t, []) == t && After(s, []) == s;
    } else {
      if HasParam(t, at) { ParamIsSayable(t, at); }
      HiddenLater(t, s, way, child, if HasParam(t, at) then ParamName(t, at) else "x", m, e);
    }
  }

  lemma ParamIsSayable(t: Table, at: Pattern)
    requires Sayable(t) && HasParam(t, at)
    ensures PlainSegment(ParamName(t, at))
  {
    var p := at + [Param(ParamName(t, at))];
    assert p in t && p[|at|].Param?;
  }

  /** Below a parameter without routes one is registered. */
  lemma HiddenLater(t: Table, s: Table, way: seq<string>, child: Seg, b: string, m: Method, e: Entry)
    requires Grown(t, s, PatternOf(way), child) && Plain(way) && Named(way) && child.Lit? && PlainSegment(child.text)
    requires PlainSegment(b) && (HasParam(t, PatternOf(way)) ==> ParamName(t, PatternOf(way)) == b)
    requires HasParam(t, PatternOf(way)) ==> !RouteBelow(t, PatternOf(way) + [Param(b)])
    ensures !Indistinguishable(t, s)
  {
    var at, p := PatternOf(way), PatternOf(way) + [Param(b)];
    SameParam(t, s, at, child, at);
    BareParam(t, at, b);
    ParamRouteAdded(t, way, b, m, e);
    ParamRouteAdded(s, way, b, m, e);
    var r := Registration(m, way + [":" + b], e);
    AfterOne(t, r);
    AfterOne(s, r);
    assert AllPlain([r]);
    LosesMatch(t, s, at, child, b, m, e);
    assert !SameMatches(After(t, [r]), After(s, [r]));
  }

  lemma LosesMatch(t: Table, s: Table, at: Pattern, child: Seg, b: string, m: Method, e: Entry)
    requires Grown(t, s, at, child) && child.Lit? && PlainSegment(child.text)
    requires WellFormed(t[at + [Param(b)] := map[m := e]]) && WellFormed(s[at + [Param(b)] := map[m := e]])
    ensures !SameMatches(t[at + [Param(b)] := map[m := e]], s[at + [Param(b)] := map[m := e]])
  {
    var p := at + [Param(b)];
    var t', s' := t[p := map[m := e]], s[p := map[m := e]];
    StillGrown(t, s, at, child, b, map[m := e]);
    assert m in t'[p];
    RouteUnder(t', at, b, p);
    var m', lost := LostMatch(t', s', at, child);
  }

  lemma BareParam(t: Table, at: Pattern, b: string)
    requires !HasParam(t, at) || !RouteBelow(t, at + [Param(b)])
    ensures at + [Param(b)] in t ==> t[at + [Param(b)]] == map[]
  {
    assert at + [Param(b)] <= at + [Param(b)];
  }

  lemma StillGrown(t: Table, s: Table, at: Pattern, child: Seg, b: string, hs: map<Method, Entry>)
    requires Grown(t, s, at, child) && child.Lit?
    requires WellFormed(t[at + [Param(b)] := hs]) && WellFormed(s[at + [Param(b)] := hs])
    ensures Grown(t[at + [Param(b)] := hs], s[at + [Param(b)] := hs], at, child)
  {
    LastOf(at, Param(b), at, child);
  }

  /** A parameter node left behind refuses another name. */
  lemma ParamNoticed(t: Table, s: Table, way: seq<string>, x: string, m: Method, e: Entry)
    requires Grown(t, s, PatternOf(way), Param(x)) && Plain(way) && Named(way) && '/' !in x
    ensures !Indistinguishable(t, s)
  {
    var q := PatternOf(way);
    forall i | 0 <= i < |q| ensures q[i].Lit? || q[..i + 1] in t { PrefixPresent(t, q[..i + 1], q); }
    var segs := OtherNameFails(t, s, q, x, way);
    var rs := [Registration(m, segs, e)];
    AfterOne(t, rs[0]);
    AfterOne(s, rs[0]);
    assert AllPlain(rs);
    assert LastOutcome(t, rs) == None && LastOutcome(s, rs).Some?;
  }

  /** After any registrations, one that is rejected for an unnamed parameter is never noticed,
      whatever is registered and matched later, if and only if it created no node. */
  lemma NeverNoticedIff(before: seq<Registration>, m: Method, segs: seq<string>, e: Entry)
    requires AllPlain(before) && Plain(segs) && AddRoute(After(EMPTY, before), m, segs, e).error == Some(Unnamed)
    ensures var t := After(EMPTY, before);
            var s := AddRoute(t, m, segs, e).table;
            Indistinguishable(t, s) <==> s == t
  {
    var t := After(EMPTY, before);
    var s := Resolve(t, segs, []).table;
    AfterKeeps(before);
    ResolveKeeps(t, segs, []);
    if s != t {
      var way, child := WayToLeftover(t, segs);
      if child.Lit? {
        LiteralNoticed(t, s, way, child, m, e);
      } else {
        ParamNoticed(t, s, way, child.name, m, e);
      }
    }
  }

  lemma WayToLeftover(t: Table, segs: seq<string>) returns (way: seq<string>, child: Seg)
    requires WellFormed(t) && Plain(segs) && Resolve(t, segs, []).node == Err(Unnamed)
    requires Resolve(t, segs, []).table != t
    ensures Grown(t, Resolve(t, segs, []).table, PatternOf(way), child) && Plain(way) && Named(way)
    ensures if child.Lit? then PlainSegment(child.text) else '/' !in child.name
  {
    var k, at;
    k, at, child := Leftover(t, segs, []);
    way := segs[..k];
    FrontOf(segs, k);
    assert [] + PatternOf(way) == PatternOf(way);
    assert segs[k] in segs;
    if child.Param? { assert forall c :: c in segs[k][1..] ==> c in segs[k]; }
  }

  lemma FrontOf(segs: seq<string>, k: nat)
    requires k < |segs| && Plain(segs) && Named(segs[..k + 1])
    ensures Plain(segs[..k]) && Named(segs[..k])
  {
    assert forall x :: x in segs[..k] ==> x in segs;
    assert forall i :: 0 <= i < k ==> segs[..k][i] == segs[..k + 1][i];
  }

  /** The condition by the nodes: those on the way to the unnamed segment are there already. */
  lemma {:induction false} NothingCreatedIff(t: Table, segs: seq<string>, at: Pattern, k: nat)
    requires WellFormed(t) && at in t && Plain(segs) && Resolve(t, segs, at).node == Err(Unnamed)
    requires k < |segs| && Named(segs[..k]) && SegOf(segs[k]) == Param("")
    ensures Resolve(t, segs, at).table == t <==> at + PatternOf(segs[..k]) in t
    decreases |segs|
  {
    var s := SegOf(segs[0]);
    assert segs[0] in segs;
    PlainTail(segs);
    if k == 0 {
      assert at + PatternOf(segs[..0]) == at;
    } else {
      assert segs[..k][0] == segs[0] && segs[..k][1..] == segs[1..][..k - 1];
      NamedTail(segs[..k]);
      PatternStep(at, segs[..k]);
      AddNodeKeeps(t, at, s);
      if at + [s] in t {
        NothingCreatedIff(t, segs[1..], at + [s], k - 1);
      } else {
        ResolveKeeps(AddNode(t, at + [s]), segs[1..], at + [s]);
        if at + PatternOf(segs[..k]) in t { PrefixPresent(t, at + [s], at + PatternOf(segs[..k])); }
      }
    }
  }

  // ---------------------------------------------------------------- an example

  /** On an empty router a failed `/a/:` changes no match and no outcome of the next registration.
      Yet once `/:p/y` is registered, `/a/y` is found if and only if nobody had failed so before. */
  lemma NoticedLater(m: Method, e: Entry)
    ensures var s := AddRoute(EMPTY, m, ["a", ":"], e).table;
            && SameMatches(EMPTY, s) && SameOutcomes(EMPTY, s)
            && AddRoute(EMPTY, m, [":p", "y"], e).error == None == AddRoute(s, m, [":p", "y"], e).error
            && Match(AddRoute(EMPTY, m, [":p", "y"], e).table, m, ["a", "y"]).Some?
            && Match(AddRoute(s, m, [":p", "y"], e).table, m, ["a", "y"]) == None
  {
    FailsQuietly(m, e);
    FoundWithout(m, e);
    HiddenAfter(m, e);
  }

  lemma LeavesNodeA(m: Method, e: Entry)
    ensures AddRoute(EMPTY, m, ["a", ":"], e) == Registered(map[[] := map[], [Lit("a")] := map[]], Some(Unnamed))
    ensures Plain(["a", ":"])
  {
    FailsBelow(EMPTY, "a", m, e);
  }

  lemma FailsQuietly(m: Method, e: Entry)
    ensures var s := AddRoute(EMPTY, m, ["a", ":"], e).table; SameMatches(EMPTY, s) && SameOutcomes(EMPTY, s)
  {
    LeavesNodeA(m, e);
    EmptyOk();
    NoParamsYet("a");
    assert ["a", ":"][1..] == [":"] && ":"[1..] == "";
    assert [] + [Lit("a")] == [Lit("a")];
    UnnamedRejectionIff(EMPTY, m, ["a", ":"], e);
    LaterOutcomesIff(EMPTY, m, ["a", ":"], e);
  }

  lemma FoundWithout(m: Method, e: Entry)
    ensures AddRoute(EMPTY, m, [":p", "y"], e).error == None
    ensures Match(AddRoute(EMPTY, m, [":p", "y"], e).table, m, ["a", "y"]).Some?
  {
    OneRouteAdded(m, e);
    OneRouteBuilds(m, e);
    BuildKeeps(OneRoute(m, e));
    var t := OneRouteTable(m, e);
    NoLiteralA(m, e);
    FoundByParam(t, m, "a", "p", "y");
  }

  lemma FoundByParam(t: Table, m: Method, x: string, name: string, y: string)
    requires WellFormed(t) && [Lit(x)] !in t && [Param(name), Lit(y)] in t && m in t[[Param(name), Lit(y)]]
    ensures Match(t, m, [x, y]).Some?
  {
    PrefixPresent(t, [Param(name)], [Param(name), Lit(y)]);
    assert [] + [Param(name)] == [Param(name)] && [] + [Lit(x)] == [Lit(x)] && [x, y][1..] == [y];
    OnlyParam(t, [], name);
    LastLiteral(t, m, y, [Param(name)], [Param(name), Lit(y)], Emplace(map[], name, x));
    assert Match(t, m, [x, y]) == MatchFrom(t, m, [y], [Param(name)], Emplace(map[], name, x));
  }

  lemma LastLiteral(t: Table, m: Method, y: string, p: Pattern, q: Pattern, ps: map<string, string>)
    requires p + [Lit(y)] == q && q in t && m in t[q]
    ensures MatchFrom(t, m, [y], p, ps) == Some(Found(t[q][m], ps))
  {
    assert [y][1..] == [];
  }

  lemma HiddenAfter(m: Method, e: Entry)
    ensures var s := AddRoute(EMPTY, m, ["a", ":"], e).table;
            && AddRoute(s, m, [":p", "y"], e).error == None
            && Match(AddRoute(s, m, [":p", "y"], e).table, m, ["a", "y"]) == None
  {
    LeavesNodeA(m, e);
    NoParamsYet("a");
    var s := AddRoute(EMPTY, m, ["a", ":"], e).table;
    assert s == AddNode(EMPTY, [Lit("a")]);
    ParamP();
    TwoStepsAdded(s, m, ":p", "p", "y", e);
    NothingBelowA(m, e);
    NoBacktracking(AddRoute(s, m, [":p", "y"], e).table, m);
  }

  lemma NothingBelowA(m: Method, e: Entry)
    ensures var t :=
              map[[] := map[], [Lit("a")] := map[], [Param("p")] := map[], [Param("p"), Lit("y")] := map[m := e]];
            [Lit("a"), Lit("y")] !in t && !HasParam(t, [Lit("a")])
  {
    forall a ensures |[Lit("a")] + [Param(a)]| == 2 && ([Lit("a")] + [Param(a)])[0] == Lit("a") {}
    assert [Lit("a"), Lit("y")][0] == Lit("a");
  }
}
