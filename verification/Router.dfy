/** The router as the trie of linked nodes it is.  Its table is what RouteTable speaks about. */
module Router {
  import opened Wrappers
  import opened Http
  import opened RouteTable
  import opened Paths

  class TrieNode {
    var children: map<string, TrieNode>
    var paramChild: TrieNode?
    const paramName: string
    var handlers: map<Method, Entry>

    constructor (name: string)
      ensures children == map[] && paramChild == null && paramName == name && handlers == map[]
    {
      children, paramChild, paramName, handlers := map[], null, name, map[];
    }

    /** The child behind a segment of a pattern. */
    ghost function Child(s: Seg): Option<TrieNode>
      reads this`children, this`paramChild
    {
      match s
      case Lit(key) => if key in children then Some(children[key]) else None
      case Param(name) => if paramChild != null && paramChild.paramName == name then Some(paramChild) else None
    }
  }

  class Router {
    var root: TrieNode
    /** Where the node of each pattern prefix is. */
    ghost var place: map<Pattern, TrieNode>

    ghost predicate Edge(p: Pattern, s: Seg)
      requires p in place
      reads this, place.Values
    {
      place[p].Child(s) == if p + [s] in place then Some(place[p + [s]]) else None
    }

    ghost predicate Valid()
      reads this, place.Values
    {
      && [] in place && place[[]] == root
      && (forall p, q :: p in place && q in place && place[p] == place[q] ==> p == q)
      && (forall p, s :: p in place ==> Edge(p, s))
      && WellFormed(Table())
    }

    ghost function Table(): Table
      reads this, place.Values
    {
      map p | p in place :: place[p].handlers
    }

    constructor ()
      ensures Valid() && fresh(place.Values) && Table() == EMPTY
    {
      root := new TrieNode("");
      new;
      place := map[[] := root];
    }

    /** The links after `child` was hung below `at` for `s`, when `place` does not know of it yet. */
    ghost predicate EdgeBut(at: Pattern, s: Seg, child: TrieNode, p: Pattern, u: Seg)
      requires p in place
      reads this, place.Values
    {
      place[p].Child(u) ==
        if p == at && u == s then Some(child) else if p + [u] in place then Some(place[p + [u]]) else None
    }

    ghost method Attach(at: Pattern, s: Seg, child: TrieNode)
      requires [] in place && place[[]] == root && at in place && at + [s] !in place && child !in place.Values
      requires forall p, q :: p in place && q in place && place[p] == place[q] ==> p == q
      requires WellFormed(Table())
      requires s.Lit? ==> PlainSegment(s.text)
      requires s.Param? ==> !HasParam(Table(), at)
      requires child.handlers == map[] && child.children == map[] && child.paramChild == null
      requires forall p, u :: p in place ==> EdgeBut(at, s, child, p, u)
      modifies this`place
      ensures place == old(place)[at + [s] := child]
      ensures Valid() && Table() == AddNode(old(Table()), at + [s])
    {
      var t := Table();
      place := place[at + [s] := child];
      assert Table() == AddNode(t, at + [s]);
      AddNodeKeeps(t, at, s);
      forall p, u | p in place ensures Edge(p, u) {
        ChildrenAfter(t, at, s, p, u);
        if p in t { assert old(EdgeBut(at, s, child, p, u)); }
      }
    }

    /** The literal child for `key`, made if it is missing. */
    method LiteralChild(current: TrieNode, ghost at: Pattern, key: string) returns (child: TrieNode)
      requires Valid() && at in place && place[at] == current && PlainSegment(key)
      modifies this`place, current`children
      ensures Valid() && fresh(place.Values - old(place.Values))
      ensures Table() == AddNode(old(Table()), at + [Lit(key)])
      ensures at + [Lit(key)] in place && place[at + [Lit(key)]] == child
    {
      assert Edge(at, Lit(key));
      if key !in current.children {
        child := new TrieNode("");
        current.children := current.children[key := child];
        assert Table() == old(Table());
        forall p, u | p in place ensures EdgeBut(at, Lit(key), child, p, u) {
          assert old(Edge(p, u));
          assert p != at ==> place[p] != current;
        }
        Attach(at, Lit(key), child);
      } else {
        child := current.children[key];
      }
    }

    /** The parameter child, made if there is none; its name must agree. */
    method ParamChild(current: TrieNode, ghost at: Pattern, name: string) returns (child: Option<TrieNode>)
      requires Valid() && at in place && place[at] == current
      modifies this`place, current`paramChild
      ensures Valid() && fresh(place.Values - old(place.Values))
      ensures child.None? <==> HasParam(old(Table()), at) && ParamName(old(Table()), at) != name
      ensures Table() == if child.None? then old(Table()) else AddNode(old(Table()), at + [Param(name)])
      ensures child.Some? ==> at + [Param(name)] in place && place[at + [Param(name)]] == child.value
    {
      ghost var t := Table();
      if current.paramChild == null {
        forall a ensures at + [Param(a)] !in t { assert Edge(at, Param(a)); }
        var made := new TrieNode(name);
        current.paramChild := made;
        child := Some(made);
        assert Table() == old(Table());
        forall p, u | p in place ensures EdgeBut(at, Param(name), made, p, u) {
          assert old(Edge(p, u));
          assert p != at ==> place[p] != current;
        }
        Attach(at, Param(name), made);
      } else {
        var other := current.paramChild.paramName;
        assert Edge(at, Param(other));
        OnlyParam(t, at, other);
        child := if other != name then None else Some(current.paramChild);
      }
    }

    /** One step down for a segment of a pattern. */
    method Descend(current: TrieNode, ghost at: Pattern, segment: string) returns (child: Result<TrieNode, RegError>)
      requires Valid() && at in place && place[at] == current && PlainSegment(segment)
      modifies this`place, current`children, current`paramChild
      ensures Valid() && fresh(place.Values - old(place.Values))
      ensures (if child.Err? then Some(child.error) else None) == StepError(old(Table()), at, SegOf(segment))
      ensures Table() == if child.Err? then old(Table()) else AddNode(old(Table()), at + [SegOf(segment)])
      ensures child.Ok? ==> at + [SegOf(segment)] in place && place[at + [SegOf(segment)]] == child.value
    {
      if segment != "" && segment[0] == ':' {
        var name := segment[1..];
        if name == "" {
          return Err(Unnamed);
        }
        var found := ParamChild(current, at, name);
        child := if found.None? then Err(Conflict) else Ok(found.value);
      } else {
        var next := LiteralChild(current, at, segment);
        child := Ok(next);
      }
    }

    method ResolveOrCreateNode(path: string) returns (r: Result<TrieNode, RegError>, ghost at: Pattern)
      requires Valid()
      modifies this`place, place.Values
      ensures Valid() && fresh(place.Values - old(place.Values))
      ensures Split(path).None? ==> r == Err(BadPath) && Table() == old(Table())
      ensures Split(path).Some? ==>
                var s := Resolve(old(Table()), Split(path).value, []);
                && Table() == s.table
                && (r.Ok? ==> s.node == Ok(at) && at in place && place[at] == r.value)
                && (r.Err? ==> s.node == Err(r.error))
    {
      at := [];
      var split := SplitPath(path);
      if split.None? {
        return Err(BadPath), [];
      }
      SplitIff(path, split.value);
      r, at := ResolveSegments(split.value);
    }

    /** The loop over the segments of a pattern. */
    method ResolveSegments(segments: seq<string>) returns (r: Result<TrieNode, RegError>, ghost at: Pattern)
      requires Valid() && Plain(segments)
      modifies this`place, place.Values
      ensures Valid() && fresh(place.Values - old(place.Values))
      ensures var s := Resolve(old(Table()), segments, []);
              && Table() == s.table
              && (r.Ok? ==> s.node == Ok(at) && at in place && place[at] == r.value)
              && (r.Err? ==> s.node == Err(r.error))
    {
      at := [];
      var current := root;
      var i := 0;
      assert segments[0..] == segments;
      while i < |segments|
        invariant 0 <= i <= |segments|
        invariant Valid() && fresh(place.Values - old(place.Values))
        invariant at in place && place[at] == current
        invariant Resolve(Table(), segments[i..], at) == Resolve(old(Table()), segments, [])
      {
        ResolveStep(Table(), segments, i, at);
        var child := Descend(current, at, segments[i]);
        if child.Err? {
          return Err(child.error), at;
        }
        current, at := child.value, at + [SegOf(segments[i])];
        i := i + 1;
      }
      r := Ok(current);
    }

    method AddHandlerEntry(node: TrieNode, ghost at: Pattern, verb: Method, entry: Entry)
      returns (error: Option<RegError>)
      requires Valid() && at in place && place[at] == node
      modifies node`handlers
      ensures Valid()
      ensures error == if verb in old(Table())[at] then Some(Duplicate) else None
      ensures Table() == if error.Some? then old(Table()) else old(Table())[at := old(Table())[at][verb := entry]]
    {
      if verb in node.handlers {
        return Some(Duplicate);
      }
      ghost var t := Table();
      node.handlers := node.handlers[verb := entry];
      assert Table() == t[at := t[at][verb := entry]];
      forall p, u | p in place ensures Edge(p, u) { assert old(Edge(p, u)); }
      error := None;
    }

    method Register(verb: Method, path: string, entry: Entry) returns (error: Option<RegError>)
      requires Valid()
      modifies this`place, place.Values
      ensures Valid() && fresh(place.Values - old(place.Values))
      ensures Registered(Table(), error) == AddUnder(old(Table()), verb, path, entry)
    {
      var node, at := ResolveOrCreateNode(path);
      if node.Err? {
        return Some(node.error);
      }
      error := AddHandlerEntry(node.value, at, verb, entry);
    }

    method AddRoute(verb: Method, path: string, handler: Option<nat>) returns (error: Option<RegError>)
      requires Valid()
      modifies this`place, place.Values
      ensures Valid() && fresh(place.Values - old(place.Values))
      ensures Registered(Table(), error) ==
                if handler.None? then Registered(old(Table()), Some(NoHandler))
                else AddUnder(old(Table()), verb, path, Entry(handler, false, None))
    {
      if handler.None? {
        return Some(NoHandler);
      }
      error := Register(verb, path, Entry(handler, false, None));
    }

    /** A route whose handler takes the parameters only and is answered with an echo of them. */
    method AddParamsRoute(verb: Method, path: string, handler: Option<nat>) returns (error: Option<RegError>)
      requires Valid()
      modifies this`place, place.Values
      ensures Valid() && fresh(place.Values - old(place.Values))
      ensures Registered(Table(), error) ==
                if handler.None? then Registered(old(Table()), Some(NoHandler))
                else AddUnder(old(Table()), verb, path, Entry(handler, true, None))
    {
      if handler.None? {
        return Some(NoHandler);
      }
      error := Register(verb, path, Entry(handler, true, None));
    }

    method AddProxyRoute(verb: Method, path: string, host: string, port: nat) returns (error: Option<RegError>)
      requires Valid()
      modifies this`place, place.Values
      ensures Valid() && fresh(place.Values - old(place.Values))
      ensures Registered(Table(), error) ==
                if host == "" then Registered(old(Table()), Some(NoHost))
                else AddUnder(old(Table()), verb, path, Entry(None, false, Some(Target(host, port))))
    {
      if host == "" {
        return Some(NoHost);
      }
      error := Register(verb, path, Entry(None, false, Some(Target(host, port))));
    }

    method Match(verb: Method, path: string) returns (r: Option<Found>)
      requires Valid()
      ensures r == Lookup(Table(), verb, path)
    {
      var split := SplitPath(path);
      if split.None? {
        return None;
      }
      r := MatchSegments(verb, split.value);
    }

    /** The loop over the segments of a path. */
    method MatchSegments(verb: Method, segments: seq<string>) returns (r: Option<Found>)
      requires Valid()
      ensures r == RouteTable.Match(Table(), verb, segments)
    {
      var current, params := root, map[];
      ghost var at: Pattern := [];
      var i := 0;
      assert segments[0..] == segments;
      while i < |segments|
        invariant 0 <= i <= |segments|
        invariant at in place && place[at] == current
        invariant MatchFrom(Table(), verb, segments[i..], at, params) == RouteTable.Match(Table(), verb, segments)
      {
        var segment := segments[i];
        MatchStep(Table(), verb, segments, i, at, params);
        var next, name := ChildFor(current, at, segment);
        if next == null {
          return None;
        }
        current := next;
        if name.Some? {
          params, at := Emplace(params, name.value, segment), at + [Param(name.value)];
        } else {
          at := at + [Lit(segment)];
        }
        i := i + 1;
      }
      r := if verb in current.handlers then Some(Found(current.handlers[verb], params)) else None;
    }

    /** The child to go on with: the literal one first, then the parameter with its name. */
    method ChildFor(current: TrieNode, ghost at: Pattern, segment: string)
      returns (next: TrieNode?, name: Option<string>)
      requires Valid() && at in place && place[at] == current
      ensures next != null && name.None? ==> at + [Lit(segment)] in Table() && place[at + [Lit(segment)]] == next
      ensures next == null || name.Some? ==> at + [Lit(segment)] !in Table()
      ensures next == null ==> !HasParam(Table(), at)
      ensures next != null && name.Some? ==>
                && HasParam(Table(), at) && ParamName(Table(), at) == name.value
                && at + [Param(name.value)] in Table() && place[at + [Param(name.value)]] == next
    {
      assert Edge(at, Lit(segment));
      if segment in current.children {
        return current.children[segment], None;
      }
      if current.paramChild == null {
        forall a ensures at + [Param(a)] !in place { assert Edge(at, Param(a)); }
        return null, None;
      }
      var other := current.paramChild.paramName;
      assert Edge(at, Param(other));
      OnlyParam(Table(), at, other);
      return current.paramChild, Some(other);
    }
  }

  /** One step of the walk. */
  lemma MatchStep(t: Table, m: Method, segs: seq<string>, i: nat, at: Pattern, ps: map<string, string>)
    requires i < |segs|
    ensures MatchFrom(t, m, segs[i..], at, ps) ==
            if at + [Lit(segs[i])] in t then MatchFrom(t, m, segs[i + 1..], at + [Lit(segs[i])], ps)
            else if HasParam(t, at) then
              MatchFrom(t, m, segs[i + 1..], at + [Param(ParamName(t, at))], Emplace(ps, ParamName(t, at), segs[i]))
            else None
  {
    assert segs[i..][0] == segs[i] && segs[i..][1..] == segs[i + 1..];
  }

  /** What registering a route under a path does to the table. */
  ghost function AddUnder(t: Table, verb: Method, path: string, entry: Entry): Registered {
    match Split(path)
    case None => Registered(t, Some(BadPath))
    case Some(segs) => RouteTable.AddRoute(t, verb, segs, entry)
  }

  ghost function Lookup(t: Table, verb: Method, path: string): Option<Found> {
    match Split(path)
    case None => None
    case Some(segs) => RouteTable.Match(t, verb, segs)
  }

  /** When a lookup succeeds, a registered pattern with its parameters replaced by the values found,
      joined with '/', is the path up to one slash at its end. */
  lemma LookupSound(t: Table, verb: Method, path: string) returns (p: Pattern)
    requires Lookup(t, verb, path).Some?
    ensures var found := Lookup(t, verb, path).value;
            && p in t && verb in t[p] && t[p][verb] == found.entry
            && (DistinctNames(p) ==> IsJoin(path, Instantiate(p, found.params)))
  {
    var segs := Split(path).value;
    SplitIff(path, segs);
    p := MatchSound(t, verb, segs);
  }

  /** Why the node `at` cannot have a child for `s`, if so. */
  ghost function StepError(t: Table, at: Pattern, s: Seg): Option<RegError> {
    if s.Lit? then None
    else if s.name == "" then Some(Unnamed)
    else if HasParam(t, at) && ParamName(t, at) != s.name then Some(Conflict)
    else None
  }

  lemma ResolveStep(t: Table, segs: seq<string>, i: nat, at: Pattern)
    requires i < |segs|
    ensures var s := SegOf(segs[i]);
            Resolve(t, segs[i..], at) ==
              match StepError(t, at, s)
              case Some(error) => Resolved(t, Err(error))
              case None => Resolve(AddNode(t, at + [s]), segs[i + 1..], at + [s])
    ensures Plain(segs) ==> PlainSegment(segs[i])
  {
    assert segs[i..][1..] == segs[i + 1..] && segs[i] in segs;
  }

  lemma ChildrenAfter(t: Table, at: Pattern, s: Seg, p: Pattern, u: Seg)
    requires WellFormed(t) && at + [s] !in t && (p in t || p == at + [s])
    ensures p + [u] == at + [s] <==> p == at && u == s
    ensures p !in t ==> p + [u] !in t
  {
    LastOf(p, u, at, s);
    if p + [u] in t { PrefixPresent(t, p, p + [u]); }
  }
}
