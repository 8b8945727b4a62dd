/** Splitting a path into segments. */
module Paths {
  import opened Wrappers
  import opened Text
  import opened RouteTable

  /** The segments of a path that starts with '/', if none but the last is empty. */
  function Split(path: string): (r: Option<seq<string>>)
    decreases |path|
  {
    if path == "" || path[0] != '/' then None
    else
      var found := Find(path, "/", 1);
      var end := if found < 0 then |path| else found;
      if end == 1 then if |path| == 1 then Some([]) else None
      else if end == |path| then Some([path[1..]])
      else
        match Split(path[end..])
        case None => None
        case Some(rest) => Some([path[1..end]] + rest)
  }

  method SplitPath(path: string) returns (r: Option<seq<string>>)
    ensures r == Split(path)
  {
    if path == "" || path[0] != '/' {
      return None;
    }
    var segments := [];
    var start := 1;
    RestStart(path);
    while start <= |path|
      invariant 1 <= start <= |path| + 1
      invariant start <= |path| ==> path[start - 1] == '/'
      invariant Split(path) == Rest(segments, path, start)
    {
      var end := Find(path, "/", start);
      if end == -1 {
        end := |path|;
      }
      RestStep(segments, path, start);
      if end > start {
        segments := segments + [path[start..end]];
      } else if end == start && end != |path| {
        return None;
      }
      start := end + 1;
    }
    r := Some(segments);
  }

  /** What is still to come once `segments` were cut off in front of `start`. */
  ghost function Rest(segments: seq<string>, path: string, start: nat): Option<seq<string>>
    requires 1 <= start
  {
    if start > |path| then Some(segments)
    else
      match Split(path[start - 1..])
      case None => None
      case Some(rest) => Some(segments + rest)
  }

  lemma RestStart(path: string)
    requires path != ""
    ensures Rest([], path, 1) == Split(path)
  {
    assert path[0..] == path;
    if Split(path).Some? { assert [] + Split(path).value == Split(path).value; }
  }

  lemma RestStep(segments: seq<string>, path: string, start: nat)
    requires 1 <= start <= |path| && path[start - 1] == '/'
    ensures var f := Find(path, "/", start);
            var end := if f < 0 then |path| else f;
            && (end < |path| ==> path[end] == '/')
            && Rest(segments, path, start) ==
                 if end > start then Rest(segments + [path[start..end]], path, end + 1)
                 else if end != |path| then None
                 else Rest(segments, path, end + 1)
  {
    var f := Find(path, "/", start);
    var end := if f < 0 then |path| else f;
    FindBehind(path, start);
    var cut := path[start..end];
    assert path[start - 1..][1..] == path[start..|path|];
    if end > start && end < |path| && Split(path[end..]).Some? {
      var rest := Split(path[end..]).value;
      assert segments + ([cut] + rest) == segments + [cut] + rest;
    }
    assert segments + [] == segments;
  }

  /** Searching a suffix is searching the whole from there on. */
  lemma FindBehind(path: string, start: nat)
    requires 1 <= start <= |path|
    ensures var f := Find(path, "/", start);
            Find(path[start - 1..], "/", 1) == if f < 0 then -1 else f - (start - 1)
    ensures var f := Find(path, "/", start);
            var end := if f < 0 then |path| else f;
            && path[start - 1..][1..end - (start - 1)] == path[start..end]
            && path[start - 1..][end - (start - 1)..] == path[end..]
            && (end < |path| ==> path[end] == '/')
  {
    var s := path[start - 1..];
    forall i | 0 <= i ensures At(s, "/", i) == At(path, "/", start - 1 + i) {
      CharAt(s, '/', i);
      CharAt(path, '/', start - 1 + i);
    }
    var f := Find(path, "/", start);
    if f >= 0 {
      assert At(s, "/", f - (start - 1));
      FindIs(s, "/", 1, f - (start - 1));
      CharAt(path, '/', f);
    } else {
      forall i | 1 <= i ensures !At(s, "/", i) { assert !At(path, "/", start - 1 + i); }
    }
  }

  // ---------------------------------------------------------------- what is accepted

  /** Every segment with a '/' in front. */
  function Join(segs: seq<string>): (path: string) {
    if segs == [] then "" else "/" + segs[0] + Join(segs[1..])
  }

  ghost predicate IsJoin(path: string, segs: seq<string>) {
    || (segs != [] && path == Join(segs))
    || path == Join(segs) + "/"
  }

  lemma {:induction false} SplitJoin(segs: seq<string>, path: string)
    requires Plain(segs) && IsJoin(path, segs)
    ensures Split(path) == Some(segs)
    decreases |segs|
  {
    if segs == [] {
      FindNoChar(path[1..], '/', 0);
      assert path == "/";
    } else {
      var rest := path[1 + |segs[0]|..];
      assert segs[0] in segs;
      PlainTail(segs);
      RestIsJoin(segs, path);
      SplitFirst(path, segs[0], rest);
      assert segs == [segs[0]] + segs[1..];
      if rest != "" {
        SplitJoin(segs[1..], rest);
        assert Split(path) == Some([segs[0]] + segs[1..]);
      } else {
        assert segs == [segs[0]];
      }
    }
  }

  lemma RestIsJoin(segs: seq<string>, path: string)
    requires segs != [] && IsJoin(path, segs)
    ensures 1 + |segs[0]| <= |path|
    ensures var rest := path[1 + |segs[0]|..];
            && path == "/" + segs[0] + rest
            && (if rest == "" then segs[1..] == [] else rest[0] == '/' && IsJoin(rest, segs[1..]))
  {
    var tail := Join(segs[1..]);
    assert Join(segs) == "/" + segs[0] + tail;
    var rest := path[1 + |segs[0]|..];
    assert rest == tail || rest == tail + "/";
    if segs[1..] != [] { assert tail[0] == '/'; }
  }

  lemma SplitFirst(path: string, s: string, rest: string)
    requires path == "/" + s + rest && PlainSegment(s) && (rest == "" || rest[0] == '/')
    ensures Split(path) ==
              if rest == "" then Some([s])
              else match Split(rest)
                   case None => None
                   case Some(segs) => Some([s] + segs)
  {
    SlashAfter(path, s, rest);
    WholeTail(path, 1);
  }

  lemma WholeTail(path: string, from: nat)
    requires from <= |path|
    ensures path[from..|path|] == path[from..]
  {}

  lemma SlashAfter(path: string, s: string, rest: string)
    requires path == "/" + s + rest && PlainSegment(s) && (rest == "" || rest[0] == '/')
    ensures Find(path, "/", 1) == (if rest == "" then -1 else 1 + |s|)
    ensures path[1..1 + |s|] == s && path[1 + |s|..] == rest
  {
    forall i | 1 <= i < 1 + |s| ensures !At(path, "/", i) {
      CharAt(path, '/', i);
      assert path[i] == s[i - 1];
    }
    if rest == "" {
      forall i | 1 <= i ensures !At(path, "/", i) { CharAt(path, '/', i); }
    } else {
      CharAt(path, '/', 1 + |s|);
      FindIs(path, "/", 1, 1 + |s|);
    }
  }

  lemma {:induction false} SplitIsJoin(path: string)
    requires Split(path).Some?
    ensures Plain(Split(path).value) && IsJoin(path, Split(path).value)
    decreases |path|
  {
    var found := Find(path, "/", 1);
    var end := if found < 0 then |path| else found;
    FindBehind(path, 1);
    assert path[0..] == path;
    assert path == "/" + path[1..end] + path[end..];
    FirstSegmentPlain(path, end);
    if end != 1 && end < |path| {
      SplitIsJoin(path[end..]);
    }
  }

  lemma FirstSegmentPlain(path: string, end: nat)
    requires 1 <= end <= |path| && forall i :: 1 <= i < end ==> !At(path, "/", i)
    ensures '/' !in path[1..end]
  {
    forall i | 1 <= i < end ensures path[i] != '/' { CharAt(path, '/', i); }
  }

  /** A path is split into `segs` exactly when it is their join, up to one slash at the end. */
  lemma SplitIff(path: string, segs: seq<string>)
    ensures Split(path) == Some(segs) <==> Plain(segs) && IsJoin(path, segs)
  {
    if Split(path) == Some(segs) { SplitIsJoin(path); }
    if Plain(segs) && IsJoin(path, segs) { SplitJoin(segs, path); }
  }
}
