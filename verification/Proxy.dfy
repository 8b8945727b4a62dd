/** Header rewriting in `ProxyManager::forward`, both ways, and `HttpClient::prepareRequest`. */
module Proxy {
  import opened Wrappers
  import opened Text
  import opened Characters
  import opened Http
  import Q = RequestParser
  import RP = ResponseParser
  import opened HttpResponse

  predicate IsHopByHop(name: string) {
    || EqualsIgnoreCase(name, "host")
    || EqualsIgnoreCase(name, "content-length")
    || EqualsIgnoreCase(name, "connection")
    || EqualsIgnoreCase(name, "transfer-encoding")
    || EqualsIgnoreCase(name, "keep-alive")
    || EqualsIgnoreCase(name, "proxy-connection")
  }

  function EndToEnd(fs: Fields): (r: Fields)
    ensures forall f :: f in r <==> f in fs && !IsHopByHop(f.name)
  {
    if fs == [] then []
    else if IsHopByHop(fs[0].name) then EndToEnd(fs[1..])
    else [fs[0]] + EndToEnd(fs[1..])
  }

  const KEEP_ALIVE := Field("Connection", "keep-alive")
  const CLOSE := Field("Connection", "close")

  /** The header map handed to the client for the upstream request. */
  function UpstreamFields(fs: Fields): Fields {
    EndToEnd(fs) + [KEEP_ALIVE]
  }

  function UpstreamTarget(path: string, query: string): string {
    if query == "" then path else path + "?" + query
  }

  // ---------------------------------------------------------------- prepareRequest

  function RequestLineText(verb: Method, target: string): string {
    MethodToString(verb) + " " + target + " HTTP/1.1"
  }

  function HostField(host: string): Field { Field("Host", host) }

  /** The fields `prepareRequest` adds behind those of the map. */
  function AddedFields(fs: Fields, host: string, body: string): Fields {
    (if FindField(fs, "host").Some? then [] else [HostField(host)])
    + (if body == "" || FindField(fs, "content-length").Some? then [] else [LengthField(body)])
    + (if FindField(fs, "connection").Some? then [] else [CLOSE])
  }

  /** What the client adds to its header map: the host, the length of a body, and `Connection: close`, each only if
      the map has no field of that name in any case. */
  lemma AddedIff(fs: Fields, host: string, body: string, f: Field)
    ensures f in AddedFields(fs, host, body) <==>
            || (f == Field("Host", host) && NoneCalled(fs, "host"))
            || (f == Field("Content-Length", Dec(|body|)) && body != "" && NoneCalled(fs, "content-length"))
            || (f == Field("Connection", "close") && NoneCalled(fs, "connection"))
  {
    NoneCalledIff(fs, "host");
    NoneCalledIff(fs, "content-length");
    NoneCalledIff(fs, "connection");
    var a := if FindField(fs, "host").Some? then [] else [HostField(host)];
    var b := if body == "" || FindField(fs, "content-length").Some? then [] else [LengthField(body)];
    var c := if FindField(fs, "connection").Some? then [] else [CLOSE];
    assert f in a + b + c <==> f in a || f in b || f in c;
  }

  ghost predicate NoneCalled(fs: Fields, name: string) {
    forall g :: g in fs ==> !SameName(g.name, name)
  }

  lemma NoneCalledIff(fs: Fields, name: string)
    ensures NoneCalled(fs, name) <==> FindField(fs, name).None?
  {
    FoundOrNone(fs, name);
    forall g | g in fs ensures EqualsIgnoreCase(g.name, name) <==> SameName(g.name, name) { SameNameIff(g.name, name); }
  }

  function PrintRequest(verb: Method, target: string, fs: Fields, host: string, body: string): string {
    Wire(RequestLineText(verb, target), fs + AddedFields(fs, host, body), body)
  }

  /** The request as the client writes it, visiting the header map in the order `fs`. */
  method PrepareRequest(verb: Method, target: string, fs: Fields, host: string, body: string) returns (out: string)
    ensures out == PrintRequest(verb, target, fs, host, body)
  {
    var text, hasHost, hasLength, hasConnection := FieldsTextWithFlags(fs);
    var added: Fields := [];
    if !hasHost {
      added := added + [HostField(host)];
    }
    if body != "" && !hasLength {
      added := added + [LengthField(body)];
    }
    if !hasConnection {
      added := added + [CLOSE];
    }
    assert added == AddedFields(fs, host, body);
    out := RequestLineText(verb, target) + CRLF + (text + Block(FieldLines(added))) + CRLF;
    out := out + body;
    BlockAppend(fs, added);
    WireInPieces(RequestLineText(verb, target), fs + added, body);
  }

  method FieldsTextWithFlags(fs: Fields) returns (text: string, host: bool, length: bool, connection: bool)
    ensures text == Block(FieldLines(fs))
    ensures host <==> FindField(fs, "host").Some?
    ensures length <==> FindField(fs, "content-length").Some?
    ensures connection <==> FindField(fs, "connection").Some?
  {
    text, host, length, connection := "", false, false, false;
    for i := 0 to |fs|
      invariant text == Block(FieldLines(fs[..i]))
      invariant host <==> FindField(fs[..i], "host").Some?
      invariant length <==> FindField(fs[..i], "content-length").Some?
      invariant connection <==> FindField(fs[..i], "connection").Some?
    {
      assert fs[..i + 1] == fs[..i] + [fs[i]];
      BlockAppend(fs[..i], [fs[i]]);
      BlockSingle(fs[i]);
      FindSnoc(fs[..i], fs[i], "host");
      FindSnoc(fs[..i], fs[i], "content-length");
      FindSnoc(fs[..i], fs[i], "connection");
      text := text + (FieldLine(fs[i]) + CRLF);
      var isHost := CaseInsensitiveEquals(fs[i].name, "host");
      var isLength := CaseInsensitiveEquals(fs[i].name, "content-length");
      var isConnection := CaseInsensitiveEquals(fs[i].name, "connection");
      host, length, connection := host || isHost, length || isLength, connection || isConnection;
    }
    assert fs[..|fs|] == fs;
  }

  // ---------------------------------------------------------------- what a parsed request line holds

  /** Path and query as the gateway's own parser delivers them. */
  ghost predicate TargetOk(path: string, query: string) {
    && path != "" && path[0] == '/' && Free(path, ' ') && Free(path, '?') && CrlfFree(path)
    && Free(query, ' ') && CrlfFree(query)
  }

  /** Cutting a target at its first question mark. */
  lemma TargetParts(target: string)
    requires target != "" && target[0] == '/' && Free(target, ' ') && CrlfFree(target)
    ensures var q := Find(target, "?", 0);
            if q < 0 then TargetOk(target, "") else q < |target| && TargetOk(target[..q], target[q + 1..])
  {
    var q := Find(target, "?", 0);
    if q >= 0 {
      BeforeFirst(target, '?', 0);
      assert target[0..q] == target[..q];
      CutTarget(target, q);
    } else {
      NotFoundFree(target, '?');
      NoQuery(target);
    }
  }

  lemma NoQuery(target: string)
    requires target != "" && target[0] == '/' && Free(target, ' ') && CrlfFree(target) && Free(target, '?')
    ensures TargetOk(target, "")
  {
    CrlfFreeIff("");
  }

  lemma CutTarget(target: string, q: nat)
    requires target != "" && target[0] == '/' && Free(target, ' ') && CrlfFree(target)
    requires q < |target| && target[q] == '?' && Free(target[..q], '?')
    ensures TargetOk(target[..q], target[q + 1..])
  {
    assert target[0..q] == target[..q] && target[q + 1..|target|] == target[q + 1..];
    CrlfFreeSlice(target, 0, q);
    CrlfFreeSlice(target, q + 1, |target|);
  }

  /** Where the target stands in a request line that was accepted. */
  lemma TargetInLine(line: string) returns (start: nat, target: string)
    requires Q.ParseRequestLine(line).Ok?
    ensures start + |target| <= |line| && line[start..start + |target|] == target
    ensures target != "" && target[0] == '/' && Free(target, ' ')
    ensures Q.ParseRequestLine(line).value.path == Q.PathView(target, start)
    ensures Q.ParseRequestLine(line).value.query == Q.QueryView(target, start)
  {
    start := Find(line, " ", 0) + 1;
    target := line[start..Find(line, " ", start)];
    BeforeFirst(line, ' ', start);
  }

  lemma ViewsOfTarget(line: string, start: nat, target: string)
    requires start + |target| <= |line| && line[start..start + |target|] == target && CrlfFree(target)
    requires target != "" && target[0] == '/' && Free(target, ' ')
    ensures TargetOk(Q.Slice(line, Q.PathView(target, start)), Q.Slice(line, Q.QueryView(target, start)))
  {
    TargetParts(target);
    var q := Find(target, "?", 0);
    if q < 0 {
      assert Q.Slice(line, Q.View(0, 0)) == "";
    } else {
      PartsOfLine(line, start, target, q);
    }
  }

  lemma ParsedTargetOk(line: string)
    requires CrlfFree(line) && Q.ParseRequestLine(line).Ok?
    ensures var l := Q.ParseRequestLine(line).value; TargetOk(Q.Slice(line, l.path), Q.Slice(line, l.query))
  {
    var start, target := TargetInLine(line);
    CrlfFreeSlice(line, start, start + |target|);
    ViewsOfTarget(line, start, target);
  }

  lemma VerbIsToken(verb: Method)
    ensures Free(MethodToString(verb), ' ') && CrlfFree(MethodToString(verb))
    ensures MethodFromString(MethodToString(verb)) == Some(verb)
  {
    CrlfFreeIff(MethodToString(verb));
  }

  lemma TargetFree(path: string, query: string)
    requires TargetOk(path, query)
    ensures var t := UpstreamTarget(path, query); t != "" && t[0] == '/' && Free(t, ' ') && CrlfFree(t)
  {
    if query != "" {
      CrlfFreeIff("?");
      CrlfFreeConcat(path, "?");
      CrlfFreeConcat(path + "?", query);
    }
  }

  lemma RequestLineCrlfFree(verb: Method, path: string, query: string)
    requires TargetOk(path, query)
    ensures CrlfFree(RequestLineText(verb, UpstreamTarget(path, query)))
  {
    VerbIsToken(verb);
    TargetFree(path, query);
    LineCrlfFree(MethodToString(verb), UpstreamTarget(path, query), " HTTP/1.1");
  }

  lemma LineCrlfFree(verb: string, target: string, version: string)
    requires CrlfFree(verb) && CrlfFree(target) && version == " HTTP/1.1"
    ensures CrlfFree(verb + " " + target + version)
  {
    CrlfFreeIff(" ");
    CrlfFreeIff(version);
    CrlfFreeConcat(verb, " ");
    CrlfFreeConcat(verb + " ", target);
    CrlfFreeConcat(verb + " " + target, version);
  }

  ghost predicate LineDescribes(line: string, l: Q.RequestLine, verb: Method, path: string, query: string) {
    && l.verb == verb
    && l.path.offset + l.path.length <= |line| && Q.Slice(line, l.path) == path
    && l.query.offset + l.query.length <= |line| && Q.Slice(line, l.query) == query
  }

  /** Where the two spaces of a printed request line are found. */
  lemma PrintedLineSpaces(m: string, target: string, rest: string)
    requires Free(m, ' ') && Free(target, ' ') && rest != "" && rest[0] == ' '
    ensures var line := m + " " + target + rest;
            && Find(line, " ", 0) == |m| && Find(line, " ", |m| + 1) == |m| + 1 + |target|
            && line[..|m|] == m && line[|m| + 1..|m| + 1 + |target|] == target
  {
    var line, tail := m + " " + target + rest, target + rest;
    LineOfTail(m, target, rest);
    FirstSpace(m, tail);
    SpaceInTail(target, rest);
    SliceOfTail(line, |m| + 1, |target|);
    assert tail[..|target|] == target;
  }

  lemma LineOfTail(m: string, target: string, rest: string)
    ensures m + " " + target + rest == m + " " + (target + rest)
  {}

  lemma SliceOfTail(line: string, from: nat, n: nat)
    requires from + n <= |line|
    ensures line[from..from + n] == line[from..][..n]
  {}

  lemma FirstSpace(m: string, tail: string)
    requires Free(m, ' ')
    ensures var line := m + " " + tail;
            && Find(line, " ", 0) == |m| && line[..|m|] == m && line[|m| + 1..] == tail
            && (Find(tail, " ", 0) >= 0 ==> Find(line, " ", |m| + 1) == |m| + 1 + Find(tail, " ", 0))
  {
    var line := m + " " + tail;
    FindChar(m, ' ', tail);
    assert line[|m| + 1..] == tail;
    FindSuffix(line, " ", |m| + 1);
  }

  lemma SplitAtSpace(target: string, rest: string)
    requires rest != "" && rest[0] == ' '
    ensures target + rest == target + [' '] + rest[1..]
  {}

  lemma SpaceInTail(target: string, rest: string)
    requires Free(target, ' ') && rest != "" && rest[0] == ' '
    ensures Find(target + rest, " ", 0) == |target|
  {
    SplitAtSpace(target, rest);
    FindChar(target, ' ', rest[1..]);
  }

  /** The printed request line is cut at its two spaces and at the question mark of the target. */
  lemma PrintedLineParses(verb: Method, target: string)
    requires target != "" && target[0] == '/' && Free(target, ' ')
    requires |RequestLineText(verb, target)| <= Q.MAX_REQUEST_LINE
    ensures var m := |MethodToString(verb)|;
            Q.ParseRequestLine(RequestLineText(verb, target)) ==
            Ok(Q.RequestLine(verb, Q.PathView(target, m + 1), Q.QueryView(target, m + 1)))
  {
    VerbIsToken(verb);
    PrintedLineSpaces(MethodToString(verb), target, " HTTP/1.1");
  }

  lemma TargetSplits(path: string, query: string)
    requires TargetOk(path, query)
    ensures var t := UpstreamTarget(path, query); var q := Find(t, "?", 0);
            if query == "" then q < 0 && t == path
            else q == |path| < |t| && t[..q] == path && t[q + 1..] == query
  {
    if query == "" {
      FindNoChar(path, '?', 0);
    } else {
      FindChar(path, '?', query);
    }
  }

  lemma PartsOfLine(line: string, start: nat, target: string, k: nat)
    requires start + |target| <= |line| && line[start..start + |target|] == target && k <= |target|
    ensures line[start..start + k] == target[..k]
    ensures k < |target| ==> line[start + k + 1..start + |target|] == target[k + 1..]
  {
    forall i | 0 <= i < |target| ensures line[start + i] == target[i] {
      assert line[start..start + |target|][i] == target[i];
    }
  }

  lemma RequestLineRoundTrip(verb: Method, path: string, query: string)
    requires TargetOk(path, query)
    requires |RequestLineText(verb, UpstreamTarget(path, query))| <= Q.MAX_REQUEST_LINE
    ensures var line := RequestLineText(verb, UpstreamTarget(path, query));
            && Q.ParseRequestLine(line).Ok?
            && LineDescribes(line, Q.ParseRequestLine(line).value, verb, path, query)
  {
    var m, target := |MethodToString(verb)|, UpstreamTarget(path, query);
    var line := RequestLineText(verb, target);
    TargetFree(path, query);
    VerbIsToken(verb);
    PrintedLineParses(verb, target);
    PrintedLineSpaces(MethodToString(verb), target, " HTTP/1.1");
    PartsDescribe(line, m + 1, verb, path, query, target);
  }

  lemma PartsDescribe(line: string, start: nat, verb: Method, path: string, query: string, target: string)
    requires TargetOk(path, query) && target == UpstreamTarget(path, query)
    requires start + |target| <= |line| && line[start..start + |target|] == target
    ensures var l := Q.RequestLine(verb, Q.PathView(target, start), Q.QueryView(target, start));
            LineDescribes(line, l, verb, path, query)
  {
    TargetSplits(path, query);
    PartsOfLine(line, start, target, |path|);
    if query == "" { PathAlone(line, start, path); } else { PathThenQuery(line, start, path, query, target); }
  }

  lemma PathAlone(line: string, start: nat, path: string)
    requires Find(path, "?", 0) < 0 && start + |path| <= |line| && line[start..start + |path|] == path
    ensures Q.Slice(line, Q.PathView(path, start)) == path && Q.Slice(line, Q.QueryView(path, start)) == ""
    ensures Q.QueryView(path, start) == Q.View(0, 0) && Q.PathView(path, start) == Q.View(start, |path|)
  {}

  lemma PathThenQuery(line: string, start: nat, path: string, query: string, target: string)
    requires target == path + "?" + query && Find(target, "?", 0) == |path| && start + |target| <= |line|
    requires line[start..start + |path|] == path && line[start + |path| + 1..start + |target|] == query
    ensures Q.Slice(line, Q.PathView(target, start)) == path && Q.Slice(line, Q.QueryView(target, start)) == query
    ensures Q.PathView(target, start) == Q.View(start, |path|)
    ensures Q.QueryView(target, start) == Q.View(start + |path| + 1, |query|)
  {}

  // ---------------------------------------------------------------- permuted and filtered fields

  lemma {:induction false} EndToEndCount(fs: Fields, f: Field)
    ensures multiset(EndToEnd(fs))[f] == if IsHopByHop(f.name) then 0 else multiset(fs)[f]
  {
    if fs != [] {
      assert fs == [fs[0]] + fs[1..];
      EndToEndCount(fs[1..], f);
    }
  }

  lemma EndToEndInAnyOrder(fs: Fields, gs: Fields)
    requires multiset(fs) == multiset(gs)
    ensures multiset(EndToEnd(fs)) == multiset(EndToEnd(gs))
  {
    forall f ensures multiset(EndToEnd(fs))[f] == multiset(EndToEnd(gs))[f] {
      EndToEndCount(fs, f);
      EndToEndCount(gs, f);
    }
  }

  lemma {:induction false} EndToEndDistinct(fs: Fields)
    requires Distinct(fs)
    ensures Distinct(EndToEnd(fs))
  {
    if fs != [] {
      EndToEndDistinct(fs[1..]);
      var rest := EndToEnd(fs[1..]);
      forall i | 0 <= i < |rest| ensures fs[0].name != rest[i].name {
        assert rest[i] in fs[1..];
        var k :| 0 <= k < |fs[1..]| && fs[1..][k] == rest[i];
        assert fs[k + 1] == rest[i];
      }
    }
  }

  lemma HopNamesAreReserved(name: string)
    requires !IsHopByHop(name)
    ensures name != "Connection" && name != "Host" && name != "Content-Length"
  {
    assert EqualsIgnoreCase("Connection", "connection");
    assert EqualsIgnoreCase("Host", "host");
    assert EqualsIgnoreCase("Content-Length", "content-length");
  }

  lemma NoneOfName(fs: Fields, name: string)
    requires NoField(fs, name)
    ensures FindField(fs, name) == None
  {
    FindNone(fs, name);
  }

  lemma OneOfName(fs: Fields, f: Field, name: string)
    requires f in fs && EqualsIgnoreCase(f.name, name)
    ensures FindField(fs, name).Some?
  {
    if fs[0] != f { assert f in fs[1..]; }
  }

  // ---------------------------------------------------------------- which fields are relayed

  /** The names of fields that end at the gateway, in any case. */
  predicate EndsHere(name: string) {
    || SameName(name, "host") || SameName(name, "content-length") || SameName(name, "connection")
    || SameName(name, "transfer-encoding") || SameName(name, "keep-alive") || SameName(name, "proxy-connection")
  }

  /** What is sent on: the gateway's own fields, and all others with their values. */
  ghost predicate Relayed(original: Fields, sent: Fields, own: Fields) {
    forall f :: f in sent <==> f in own || (f in original && !EndsHere(f.name))
  }

  lemma HopByHopIff(name: string)
    ensures IsHopByHop(name) <==> EndsHere(name)
  {
    SameNameIff(name, "host");
    SameNameIff(name, "content-length");
    SameNameIff(name, "connection");
    SameNameIff(name, "transfer-encoding");
    SameNameIff(name, "keep-alive");
    SameNameIff(name, "proxy-connection");
  }

  lemma EndToEndRelayed(fs: Fields, gs: Fields, own: Fields)
    requires multiset(gs) == multiset(EndToEnd(fs) + own)
    ensures Relayed(fs, gs, own)
  {
    var all := EndToEnd(fs) + own;
    SameMembers(gs, all);
    forall f ensures f in gs <==> f in own || (f in fs && !EndsHere(f.name)) {
      HopByHopIff(f.name);
      assert f in all <==> f in EndToEnd(fs) || f in own;
    }
  }

  /** Of relayed fields none is called Transfer-Encoding, Keep-Alive or Proxy-Connection in any case, and only the
      gateway's own are called Connection, Host or Content-Length. */
  lemma NothingHopByHop(original: Fields, sent: Fields, own: Fields, f: Field)
    requires Relayed(original, sent, own) && f in sent
    requires forall g :: g in own ==> g.name == "Connection" || g.name == "Host" || g.name == "Content-Length"
    ensures !SameName(f.name, "transfer-encoding") && !SameName(f.name, "keep-alive")
    ensures !SameName(f.name, "proxy-connection")
    ensures SameName(f.name, "connection") || SameName(f.name, "host") || SameName(f.name, "content-length") ==>
              f in own
  {
    if f in own { OwnNames(f.name); }
  }

  lemma OwnNames(name: string)
    requires name == "Connection" || name == "Host" || name == "Content-Length"
    ensures !SameName(name, "transfer-encoding") && !SameName(name, "keep-alive") && !SameName(name, "proxy-connection")
  {
    if |name| == 10 { assert !SameLetter(name[0], "keep-alive"[0]); }
  }

  // ---------------------------------------------------------------- upstream request round trip

  /** The fields of the upstream request: the end-to-end fields of the original, the connection
      option, the host, and the length of a non-empty body. */
  function SentUpstream(fs: Fields, host: string, body: string): Fields {
    UpstreamFields(fs) + UpstreamExtra(host, body)
  }

  /** A map filled by `UpstreamFields` has a Connection field but neither Host nor Content-Length. */
  lemma ConnectionIsOther()
    ensures !EqualsIgnoreCase("Connection", "host") && !EqualsIgnoreCase("Connection", "content-length")
  {}

  lemma UpstreamFlags(fs: Fields, printed: Fields)
    requires multiset(printed) == multiset(UpstreamFields(fs))
    ensures FindField(printed, "host") == None && FindField(printed, "content-length") == None
    ensures FindField(printed, "connection").Some?
  {
    SameMembers(printed, UpstreamFields(fs));
    assert UpstreamFields(fs)[|EndToEnd(fs)|] == KEEP_ALIVE;
    assert KEEP_ALIVE in printed;
    OneOfName(printed, KEEP_ALIVE, "connection");
    ConnectionIsOther();
    NoneOfName(printed, "host");
    NoneOfName(printed, "content-length");
  }

  lemma ConnectionFieldsOk()
    ensures FieldOk(KEEP_ALIVE) && FieldOk(CLOSE)
  {
    assert ValidName("Connection");
    ValidNameIsNameOk("Connection");
    OptionIsValue("keep-alive");
    OptionIsValue("close");
  }

  lemma OptionIsValue(option: string)
    requires option == "keep-alive" || option == "close"
    ensures Trimmed(option) && CrlfFree(option)
  {
    CrlfFreeIff(option);
  }

  lemma HostFieldOk(host: string)
    requires Trimmed(host) && CrlfFree(host)
    ensures FieldOk(HostField(host))
  {
    assert ValidName("Host");
    ValidNameIsNameOk("Host");
  }

  lemma LengthFieldOk(body: string)
    ensures FieldOk(LengthField(body))
  {
    LengthFieldPrintable(body);
    DigitsAreNotSpecial(Dec(|body|));
  }

  lemma ReservedNames()
    ensures !EqualsIgnoreCase("Connection", "content-length") && !EqualsIgnoreCase("Host", "content-length")
    ensures "Connection" != "Host" && "Connection" != "Content-Length" && "Host" != "Content-Length"
  {}

  lemma DistinctAppend(fs: Fields, gs: Fields)
    requires Distinct(fs) && Distinct(gs) && forall f, g :: f in fs && g in gs ==> f.name != g.name
    ensures Distinct(fs + gs)
  {
    var all := fs + gs;
    forall i, j | 0 <= i < j < |all| ensures all[i].name != all[j].name {
      if i < |fs| <= j { assert all[i] in fs && all[j] in gs; }
    }
  }

  function UpstreamExtra(host: string, body: string): Fields {
    [HostField(host)] + if body == "" then [] else [LengthField(body)]
  }

  lemma UpstreamExtraOk(host: string, body: string)
    requires Trimmed(host) && CrlfFree(host)
    ensures FieldsOk(UpstreamExtra(host, body))
    ensures forall f :: f in UpstreamExtra(host, body) ==>
              f == HostField(host) || (body != "" && f == LengthField(body))
  {
    HostFieldOk(host);
    LengthFieldOk(body);
    ReservedNames();
  }

  lemma UpstreamFieldsOk(fs: Fields)
    requires FieldsOk(fs)
    ensures FieldsOk(UpstreamFields(fs))
    ensures forall f :: f in UpstreamFields(fs) ==>
              f.name != "Host" && f.name != "Content-Length" && !EqualsIgnoreCase(f.name, "content-length")
  {
    var kept := EndToEnd(fs);
    ConnectionFieldsOk();
    EndToEndDistinct(fs);
    ReservedNames();
    forall f | f in kept ensures f.name != "Connection" && f.name != "Host" && f.name != "Content-Length" {
      HopNamesAreReserved(f.name);
    }
    DistinctAppend(kept, [KEEP_ALIVE]);
  }

  lemma SentUpstreamOk(fs: Fields, host: string, body: string)
    requires FieldsOk(fs) && Trimmed(host) && CrlfFree(host)
    ensures FieldsOk(SentUpstream(fs, host, body))
    ensures body == "" ==> NoField(SentUpstream(fs, host, body), "content-length")
    ensures body != "" ==> OnlyField(SentUpstream(fs, host, body), LengthField(body), "content-length")
  {
    UpstreamFieldsOk(fs);
    UpstreamExtraOk(host, body);
    DistinctAppend(UpstreamFields(fs), UpstreamExtra(host, body));
    var sent := SentUpstream(fs, host, body);
    assert forall f :: f in sent ==> f in UpstreamFields(fs) || f in UpstreamExtra(host, body);
    ReservedNames();
    if body != "" {
      assert sent[|sent| - 1] == LengthField(body);
      LengthFieldPrintable(body);
    }
  }

  lemma PrintedUpstream(fs: Fields, printed: Fields, host: string, body: string)
    requires multiset(printed) == multiset(UpstreamFields(fs))
    ensures multiset(printed + AddedFields(printed, host, body)) == multiset(SentUpstream(fs, host, body))
  {
    UpstreamFlags(fs, printed);
    assert AddedFields(printed, host, body) == UpstreamExtra(host, body);
  }

  lemma OnlyInAnyOrder(fs: Fields, gs: Fields, f: Field, name: string)
    requires multiset(fs) == multiset(gs) && OnlyField(fs, f, name)
    ensures OnlyField(gs, f, name)
  {
    SameMembers(fs, gs);
  }

  lemma NoFieldInAnyOrder(fs: Fields, gs: Fields, name: string)
    requires multiset(fs) == multiset(gs) && NoField(fs, name)
    ensures NoField(gs, name)
  {
    SameMembers(fs, gs);
  }

  /** The length the request parser reads from printed fields. */
  lemma RequestLengthParses(fs: Fields, host: string, body: string, all: Fields, order: Order)
    requires FieldsOk(fs) && Trimmed(host) && CrlfFree(host) && |body| <= MAX_BODY && IsOrder(order)
    requires multiset(all) == multiset(SentUpstream(fs, host, body))
    ensures Q.ContentLength(FindHeader(order(all), "content-length")) == Ok(|body|)
  {
    SentUpstreamOk(fs, host, body);
    if body == "" {
      NoFieldInAnyOrder(SentUpstream(fs, host, body), all, "content-length");
      FindNoneInAnyOrder(all, order, "content-length");
    } else {
      OnlyInAnyOrder(SentUpstream(fs, host, body), all, LengthField(body), "content-length");
      FindInAnyOrder(all, order, LengthField(body), "content-length");
      DecRoundTrip(|body|);
    }
  }

  lemma AllFieldsParse(fs: Fields, host: string, body: string, all: Fields)
    requires FieldsOk(fs) && Trimmed(host) && CrlfFree(host)
    requires multiset(all) == multiset(SentUpstream(fs, host, body))
    ensures FoldFields(FieldLines(all), []) == Some(all) && forall f :: f in all ==> Printable(f)
  {
    SentUpstreamOk(fs, host, body);
    FieldsOkInAnyOrder(SentUpstream(fs, host, body), all);
    FieldLinesParse(all, []);
    TrimValuesIdentity(all);
    assert [] + all == all;
  }

  /** Both limits of the request parser, for a message about to be sent. */
  ghost predicate FitsLimits(line: string, wire: string, body: string) {
    |line| <= Q.MAX_REQUEST_LINE && |wire| - |body| <= MAX_HEADER_SECTION
  }

  /** The parser makes the request of the text. */
  ghost predicate ReadBack(wire: string, verb: Method, path: string, query: string, all: Fields, body: string,
                           order: Order)
  {
    && Q.TryParse(wire, order).Parsed?
    && Q.RequestOf(wire, Q.TryParse(wire, order).head, Q.TryParse(wire, order).bodyStart)
       == Q.Request(verb, path, query, all, body)
  }

  /** Parsing a printed request: it is accepted exactly when it fits the limits, with the same
      method, path, query, fields and body. */
  lemma PrintedRequestParses(verb: Method, path: string, query: string, fs: Fields, host: string, body: string,
                             all: Fields, order: Order)
    requires TargetOk(path, query) && FieldsOk(fs) && Trimmed(host) && CrlfFree(host) && |body| <= MAX_BODY
    requires IsOrder(order) && multiset(all) == multiset(SentUpstream(fs, host, body))
    ensures var line := RequestLineText(verb, UpstreamTarget(path, query));
            var wire := Wire(line, all, body);
            if FitsLimits(line, wire, body) then
              ReadBack(wire, verb, path, query, all, body, order)
            else
              Q.TryParse(wire, order) == Q.Refused(if |wire| - |body| > MAX_HEADER_SECTION then 431 else 414)
  {
    var line := RequestLineText(verb, UpstreamTarget(path, query));
    var wire := Wire(line, all, body);
    RequestLineCrlfFree(verb, path, query);
    AllFieldsParse(fs, host, body, all);
    WireSplits(line, all, body);
    var e := Find(wire, BLANK_LINE, 0);
    LinesBegin(line, all);
    if FitsLimits(line, wire, body) {
      Q.LineInside(wire[..e]);
      FittingRequestParses(verb, path, query, fs, host, body, all, order, wire, e, line);
    } else {
      TooLargeRefused(wire, e, line, order);
    }
  }

  lemma LinesBegin(line: string, all: Fields)
    ensures ([line] + FieldLines(all))[0] == line
  {}

  lemma TooLargeRefused(wire: string, e: nat, line: string, order: Order)
    requires Find(wire, BLANK_LINE, 0) == e && Lines(wire[..e])[0] == line
    requires e + 4 > MAX_HEADER_SECTION || |line| > Q.MAX_REQUEST_LINE
    ensures Q.TryParse(wire, order) == Q.Refused(if e + 4 > MAX_HEADER_SECTION then 431 else 414)
  {}

  lemma FittingRequestParses(verb: Method, path: string, query: string, fs: Fields, host: string, body: string,
                             all: Fields, order: Order, wire: string, e: nat, line: string)
    requires TargetOk(path, query) && FieldsOk(fs) && Trimmed(host) && CrlfFree(host) && |body| <= MAX_BODY
    requires IsOrder(order) && multiset(all) == multiset(SentUpstream(fs, host, body))
    requires Find(wire, BLANK_LINE, 0) == e && e + 4 + |body| == |wire| && wire[e + 4..] == body
    requires line == RequestLineText(verb, UpstreamTarget(path, query)) && line <= wire[..e]
    requires FitsLimits(line, wire, body)
    requires Lines(wire[..e]) == [line] + FieldLines(all)
    requires FoldFields(FieldLines(all), []) == Some(all)
    ensures ReadBack(wire, verb, path, query, all, body, order)
  {
    RequestLineRoundTrip(verb, path, query);
    RequestLengthParses(fs, host, body, all, order);
    RequestHeadParses(wire, e, line, all, |body|, order);
    ReadBackFromHead(wire, e, line, verb, path, query, all, body, order);
  }

  lemma ReadBackFromHead(wire: string, e: nat, line: string, verb: Method, path: string, query: string, all: Fields,
                         body: string, order: Order)
    requires Q.ParseRequestLine(line).Ok? && LineDescribes(line, Q.ParseRequestLine(line).value, verb, path, query)
    requires e + 4 + |body| == |wire| && wire[e + 4..] == body && line <= wire
    requires Q.TryParse(wire, order) == Q.Parsed(Q.Head(Q.ParseRequestLine(line).value, all, |body|), e + 4)
    ensures ReadBack(wire, verb, path, query, all, body, order)
  {
    var l := Q.ParseRequestLine(line).value;
    SameSlices(wire, e, line, l, verb, path, query);
    DescribedRequest(wire, e, l, verb, path, query, all, body);
    ReadsBackTo(wire, Q.Head(l, all, |body|), e + 4, Q.Request(verb, path, query, all, body), order);
  }

  lemma ReadsBackTo(wire: string, head: Q.Head, bodyStart: nat, r: Q.Request, order: Order)
    requires Q.TryParse(wire, order) == Q.Parsed(head, bodyStart) && Q.RequestOf(wire, head, bodyStart) == r
    ensures ReadBack(wire, r.verb, r.path, r.query, r.fields, r.body, order)
  {}

  lemma DescribedRequest(wire: string, e: nat, l: Q.RequestLine, verb: Method, path: string, query: string,
                         all: Fields, body: string)
    requires LineDescribes(wire, l, verb, path, query) && e + 4 + |body| == |wire| && wire[e + 4..] == body
    ensures Q.RequestOf(wire, Q.Head(l, all, |body|), e + 4) == Q.Request(verb, path, query, all, body)
  {
    LastSlice(wire, e + 4, |body|);
  }

  lemma HeadOfLines(section: string, line: string, all: Fields, n: nat, order: Order)
    requires Lines(section) == [line] + FieldLines(all) && Q.ParseRequestLine(line).Ok?
    requires FoldFields(FieldLines(all), []) == Some(all)
    requires Q.ContentLength(FindHeader(order(all), "content-length")) == Ok(n)
    ensures Q.ParseHead(section, order) == Ok(Q.Head(Q.ParseRequestLine(line).value, all, n))
  {
    var ls := [line] + FieldLines(all);
    assert ls[0] == line && ls[1..] == FieldLines(all);
  }

  lemma WholeRequest(wire: string, e: nat, head: Q.Head, order: Order)
    requires Find(wire, BLANK_LINE, 0) == e && e + 4 + head.contentLength == |wire| && e + 4 <= MAX_HEADER_SECTION
    requires Q.ParseHead(wire[..e], order) == Ok(head)
    ensures Q.TryParse(wire, order) == Q.Parsed(head, e + 4)
  {}

  lemma RequestHeadParses(wire: string, e: nat, line: string, all: Fields, n: nat, order: Order)
    requires Find(wire, BLANK_LINE, 0) == e && e + 4 + n == |wire| && e + 4 <= MAX_HEADER_SECTION
    requires Lines(wire[..e]) == [line] + FieldLines(all) && Q.ParseRequestLine(line).Ok?
    requires FoldFields(FieldLines(all), []) == Some(all)
    requires Q.ContentLength(FindHeader(order(all), "content-length")) == Ok(n)
    ensures Q.TryParse(wire, order) == Q.Parsed(Q.Head(Q.ParseRequestLine(line).value, all, n), e + 4)
  {
    HeadOfLines(wire[..e], line, all, n, order);
    WholeRequest(wire, e, Q.Head(Q.ParseRequestLine(line).value, all, n), order);
  }

  lemma SameSlices(wire: string, e: nat, line: string, l: Q.RequestLine, verb: Method, path: string, query: string)
    requires e <= |wire| && line <= wire && LineDescribes(line, l, verb, path, query)
    ensures LineDescribes(wire, l, verb, path, query)
  {
    Q.SlicePrefix(line, wire, l.path);
    Q.SlicePrefix(line, wire, l.query);
  }

  /** What the gateway's parser accepts is fit to be printed again. */
  lemma AcceptedRequestOk(raw: string, order: Order)
    requires Q.TryParse(raw, order).Parsed?
    ensures var r := Q.RequestOf(raw, Q.TryParse(raw, order).head, Q.TryParse(raw, order).bodyStart);
            TargetOk(r.path, r.query) && FieldsOk(r.fields) && |r.body| <= MAX_BODY
  {
    var line := AcceptedHead(raw, order);
    var head := Q.TryParse(raw, order).head;
    ParsedTargetOk(line);
    Q.RequestLineInside(line);
    Q.SlicePrefix(line, raw, head.line.path);
    Q.SlicePrefix(line, raw, head.line.query);
  }

  /** The first line, the fields and the length of an accepted request. */
  lemma AcceptedHead(raw: string, order: Order) returns (line: string)
    requires Q.TryParse(raw, order).Parsed?
    ensures var head := Q.TryParse(raw, order).head;
            && Q.ParseRequestLine(line) == Ok(head.line) && FieldsOk(head.fields) && head.contentLength <= MAX_BODY
    ensures line <= raw && CrlfFree(line)
  {
    var section := raw[..Find(raw, BLANK_LINE, 0)];
    line := Lines(section)[0];
    HeaderSectionOk(section);
    Q.LineInside(section);
  }

  lemma HeaderSectionOk(section: string)
    ensures CrlfFree(Lines(section)[0])
    ensures FoldFields(Lines(section)[1..], []).Some? ==> FieldsOk(FoldFields(Lines(section)[1..], []).value)
  {
    var ls := Lines(section);
    LinesAreCrlfFree(section);
    assert ls[0] in ls && forall l :: l in ls[1..] ==> l in ls;
    if FoldFields(ls[1..], []).Some? { FoldedFieldsOk(ls[1..], []); }
  }

  lemma SentRelayed(fs: Fields, all: Fields, host: string, body: string)
    requires multiset(all) == multiset(SentUpstream(fs, host, body))
    ensures Relayed(fs, all, [Field("Connection", "keep-alive"), Field("Host", host)] +
                    if body == "" then [] else [Field("Content-Length", Dec(|body|))])
  {
    OwnInFront(fs, all, KEEP_ALIVE, HostField(host), if body == "" then [] else [LengthField(body)]);
  }

  lemma OwnInFront(fs: Fields, all: Fields, a: Field, b: Field, more: Fields)
    requires multiset(all) == multiset(EndToEnd(fs) + [a] + ([b] + more))
    ensures Relayed(fs, all, [a, b] + more)
  {
    BehindKept(EndToEnd(fs), a, b, more);
    EndToEndRelayed(fs, all, [a, b] + more);
  }

  lemma BehindKept(kept: Fields, a: Field, b: Field, more: Fields)
    ensures kept + [a] + ([b] + more) == kept + ([a, b] + more)
  {}

  /** Proxy request round trip.  For every request the gateway accepts and every iteration order of
      the header maps, the upstream request is read back by the same parser exactly when it fits the
      limits, and then with the same method, path, query and body and precisely the end-to-end
      fields plus Connection, Host and, for a non-empty body, Content-Length. */
  lemma ProxyRequestRoundTrip(raw: string, host: string, parse: Order, iterate: Order, reparse: Order)
    requires Q.TryParse(raw, parse).Parsed? && Trimmed(host) && CrlfFree(host)
    requires IsOrder(iterate) && IsOrder(reparse)
    ensures var r := Q.RequestOf(raw, Q.TryParse(raw, parse).head, Q.TryParse(raw, parse).bodyStart);
            var target := UpstreamTarget(r.path, r.query);
            var wire := PrintRequest(r.verb, target, iterate(UpstreamFields(r.fields)), host, r.body);
            var again := Q.TryParse(wire, reparse);
            if FitsLimits(RequestLineText(r.verb, target), wire, r.body) then
              && again.Parsed?
              && var r' := Q.RequestOf(wire, again.head, again.bodyStart);
                 && r' == Q.Request(r.verb, r.path, r.query, r'.fields, r.body)
                 && multiset(r'.fields) == multiset(SentUpstream(r.fields, host, r.body))
                 && Relayed(r.fields, r'.fields, [Field("Connection", "keep-alive"), Field("Host", host)] +
                            if r.body == "" then [] else [Field("Content-Length", Dec(|r.body|))])
            else again == Q.Refused(if |wire| - |r.body| > MAX_HEADER_SECTION then 431 else 414)
  {
    AcceptedRequestOk(raw, parse);
    var r := Q.RequestOf(raw, Q.TryParse(raw, parse).head, Q.TryParse(raw, parse).bodyStart);
    var printed := iterate(UpstreamFields(r.fields));
    PrintedUpstream(r.fields, printed, host, r.body);
    SentRelayed(r.fields, printed + AddedFields(printed, host, r.body), host, r.body);
    PrintedRequestParses(r.verb, r.path, r.query, r.fields, host, r.body,
                         printed + AddedFields(printed, host, r.body), reparse);
  }

  // ---------------------------------------------------------------- downstream response

  /** What `forward` returns for an upstream response, visiting its header map in the order `fs`. */
  function Downstream(status: nat, reason: string, fs: Fields, body: string): string {
    Wire(StatusLineText(status, if reason == "" then "OK" else reason),
         EndToEnd(fs) + ([LengthField(body)] + [CLOSE]), body)
  }

  method RewriteResponse(r: RP.Response, order: Order) returns (out: string)
    ensures out == Downstream(r.status, r.reason, order(r.fields), r.body)
  {
    var start := StatusLineText(r.status, if r.reason == "" then "OK" else r.reason);
    var text := EndToEndText(order(r.fields));
    var last := [LengthField(r.body)] + [CLOSE];
    out := start + CRLF + (text + Block(FieldLines(last))) + CRLF + r.body;
    BlockAppend(EndToEnd(order(r.fields)), last);
    WireInPieces(start, EndToEnd(order(r.fields)) + last, r.body);
  }

  /** The loop over the upstream headers, skipping those that end here. */
  method EndToEndText(fs: Fields) returns (text: string)
    ensures text == Block(FieldLines(EndToEnd(fs)))
  {
    text := "";
    for i := 0 to |fs|
      invariant text == Block(FieldLines(EndToEnd(fs[..i])))
    {
      assert fs[..i + 1] == fs[..i] + [fs[i]];
      EndToEndSnoc(fs[..i], fs[i]);
      var hop := IsHopByHop(fs[i].name);
      if hop {
        assert EndToEnd(fs[..i]) + [] == EndToEnd(fs[..i]);
        continue;
      }
      BlockAppend(EndToEnd(fs[..i]), [fs[i]]);
      BlockSingle(fs[i]);
      text := text + (FieldLine(fs[i]) + CRLF);
    }
    assert fs[..|fs|] == fs;
  }

  lemma {:induction false} EndToEndSnoc(fs: Fields, f: Field)
    ensures EndToEnd(fs + [f]) == EndToEnd(fs) + if IsHopByHop(f.name) then [] else [f]
  {
    if fs == [] {
      assert fs + [f] == [f] && [f][1..] == [];
    } else {
      assert (fs + [f])[1..] == fs[1..] + [f];
      EndToEndSnoc(fs[1..], f);
    }
  }

  /** Everything the client delivers as a complete response. */
  lemma AcceptedResponseOk(raw: string, order: Order)
    requires RP.TryParse(raw, order).Complete?
    ensures var r := RP.TryParse(raw, order).response;
            && r.status <= RP.INT_MAX && Trimmed(r.reason) && CrlfFree(r.reason)
            && FieldsOk(r.fields) && |r.body| <= MAX_BODY
  {
    var e := Find(raw, BLANK_LINE, 0);
    var line := Lines(raw[..e])[0];
    HeaderSectionOk(raw[..e]);
    ReasonCrlfFree(line);
    TrimKeeps(RP.ParseStatusLine(line).value.reason, ' ');
  }

  lemma ReasonCrlfFree(line: string)
    requires CrlfFree(line) && RP.ParseStatusLine(line).Some?
    ensures CrlfFree(RP.ParseStatusLine(line).value.reason)
  {
    BehindCrlfFree(line, Find(line, " ", Find(line, " ", 0) + 1));
  }

  lemma BehindCrlfFree(line: string, space: int)
    requires CrlfFree(line)
    ensures CrlfFree(RP.Behind(line, space))
  {
    if 0 <= space < |line| { CrlfFreeTail(line, space + 1); } else { CrlfFreeIff(""); }
  }

  lemma CrlfFreeTail(line: string, from: nat)
    requires CrlfFree(line) && from <= |line|
    ensures CrlfFree(line[from..])
  {
    CrlfFreeSlice(line, from, |line|);
    assert line[from..|line|] == line[from..];
  }

  lemma DownstreamFieldsGood(fs: Fields, body: string)
    requires FieldsOk(fs)
    ensures GoodFields(EndToEnd(fs) + ([LengthField(body)] + [CLOSE]), LengthField(body))
    ensures TrimValues(EndToEnd(fs) + ([LengthField(body)] + [CLOSE])) == EndToEnd(fs) + ([LengthField(body)] + [CLOSE])
  {
    var kept := EndToEnd(fs);
    ConnectionFieldsOk();
    LengthFieldOk(body);
    LengthFieldPrintable(body);
    EndToEndDistinct(fs);
    ReservedNames();
    forall f | f in kept ensures f.name != "Connection" { HopNamesAreReserved(f.name); }
    GoodAround(kept, LengthField(body), [CLOSE]);
    DownstreamFieldsTrimmed(fs, body);
  }

  lemma DownstreamFieldsTrimmed(fs: Fields, body: string)
    requires FieldsOk(fs)
    ensures TrimValues(EndToEnd(fs) + ([LengthField(body)] + [CLOSE])) == EndToEnd(fs) + ([LengthField(body)] + [CLOSE])
  {
    ConnectionFieldsOk();
    LengthFieldOk(body);
    TrimmedWithTwo(EndToEnd(fs), LengthField(body), CLOSE);
  }

  lemma TrimmedWithTwo(fs: Fields, a: Field, b: Field)
    requires (forall f :: f in fs ==> FieldOk(f)) && FieldOk(a) && FieldOk(b)
    ensures TrimValues(fs + ([a] + [b])) == fs + ([a] + [b])
  {
    var all := fs + ([a] + [b]);
    assert forall f :: f in all ==> f in fs || f == a || f == b;
    TrimValuesIdentity(all);
  }

  /** Proxy response rewrite.  For every upstream response the client accepts and every iteration
      order of its header map, the bytes returned downstream parse again, with the same status and
      body, the reason unchanged (or "OK" for an empty one), and precisely the end-to-end fields
      plus the recomputed Content-Length and `Connection: close`. */
  lemma ProxyResponseRoundTrip(raw: string, parse: Order, iterate: Order, reparse: Order)
    requires RP.TryParse(raw, parse).Complete? && IsOrder(iterate) && IsOrder(reparse)
    ensures var r := RP.TryParse(raw, parse).response;
            var wire := Downstream(r.status, r.reason, iterate(r.fields), r.body);
            var again := RP.TryParse(wire, reparse);
            && again.Complete?
            && again.response.status == r.status
            && again.response.reason == (if r.reason == "" then "OK" else r.reason)
            && again.response.body == r.body
            && multiset(again.response.fields) ==
               multiset(EndToEnd(r.fields) + ([LengthField(r.body)] + [CLOSE]))
            && Relayed(r.fields, again.response.fields,
                       [Field("Content-Length", Dec(|r.body|)), Field("Connection", "close")])
  {
    var r := RP.TryParse(raw, parse).response;
    AcceptedResponseOk(raw, parse);
    var fs := iterate(r.fields);
    FieldsOkInAnyOrder(r.fields, fs);
    DownstreamReadBack(r.status, r.reason, fs, r.body, reparse);
    EndToEndInAnyOrder(fs, r.fields);
    ReturnedRelayed(r.fields, EndToEnd(fs) + ([LengthField(r.body)] + [CLOSE]), r.body);
  }

  lemma ReturnedRelayed(fs: Fields, all: Fields, body: string)
    requires multiset(all) == multiset(EndToEnd(fs) + ([LengthField(body)] + [CLOSE]))
    ensures Relayed(fs, all, [Field("Content-Length", Dec(|body|)), Field("Connection", "close")])
  {
    OwnTwo(fs, all, LengthField(body), CLOSE);
  }

  lemma OwnTwo(fs: Fields, all: Fields, a: Field, b: Field)
    requires multiset(all) == multiset(EndToEnd(fs) + ([a] + [b]))
    ensures Relayed(fs, all, [a, b])
  {
    assert [a] + [b] == [a, b];
    EndToEndRelayed(fs, all, [a, b]);
  }

  lemma DownstreamReadBack(status: nat, reason: string, fs: Fields, body: string, reparse: Order)
    requires status <= RP.INT_MAX && Trimmed(reason) && CrlfFree(reason) && FieldsOk(fs) && |body| <= MAX_BODY
    requires IsOrder(reparse)
    ensures RP.TryParse(Downstream(status, reason, fs, body), reparse) ==
            RP.Complete(RP.Response(status, if reason == "" then "OK" else reason,
                                    EndToEnd(fs) + ([LengthField(body)] + [CLOSE]), body))
  {
    DownstreamFieldsGood(fs, body);
    var sent := if reason == "" then "OK" else reason;
    PlainReason();
    TrimIdempotent(sent);
    WireRoundTrip(status, sent, EndToEnd(fs) + ([LengthField(body)] + [CLOSE]), body, reparse);
  }

  // ---------------------------------------------------------------- statusFromWire

  function StatusFromWire(wire: string): nat {
    if |wire| < 12 || wire[..5] != "HTTP/" || wire[8] != ' ' then 0
    else if !IsDigit(wire[9]) || !IsDigit(wire[10]) || !IsDigit(wire[11]) then 0
    else
      var code := (DigitValue(wire[9]) * 10 + DigitValue(wire[10])) * 10 + DigitValue(wire[11]);
      if 100 <= code <= 599 then code else 0
  }

  /** A status line in front: `HTTP/`, a version of three characters, a blank and three digits. */
  ghost predicate StatusHead(wire: string, version: string, code: string, rest: string) {
    && wire == "HTTP/" + version + " " + code + rest && |version| == 3 && |code| == 3
    && Digit(code[0]) && Digit(code[1]) && Digit(code[2])
  }

  lemma StatusAt(wire: string, version: string, code: string, rest: string)
    requires StatusHead(wire, version, code, rest)
    ensures AllDigits(code) && StatusFromWire(wire) == if 100 <= DecValue(code) <= 599 then DecValue(code) else 0
  {
    HeadAt(wire, version, code, rest);
    ThreeDigitValue(code);
  }

  lemma HeadAt(wire: string, version: string, code: string, rest: string)
    requires StatusHead(wire, version, code, rest)
    ensures |wire| >= 12 && wire[..5] == "HTTP/" && wire[8] == ' ' && wire[9..12] == code
  {}

  lemma ThreeDigitValue(code: string)
    requires |code| == 3 && Digit(code[0]) && Digit(code[1]) && Digit(code[2])
    ensures AllDigits(code)
    ensures DecValue(code) == (DigitValue(code[0]) * 10 + DigitValue(code[1])) * 10 + DigitValue(code[2])
  {
    assert code[..2][..1] == code[..1] && code[..1][..0] == "";
    assert DecValue(code[..1]) == DigitValue(code[0]);
  }

  /** A status is read exactly where there is such a line and its code is from 100 to 599. */
  lemma StatusReadIff(wire: string)
    ensures StatusFromWire(wire) != 0 <==>
            exists version, code, rest ::
              StatusHead(wire, version, code, rest) && AllDigits(code) && 100 <= DecValue(code) <= 599
  {
    forall version, code, rest | StatusHead(wire, version, code, rest)
      ensures StatusFromWire(wire) == if 100 <= DecValue(code) <= 599 then DecValue(code) else 0
    {
      StatusAt(wire, version, code, rest);
    }
    if StatusFromWire(wire) != 0 {
      CutStatus(wire);
      StatusAt(wire, wire[5..8], wire[9..12], wire[12..]);
    }
  }

  lemma CutStatus(wire: string)
    requires StatusFromWire(wire) != 0
    ensures StatusHead(wire, wire[5..8], wire[9..12], wire[12..])
  {}

  lemma DecOfThreeDigits(n: nat)
    requires 100 <= n <= 999
    ensures Dec(n) == [DigitChar(n / 100), DigitChar(n / 10 % 10), DigitChar(n % 10)]
  {
    assert Dec(n / 10) == Dec(n / 10 / 10) + [DigitChar(n / 10 % 10)];
    assert n / 10 / 10 == n / 100;
  }

  lemma {:induction false} LongDecimals(n: nat)
    ensures n < 10 ==> |Dec(n)| == 1
    ensures 10 <= n < 100 ==> |Dec(n)| == 2
    ensures n >= 100 ==> |Dec(n)| >= 3
  {
    if n >= 10 { LongDecimals(n / 10); }
  }

  /** The status recovered from a rewritten response is the upstream's own, exactly for the codes
      100 to 599 and for 0; a code of four digits or more is cut to its first three. */
  lemma StatusFromDownstream(status: nat, reason: string, fs: Fields, body: string)
    ensures StatusFromWire(Downstream(status, reason, fs, body)) == status <==> 100 <= status <= 599 || status == 0
  {
    var rest := DownstreamShape(status, reason, fs, body);
    StatusInFront(status, rest);
  }

  lemma DownstreamShape(status: nat, reason: string, fs: Fields, body: string) returns (rest: string)
    ensures |rest| >= 3 && Downstream(status, reason, fs, body) == "HTTP/1.1 " + (Dec(status) + " " + rest)
  {
    var text := if reason == "" then "OK" else reason;
    var last := [LengthField(body)] + [CLOSE];
    WireInPieces(StatusLineText(status, text), EndToEnd(fs) + last, body);
    rest := text + (CRLF + Block(FieldLines(EndToEnd(fs) + last)) + CRLF + body);
    StatusRegroup("HTTP/1.1 ", Dec(status), " ", text, CRLF, Block(FieldLines(EndToEnd(fs) + last)), CRLF, body);
  }

  lemma StatusRegroup(a: string, b: string, c: string, d: string, e: string, f: string, g: string, h: string)
    ensures a + b + c + d + e + f + g + h == a + (b + c + (d + (e + f + g + h)))
  {}

  lemma StatusInFront(status: nat, rest: string)
    requires |rest| >= 3
    ensures StatusFromWire("HTTP/1.1 " + (Dec(status) + " " + rest)) == status <==> 100 <= status <= 599 || status == 0
  {
    LongDecimals(status);
    CodeInFront(Dec(status) + " " + rest);
    if status < 100 {
      ShortCode(Dec(status), rest);
    } else if status <= 999 {
      DecOfThreeDigits(status);
      ThreeDigitCode(Dec(status), status, rest);
    }
  }

  lemma ShortCode(code: string, rest: string)
    requires 1 <= |code| <= 2 && |rest| >= 3
    ensures var tail := code + " " + rest; !IsDigit(tail[0]) || !IsDigit(tail[1]) || !IsDigit(tail[2])
  {
    assert (code + " " + rest)[|code|] == ' ';
  }

  lemma ThreeDigitCode(code: string, status: nat, rest: string)
    requires 100 <= status <= 999
    requires code == [DigitChar(status / 100), DigitChar(status / 10 % 10), DigitChar(status % 10)]
    ensures var tail := code + " " + rest;
            && IsDigit(tail[0]) && IsDigit(tail[1]) && IsDigit(tail[2])
            && (DigitValue(tail[0]) * 10 + DigitValue(tail[1])) * 10 + DigitValue(tail[2]) == status
  {
    DigitsOf(status);
    var tail := code + " " + rest;
    assert tail[0] == code[0] && tail[1] == code[1] && tail[2] == code[2];
  }

  lemma CodeInFront(tail: string)
    requires |tail| >= 3
    ensures StatusFromWire("HTTP/1.1 " + tail) ==
            if !IsDigit(tail[0]) || !IsDigit(tail[1]) || !IsDigit(tail[2]) then 0
            else
              var code := (DigitValue(tail[0]) * 10 + DigitValue(tail[1])) * 10 + DigitValue(tail[2]);
              if 100 <= code <= 599 then code else 0
  {
    var wire := "HTTP/1.1 " + tail;
    assert wire[..5] == "HTTP/";
    assert wire[8] == ' ' && wire[9] == tail[0] && wire[10] == tail[1] && wire[11] == tail[2];
  }

  /** An upstream answer with nothing but its length in the header. */
  function PlainAnswer(status: nat, body: string): string {
    Wire(StatusLineText(status, "OK"), [LengthField(body)], body)
  }

  lemma PlainAnswerAccepted(status: nat, body: string, order: Order)
    requires status <= RP.INT_MAX && |body| <= MAX_BODY && IsOrder(order)
    ensures RP.ExactMessage(PlainAnswer(status, body), RP.Response(status, "OK", [LengthField(body)], body), order)
  {
    LengthFieldPrintable(body);
    GoodAlone(LengthField(body));
    PlainReason();
    PlainLength(body);
    WireRoundTrip(status, "OK", [LengthField(body)], body, order);
  }

  lemma PlainReason()
    ensures CrlfFree("OK") && Trim("OK") == "OK"
  {
    CrlfFreeIff("OK");
    TrimIdempotent("OK");
  }

  lemma PlainLength(body: string)
    ensures TrimValues([LengthField(body)]) == [LengthField(body)]
  {
    LengthFieldOk(body);
    TrimValuesIdentity([LengthField(body)]);
  }

  lemma GoodAlone(f: Field)
    requires Printable(f) && EqualsIgnoreCase(f.name, "content-length")
    ensures GoodFields([f], f)
  {}

  /** The client accepts an answer with a status of four digits, and the status recovered from what
      is returned downstream is its first three digits, or nothing. */
  lemma FourDigitStatusIsCut(status: nat, body: string, parse: Order, iterate: Order)
    requires 1000 <= status <= 9999 && |body| <= MAX_BODY && IsOrder(parse)
    ensures RP.TryParse(PlainAnswer(status, body), parse).Complete?
    ensures var r := RP.TryParse(PlainAnswer(status, body), parse).response;
            && r.status == status
            && StatusFromWire(Downstream(r.status, r.reason, iterate(r.fields), r.body)) ==
                 if status / 10 <= 599 then status / 10 else 0
  {
    PlainAnswerAccepted(status, body, parse);
    var fs := iterate([LengthField(body)]);
    var rest := DownstreamShape(status, "OK", fs, body);
    ThreeDigitsInFront(status, rest);
  }

  lemma ThreeDigitsInFront(status: nat, rest: string)
    requires 1000 <= status <= 9999
    ensures StatusFromWire("HTTP/1.1 " + (Dec(status) + " " + rest)) == if status / 10 <= 599 then status / 10 else 0
  {
    FirstThreeDigits(status);
    var code, tail := Dec(status), Dec(status) + " " + rest;
    assert tail[0] == code[0] && tail[1] == code[1] && tail[2] == code[2];
    CodeInFront(tail);
    DigitsOf(status / 10);
  }

  lemma FirstThreeDigits(status: nat)
    requires 1000 <= status <= 9999
    ensures var d, code := status / 10, Dec(status);
            && |code| == 4 && code[0] == DigitChar(d / 100) && code[1] == DigitChar(d / 10 % 10)
            && code[2] == DigitChar(d % 10)
  {
    DecOfThreeDigits(status / 10);
    assert Dec(status) == Dec(status / 10) + [DigitChar(status % 10)];
  }

  lemma DigitsOf(d: nat)
    requires 100 <= d <= 999
    ensures (DigitValue(DigitChar(d / 100)) * 10 + DigitValue(DigitChar(d / 10 % 10))) * 10 +
              DigitValue(DigitChar(d % 10)) == d
  {}
}
