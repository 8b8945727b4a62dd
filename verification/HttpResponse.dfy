/** The response object handlers fill in, and its wire form. */
module HttpResponse {
  import opened Wrappers
  import opened Text
  import opened Characters
  import opened Http
  import RP = ResponseParser

  /** `isTokenChar`: letters, digits and the other characters of an HTTP token. */
  predicate IsTokenChar(c: char) {
    'a' <= c <= 'z' || 'A' <= c <= 'Z' || '0' <= c <= '9' || c in "!#$%&'*+-.^_`|~"
  }

  predicate ValidName(name: string) {
    name != "" && forall i :: 0 <= i < |name| ==> IsTokenChar(name[i])
  }

  predicate ValidValue(value: string) {
    forall i :: 0 <= i < |value| ==> value[i] != '\r' && value[i] != '\n' && value[i] != '\0'
  }

  /** The characters of a token: visible ASCII characters other than `"(),/:;<=>?@[\]{}`. */
  predicate TokenCode(n: int) {
    && 33 <= n <= 126 && n != 34 && n != 40 && n != 41 && n != 44 && n != 47
    && !(58 <= n <= 64) && !(91 <= n <= 93) && n != 123 && n != 125
  }

  lemma TokenIff(c: char)
    ensures IsTokenChar(c) <==> TokenCode(c as int)
  {}

  /** No NUL, line feed or carriage return. */
  lemma ValueIff(value: string)
    ensures ValidValue(value) <==>
            forall i :: 0 <= i < |value| ==> value[i] as int != 0 && value[i] as int != 10 && value[i] as int != 13
  {
    assert '\0' as int == 0 && '\n' as int == 10 && '\r' as int == 13;
  }

  datatype Message = Message(status: nat, reason: string, headers: Fields, body: string)

  ghost predicate UniqueNames(fs: Fields) {
    forall i, j :: 0 <= i < j < |fs| ==> !EqualsIgnoreCase(fs[i].name, fs[j].name)
  }

  ghost predicate ValidHeaders(fs: Fields) {
    UniqueNames(fs) && forall f :: f in fs ==> ValidName(f.name) && ValidValue(f.value)
  }

  ghost predicate ValidMessage(m: Message) {
    100 <= m.status <= 599 && ValidValue(m.reason) && ValidHeaders(m.headers)
  }

  /** Replaces the value of the field of that name, ignoring case, in place, or appends one. */
  function SetField(fs: Fields, name: string, value: string): Fields {
    if fs == [] then [Field(name, value)]
    else if EqualsIgnoreCase(fs[0].name, name) then [Field(fs[0].name, value)] + fs[1..]
    else [fs[0]] + SetField(fs[1..], name, value)
  }

  /** Setting a header changes no name that is there, and appends the new one only if it is not. */
  lemma {:induction false} SetFieldShape(fs: Fields, name: string, value: string)
    ensures |fs| <= |SetField(fs, name, value)| <= |fs| + 1
    ensures forall i :: 0 <= i < |fs| ==> SetField(fs, name, value)[i].name == fs[i].name
    ensures |SetField(fs, name, value)| == |fs| + 1 ==>
              NoField(fs, name) && SetField(fs, name, value)[|fs|].name == name
    ensures forall f :: f in SetField(fs, name, value) ==> f in fs || f.value == value
  {
    if fs != [] {
      assert fs == [fs[0]] + fs[1..];
      if !EqualsIgnoreCase(fs[0].name, name) {
        SetFieldShape(fs[1..], name, value);
      }
    }
  }

  /** Setting a header keeps every valid list valid: names stay unique ignoring case. */
  lemma SetFieldKeepsValid(fs: Fields, name: string, value: string)
    requires ValidHeaders(fs) && ValidName(name) && ValidValue(value)
    ensures ValidHeaders(SetField(fs, name, value))
  {
    SetFieldShape(fs, name, value);
    StillUnique(fs, SetField(fs, name, value), name);
    StillValid(fs, SetField(fs, name, value), name, value);
  }

  lemma StillUnique(fs: Fields, t: Fields, name: string)
    requires UniqueNames(fs) && |fs| <= |t| <= |fs| + 1 && forall i :: 0 <= i < |fs| ==> t[i].name == fs[i].name
    requires |t| == |fs| + 1 ==> NoField(fs, name) && t[|fs|].name == name
    ensures UniqueNames(t)
  {
    forall i, j | 0 <= i < j < |t| ensures !EqualsIgnoreCase(t[i].name, t[j].name) {
      assert fs[i] in fs;
    }
  }

  lemma StillValid(fs: Fields, t: Fields, name: string, value: string)
    requires ValidHeaders(fs) && ValidName(name) && ValidValue(value)
    requires |t| <= |fs| + 1 && forall i :: 0 <= i < |fs| && i < |t| ==> t[i].name == fs[i].name
    requires |t| == |fs| + 1 ==> t[|fs|].name == name
    requires forall f :: f in t ==> f in fs || f.value == value
    ensures forall f :: f in t ==> ValidName(f.name) && ValidValue(f.value)
  {
    forall f | f in t ensures ValidName(f.name) {
      var i :| 0 <= i < |t| && t[i] == f;
      if i < |fs| { assert fs[i] in fs; }
    }
  }

  /** The value set is the value found, and no other name is affected. */
  lemma {:induction false} SetFieldLookup(fs: Fields, name: string, value: string, other: string)
    ensures FindHeader(SetField(fs, name, value), name) == value
    ensures !EqualsIgnoreCase(name, other) ==>
              FindField(SetField(fs, name, value), other) == FindField(fs, other)
  {
    if fs == [] {
      assert [Field(name, value)][1..] == [];
    } else if EqualsIgnoreCase(fs[0].name, name) {
      assert SetField(fs, name, value)[1..] == fs[1..];
    } else {
      SetFieldLookup(fs[1..], name, value, other);
      assert SetField(fs, name, value)[1..] == SetField(fs[1..], name, value);
    }
  }

  // ---------------------------------------------------------------- wire form

  function StatusLineText(status: nat, reason: string): string {
    "HTTP/1.1 " + Dec(status) + " " + reason
  }

  function WithoutContentLength(fs: Fields): (r: Fields)
    ensures forall f :: f in r <==> f in fs && !EqualsIgnoreCase(f.name, "Content-Length")
  {
    if fs == [] then []
    else if EqualsIgnoreCase(fs[0].name, "Content-Length") then WithoutContentLength(fs[1..])
    else [fs[0]] + WithoutContentLength(fs[1..])
  }

  function LengthField(body: string): Field {
    Field("Content-Length", Dec(|body|))
  }

  function Closing(fs: Fields): Fields {
    if FindField(fs, "Connection").None? then [Field("Connection", "close")] else []
  }

  /** The fields that are sent: those set, except Content-Length, then the length of the body, then
      `Connection: close` unless a Connection field was set. */
  function SentFields(m: Message): Fields {
    WithoutContentLength(m.headers) + ([LengthField(m.body)] + Closing(m.headers))
  }

  /** The same, field by field. */
  lemma SentIff(m: Message, f: Field)
    ensures f in SentFields(m) <==>
            || f == Field("Content-Length", Dec(|m.body|))
            || (f in m.headers && !SameName(f.name, "Content-Length"))
            || (f == Field("Connection", "close") && forall g :: g in m.headers ==> !SameName(g.name, "Connection"))
  {
    SameNameIff(f.name, "Content-Length");
    ClosingIff(m.headers);
    var length, closing := [LengthField(m.body)], Closing(m.headers);
    assert f in SentFields(m) <==> f in WithoutContentLength(m.headers) || f in length || f in closing;
  }

  lemma ClosingIff(fs: Fields)
    ensures Closing(fs) == if forall g :: g in fs ==> !SameName(g.name, "Connection")
                           then [Field("Connection", "close")] else []
  {
    FoundOrNone(fs, "Connection");
    forall g | g in fs ensures EqualsIgnoreCase(g.name, "Connection") <==> SameName(g.name, "Connection") {
      SameNameIff(g.name, "Connection");
    }
  }

  lemma {:induction false} FoundOrNone(fs: Fields, name: string)
    ensures FindField(fs, name).Some? <==> exists g :: g in fs && EqualsIgnoreCase(g.name, name)
  {
    if fs != [] {
      FoundOrNone(fs[1..], name);
      assert forall g :: g in fs <==> g == fs[0] || g in fs[1..];
    }
  }

  function Print(m: Message): string {
    Wire(StatusLineText(m.status, m.reason), SentFields(m), m.body)
  }

  class HttpResponse {
    var status: nat
    var reason: string
    var headers: Fields
    var body: string

    function Value(): Message
      reads this
    {
      Message(status, reason, headers, body)
    }

    ghost predicate Valid()
      reads this
    {
      ValidMessage(Value())
    }

    constructor ()
      ensures Valid() && Value() == Message(200, "OK", [], "")
    {
      status, reason, headers, body := 200, "OK", [], "";
    }

    /** False where the source throws; nothing has changed then. */
    method SetStatus(statusCode: int, reasonPhrase: string) returns (ok: bool)
      requires Valid()
      modifies this
      ensures Valid() && (ok <==> 100 <= statusCode <= 599 && ValidValue(reasonPhrase))
      ensures Value() == if ok then old(Value()).(status := statusCode, reason := reasonPhrase) else old(Value())
    {
      if statusCode < 100 || statusCode > 599 || !ValidValue(reasonPhrase) {
        return false;
      }
      status, reason := statusCode, reasonPhrase;
      return true;
    }

    method SetHeader(name: string, value: string) returns (ok: bool)
      requires Valid()
      modifies this`headers
      ensures Valid() && (ok <==> ValidName(name) && ValidValue(value))
      ensures Value() == if ok then old(Value()).(headers := SetField(old(headers), name, value)) else old(Value())
    {
      if !ValidName(name) || !ValidValue(value) {
        return false;
      }
      SetFieldKeepsValid(headers, name, value);
      for i := 0 to |headers|
        invariant headers == old(headers)
        invariant forall k :: 0 <= k < i ==> !EqualsIgnoreCase(headers[k].name, name)
      {
        var same := CaseInsensitiveEquals(headers[i].name, name);
        if same {
          SetFieldAt(headers, i, name, value);
          headers := headers[i := Field(headers[i].name, value)];
          return true;
        }
      }
      SetFieldAppends(headers, name, value);
      headers := headers + [Field(name, value)];
      return true;
    }

    method SetBody(newBody: string)
      requires Valid()
      modifies this`body
      ensures Valid() && Value() == old(Value()).(body := newBody)
    {
      body := newBody;
    }

    method ToBytes() returns (out: string)
      ensures out == Print(Value())
    {
      var text, hasConnection := FieldsText(headers);
      out := StatusLineText(status, reason) + CRLF;
      out := out + text;
      out := out + (FieldLine(LengthField(body)) + CRLF);
      if !hasConnection {
        out := out + (FieldLine(Field("Connection", "close")) + CRLF);
      }
      out := out + CRLF;
      out := out + body;
      PrintedInPieces(Value());
    }
  }

  /** The loop over the headers: their lines, and whether a Connection field was among them. */
  method FieldsText(headers: Fields) returns (text: string, hasConnection: bool)
    ensures text == Block(FieldLines(WithoutContentLength(headers)))
    ensures hasConnection <==> FindField(headers, "Connection").Some?
  {
    text := "";
    hasConnection := false;
    for i := 0 to |headers|
      invariant hasConnection <==> FindField(headers[..i], "Connection").Some?
      invariant text == Block(FieldLines(WithoutContentLength(headers[..i])))
    {
      var header := headers[i];
      TextSnoc(headers[..i], header);
      FindSnoc(headers[..i], header, "Connection");
      assert headers[..i + 1] == headers[..i] + [header];
      var isLength := CaseInsensitiveEquals(header.name, "Content-Length");
      if isLength {
        NotBoth(header.name);
        continue;
      }
      var isConnection := CaseInsensitiveEquals(header.name, "Connection");
      if isConnection {
        hasConnection := true;
      }
      text := text + (FieldLine(header) + CRLF);
    }
    assert headers[..|headers|] == headers;
  }

  lemma {:induction false} FindSnoc(fs: Fields, f: Field, name: string)
    ensures FindField(fs + [f], name).Some? <==> FindField(fs, name).Some? || EqualsIgnoreCase(f.name, name)
  {
    if fs == [] {
      assert fs + [f] == [f] && [f][1..] == [];
    } else {
      assert (fs + [f])[1..] == fs[1..] + [f];
      FindSnoc(fs[1..], f, name);
    }
  }

  lemma {:induction false} WithoutSnoc(fs: Fields, f: Field)
    ensures WithoutContentLength(fs + [f]) ==
            WithoutContentLength(fs) + if EqualsIgnoreCase(f.name, "Content-Length") then [] else [f]
  {
    if fs == [] {
      assert fs + [f] == [f] && [f][1..] == [];
    } else {
      assert (fs + [f])[1..] == fs[1..] + [f];
      WithoutSnoc(fs[1..], f);
    }
  }

  lemma TextSnoc(fs: Fields, f: Field)
    ensures Block(FieldLines(WithoutContentLength(fs + [f]))) ==
            Block(FieldLines(WithoutContentLength(fs))) +
            if EqualsIgnoreCase(f.name, "Content-Length") then "" else FieldLine(f) + CRLF
  {
    var kept := WithoutContentLength(fs);
    WithoutSnoc(fs, f);
    if EqualsIgnoreCase(f.name, "Content-Length") {
      assert kept + [] == kept;
    } else {
      BlockAppend(kept, [f]);
      BlockSingle(f);
    }
  }

  lemma BlockSingle(f: Field)
    ensures Block(FieldLines([f])) == FieldLine(f) + CRLF
  {
    assert [f] == [f] + [];
    BlockCons(f, []);
    assert Block(FieldLines([])) == "";
  }

  lemma {:induction false} SetFieldAt(fs: Fields, i: nat, name: string, value: string)
    requires i < |fs| && EqualsIgnoreCase(fs[i].name, name)
    requires forall k :: 0 <= k < i ==> !EqualsIgnoreCase(fs[k].name, name)
    ensures SetField(fs, name, value) == fs[i := Field(fs[i].name, value)]
  {
    if i > 0 {
      SetFieldAt(fs[1..], i - 1, name, value);
    }
  }

  lemma {:induction false} SetFieldAppends(fs: Fields, name: string, value: string)
    requires forall k :: 0 <= k < |fs| ==> !EqualsIgnoreCase(fs[k].name, name)
    ensures SetField(fs, name, value) == fs + [Field(name, value)]
  {
    if fs != [] {
      SetFieldAppends(fs[1..], name, value);
    }
  }

  lemma NotBoth(name: string)
    ensures !(EqualsIgnoreCase(name, "Content-Length") && EqualsIgnoreCase(name, "Connection"))
  {}

  lemma BlockCons(f: Field, fs: Fields)
    ensures Block(FieldLines([f] + fs)) == FieldLine(f) + CRLF + Block(FieldLines(fs))
  {
    assert ([f] + fs)[1..] == fs;
    assert ([FieldLine(f)] + FieldLines(fs))[1..] == FieldLines(fs);
  }

  lemma {:induction false} ConnectionLookup(fs: Fields)
    ensures FindField(fs, "Connection").Some? <==>
            exists k :: 0 <= k < |fs| && EqualsIgnoreCase(fs[k].name, "Connection")
  {
    if fs != [] {
      ConnectionLookup(fs[1..]);
      if k :| 0 <= k < |fs| && EqualsIgnoreCase(fs[k].name, "Connection") {
        if k > 0 { assert fs[1..][k - 1] == fs[k]; }
      }
      if k :| 0 <= k < |fs[1..]| && EqualsIgnoreCase(fs[1..][k].name, "Connection") {
        assert fs[k + 1] == fs[1..][k];
      }
    }
  }

  lemma {:induction false} BlockAppend(fs: Fields, gs: Fields)
    ensures Block(FieldLines(fs + gs)) == Block(FieldLines(fs)) + Block(FieldLines(gs))
  {
    if fs == [] {
      assert fs + gs == gs;
    } else {
      assert fs + gs == [fs[0]] + (fs[1..] + gs) && fs == [fs[0]] + fs[1..];
      BlockAppend(fs[1..], gs);
      BlockCons(fs[0], fs[1..] + gs);
      BlockCons(fs[0], fs[1..]);
    }
  }

  lemma WireInPieces(start: string, fs: Fields, body: string)
    ensures Wire(start, fs, body) == start + CRLF + Block(FieldLines(fs)) + CRLF + body
  {
    assert ([start] + FieldLines(fs))[1..] == FieldLines(fs);
  }

  lemma PrintedInPieces(m: Message)
    ensures Print(m) ==
            StatusLineText(m.status, m.reason) + CRLF + Block(FieldLines(WithoutContentLength(m.headers)))
            + (FieldLine(LengthField(m.body)) + CRLF) + Block(FieldLines(Closing(m.headers))) + CRLF + m.body
    ensures Closing(m.headers) == [] ==> Block(FieldLines(Closing(m.headers))) == ""
    ensures Closing(m.headers) != [] ==>
              Block(FieldLines(Closing(m.headers))) == FieldLine(Field("Connection", "close")) + CRLF
  {
    var kept, length, closing := WithoutContentLength(m.headers), LengthField(m.body), Closing(m.headers);
    if closing != [] { BlockSingle(Field("Connection", "close")); }
    BlockAppend(kept, [length] + closing);
    BlockCons(length, closing);
    WireInPieces(StatusLineText(m.status, m.reason), SentFields(m), m.body);
    Regroup(StatusLineText(m.status, m.reason) + CRLF, Block(FieldLines(kept)), FieldLine(length) + CRLF,
            Block(FieldLines(closing)));
  }

  lemma Regroup(a: string, b: string, c: string, d: string)
    ensures a + (b + (c + d)) == a + b + c + d
  {}

  // ---------------------------------------------------------------- round trip

  lemma StatusLineParses(status: nat, reason: string)
    requires status <= RP.INT_MAX && CrlfFree(reason)
    ensures CrlfFree(StatusLineText(status, reason))
    ensures RP.ParseStatusLine(StatusLineText(status, reason)) == Some(RP.StatusLine(status, reason))
  {
    DigitsAreNotSpecial(Dec(status));
    DecRoundTrip(status);
    StatusLineCrlfFree(Dec(status), reason);
    VersionAndSpace(Dec(status), reason);
    StatusLineParts("HTTP/1.1", Dec(status), reason);
    LineOfParts(StatusLineText(status, reason), 8, Dec(status), reason);
  }

  lemma VersionAndSpace(code: string, reason: string)
    ensures "HTTP/1.1 " + code + " " + reason == "HTTP/1.1" + " " + code + " " + reason && Free("HTTP/1.1", ' ')
  {
    assert "HTTP/1.1 " == "HTTP/1.1" + " ";
  }

  lemma LineOfParts(line: string, n: nat, code: string, reason: string)
    requires Find(line, " ", 0) == n && Find(line, " ", n + 1) == n + 1 + |code| < |line|
    requires line[n + 1..n + 1 + |code|] == code && line[n + 2 + |code|..] == reason
    requires code != "" && AllDigits(code) && DecValue(code) <= RP.INT_MAX
    ensures RP.ParseStatusLine(line) == Some(RP.StatusLine(DecValue(code), reason))
  {}

  lemma StatusLineCrlfFree(code: string, reason: string)
    requires CrlfFree(code) && CrlfFree(reason)
    ensures CrlfFree("HTTP/1.1 " + code + " " + reason)
  {
    CrlfFreeIff("HTTP/1.1 ");
    CrlfFreeConcat("HTTP/1.1 ", code);
    CrlfFreeIff(" ");
    CrlfFreeConcat("HTTP/1.1 " + code, " ");
    CrlfFreeConcat("HTTP/1.1 " + code + " ", reason);
  }

  /** The two spaces that the parser looks for, when the code has none. */
  lemma StatusLineParts(version: string, code: string, reason: string)
    requires Free(version, ' ') && Free(code, ' ')
    ensures var line, n := version + " " + code + " " + reason, |version|;
            && Find(line, " ", 0) == n && Find(line, " ", n + 1) == n + 1 + |code|
            && line[n + 1..n + 1 + |code|] == code && line[n + 2 + |code|..] == reason
  {
    var line, n := version + " " + code + " " + reason, |version|;
    assert line == version + [' '] + (code + " " + reason);
    FindChar(version, ' ', code + " " + reason);
    FindSuffix(line, " ", n + 1);
    assert line[n + 1..] == code + [' '] + reason;
    FindChar(code, ' ', reason);
  }

  lemma ValidValueIsCrlfFree(value: string)
    requires ValidValue(value)
    ensures CrlfFree(value)
  {
    CrlfFreeIff(value);
  }

  lemma ValidNameIsNameOk(name: string)
    requires ValidName(name)
    ensures NameOk(name)
  {
    CrlfFreeIff(name);
    forall i | 0 <= i < |name| ensures name[i] != '\r' && name[i] != ':' && !IsSpace(name[i]) { TokenIsPlain(name[i]); }
  }

  lemma TokenIsPlain(c: char)
    requires IsTokenChar(c)
    ensures c != '\r' && c != ':' && !IsSpace(c)
  {}

  ghost predicate GoodFields(fs: Fields, length: Field) {
    && Distinct(fs) && (forall f :: f in fs ==> Printable(f))
    && OnlyField(fs, length, "content-length")
  }

  lemma ValidFieldPrintable(f: Field)
    requires ValidName(f.name) && ValidValue(f.value)
    ensures Printable(f)
  {
    ValidNameIsNameOk(f.name);
    ValidValueIsCrlfFree(f.value);
  }

  lemma LengthFieldPrintable(body: string)
    ensures Printable(LengthField(body)) && EqualsIgnoreCase(LengthField(body).name, "content-length")
  {
    LengthName();
    ValidNameIsNameOk(LengthField(body).name);
    DigitsAreNotSpecial(Dec(|body|));
  }

  lemma LengthName()
    ensures ValidName("Content-Length") && EqualsIgnoreCase("Content-Length", "content-length")
  {
    LengthNameValid();
    LengthNameMatches();
  }

  lemma LengthNameValid()
    ensures ValidName("Content-Length")
  {
    DashIsToken();
    forall i | 0 <= i < 14 ensures IsTokenChar("Content-Length"[i]) {}
  }

  lemma DashIsToken()
    ensures IsTokenChar('-')
  {
    assert "!#$%&'*+-.^_`|~"[8] == '-';
  }

  lemma LengthNameMatches()
    ensures EqualsIgnoreCase("Content-Length", "content-length")
  {}

  lemma ClosingPrintable(fs: Fields)
    ensures forall f :: f in Closing(fs) ==>
              Printable(f) && !EqualsIgnoreCase(f.name, "content-length") && f.name != "Content-Length"
    ensures forall f, g :: f in Closing(fs) && g in fs ==> f.name != g.name
  {
    assert ValidName("Connection") && ValidValue("close");
    ValidFieldPrintable(Field("Connection", "close"));
    ConnectionLookup(fs);
  }

  /** Fields without a Content-Length, then one, then others of different names. */
  lemma GoodAround(kept: Fields, length: Field, rest: Fields)
    requires Distinct(kept) && Distinct(rest) && Printable(length)
    requires forall f :: f in kept || f in rest ==> Printable(f) && !EqualsIgnoreCase(f.name, "content-length")
    requires EqualsIgnoreCase(length.name, "content-length")
    requires forall f, g :: f in rest && g in kept ==> f.name != g.name
    ensures GoodFields(kept + ([length] + rest), length)
  {
    var sent := kept + ([length] + rest);
    assert sent[|kept|] == length;
    assert forall f :: f in sent ==> f in kept || f == length || f in rest;
    forall i, j | 0 <= i < j < |sent| ensures sent[i].name != sent[j].name {
      if i < |kept| { assert sent[i] in kept; }
      if j < |kept| { assert sent[j] in kept; }
      if i > |kept| { assert sent[i] == rest[i - |kept| - 1]; }
      if j > |kept| { assert sent[j] == rest[j - |kept| - 1] && sent[j] in rest; }
    }
  }

  /** What is sent is printable, has distinct names and exactly one Content-Length. */
  lemma SentFieldsGood(m: Message)
    requires ValidMessage(m)
    ensures GoodFields(SentFields(m), LengthField(m.body))
  {
    var kept := WithoutContentLength(m.headers);
    UniqueKept(m.headers);
    LengthFieldPrintable(m.body);
    ClosingPrintable(m.headers);
    forall f | f in kept ensures Printable(f) && !EqualsIgnoreCase(f.name, "content-length") {
      ValidFieldPrintable(f);
      SameLength(f.name);
    }
    GoodAround(kept, LengthField(m.body), Closing(m.headers));
  }

  lemma SameLength(name: string)
    ensures EqualsIgnoreCase(name, "content-length") <==> EqualsIgnoreCase(name, "Content-Length")
  {}

  lemma {:induction false} UniqueStays(fs: Fields)
    requires UniqueNames(fs)
    ensures UniqueNames(WithoutContentLength(fs))
  {
    if fs != [] {
      UniqueStays(fs[1..]);
      var rest := WithoutContentLength(fs[1..]);
      forall i | 0 <= i < |rest| ensures !EqualsIgnoreCase(fs[0].name, rest[i].name) {
        assert rest[i] in fs[1..];
      }
    }
  }

  lemma UniqueKept(fs: Fields)
    requires UniqueNames(fs)
    ensures UniqueNames(WithoutContentLength(fs)) && Distinct(WithoutContentLength(fs))
  {
    UniqueStays(fs);
    UniqueIsDistinct(WithoutContentLength(fs));
  }

  lemma UniqueIsDistinct(fs: Fields)
    requires UniqueNames(fs)
    ensures Distinct(fs)
  {
    forall i, j | 0 <= i < j < |fs| ensures fs[i].name != fs[j].name {
      assert !EqualsIgnoreCase(fs[i].name, fs[j].name);
    }
  }

  lemma LengthParses(body: string)
    ensures Trim(LengthField(body).value) == LengthField(body).value
    ensures RP.BodyLength(Some(LengthField(body))) == if |body| <= MAX_BODY then Some(|body|) else None
  {
    DigitsAreNotSpecial(Dec(|body|));
    TrimIdempotent(Dec(|body|));
    DecRoundTrip(|body|);
  }

  lemma TrimKeepsOnly(fs: Fields, f: Field, name: string)
    requires OnlyField(fs, f, name)
    ensures OnlyField(TrimValues(fs), Field(f.name, Trim(f.value)), name)
  {
    var r := TrimValues(fs);
    var k :| 0 <= k < |fs| && fs[k] == f;
    assert r[k] == Field(f.name, Trim(f.value));
    assert r[k] in r;
    forall g | g in r && EqualsIgnoreCase(g.name, name) ensures g == r[k] {
      var i :| 0 <= i < |r| && r[i] == g;
      assert fs[i] in fs && r[i].name == fs[i].name;
      assert fs[i] == f;
    }
  }

  lemma FieldsParse(fs: Fields, body: string, order: Order)
    requires IsOrder(order) && GoodFields(fs, LengthField(body))
    ensures FoldFields(FieldLines(fs), []) == Some(TrimValues(fs))
    ensures RP.BodyLength(FindField(order(TrimValues(fs)), "content-length")) ==
            if |body| <= MAX_BODY then Some(|body|) else None
  {
    FieldLinesParse(fs, []);
    assert [] + TrimValues(fs) == TrimValues(fs);
    LengthParses(body);
    TrimKeepsOnly(fs, LengthField(body), "content-length");
    FindInAnyOrder(TrimValues(fs), order, LengthField(body), "content-length");
  }

  /** Printing and parsing any message with good fields and a matching Content-Length. */
  lemma WireRoundTrip(status: nat, reason: string, fs: Fields, body: string, order: Order)
    requires status <= RP.INT_MAX && CrlfFree(reason) && IsOrder(order)
    requires GoodFields(fs, LengthField(body))
    ensures var raw := Wire(StatusLineText(status, reason), fs, body);
            && Find(raw, BLANK_LINE, 0) + 4 + |body| == |raw|
            && RP.TryParse(raw, order) ==
               if |body| <= MAX_BODY then RP.Complete(RP.Response(status, Trim(reason), TrimValues(fs), body))
               else RP.Malformed
  {
    var start := StatusLineText(status, reason);
    var raw := Wire(start, fs, body);
    StatusLineParses(status, reason);
    WireSplits(start, fs, body);
    var e := Find(raw, BLANK_LINE, 0);
    var ls := [start] + FieldLines(fs);
    assert ls[0] == start && ls[1..] == FieldLines(fs);
    FieldsParse(fs, body, order);
    HeadThenBody(raw, e, status, reason, TrimValues(fs), body, order);
  }

  lemma HeadThenBody(raw: string, e: nat, status: nat, reason: string, fields: Fields, body: string, order: Order)
    requires Find(raw, BLANK_LINE, 0) == e && e + 4 + |body| == |raw| && raw[e + 4..] == body
    requires RP.ParseStatusLine(Lines(raw[..e])[0]) == Some(RP.StatusLine(status, reason))
    requires FoldFields(Lines(raw[..e])[1..], []) == Some(fields)
    requires RP.BodyLength(FindField(order(fields), "content-length")) ==
               if |body| <= MAX_BODY then Some(|body|) else None
    ensures RP.TryParse(raw, order) ==
            if |body| <= MAX_BODY then RP.Complete(RP.Response(status, Trim(reason), fields, body)) else RP.Malformed
  {
    HeadParses(raw[..e], status, reason, fields, body, order);
    BodyFollows(raw, e, status, reason, fields, body, order);
  }

  lemma BodyFollows(raw: string, e: nat, status: nat, reason: string, fields: Fields, body: string, order: Order)
    requires Find(raw, BLANK_LINE, 0) == e && e + 4 + |body| == |raw| && raw[e + 4..] == body
    requires RP.ParseHead(raw[..e], order) ==
             if |body| <= MAX_BODY then Some(RP.Head(RP.StatusLine(status, reason), fields, |body|)) else None
    ensures RP.TryParse(raw, order) ==
            if |body| <= MAX_BODY then RP.Complete(RP.Response(status, Trim(reason), fields, body)) else RP.Malformed
  {
    BodyBehindHead(raw, e + 4, RP.ParseHead(raw[..e], order), status, reason, fields, body);
  }

  lemma BodyBehindHead(raw: string, start: nat, head: Option<RP.Head>, status: nat, reason: string, fields: Fields,
                       body: string)
    requires start + |body| == |raw| && raw[start..] == body
    requires head == if |body| <= MAX_BODY then Some(RP.Head(RP.StatusLine(status, reason), fields, |body|)) else None
    ensures RP.WithHead(raw, start, head) ==
            if |body| <= MAX_BODY then RP.Complete(RP.Response(status, Trim(reason), fields, body)) else RP.Malformed
  {
    LastSlice(raw, start, |body|);
  }

  lemma LastSlice(s: string, from: nat, n: nat)
    requires from + n == |s|
    ensures s[from..from + n] == s[from..]
  {}

  lemma HeadParses(section: string, status: nat, reason: string, fields: Fields, body: string, order: Order)
    requires RP.ParseStatusLine(Lines(section)[0]) == Some(RP.StatusLine(status, reason))
    requires FoldFields(Lines(section)[1..], []) == Some(fields)
    requires RP.BodyLength(FindField(order(fields), "content-length")) ==
               if |body| <= MAX_BODY then Some(|body|) else None
    ensures RP.ParseHead(section, order) ==
            if |body| <= MAX_BODY then Some(RP.Head(RP.StatusLine(status, reason), fields, |body|)) else None
  {}

  /** Response round trip: what `toBytes` writes for a response built through the setters is read
      back with the same status and body, the trimmed reason and the trimmed values of the fields
      that were sent, exactly when the body is within the client's limit. */
  lemma ResponseRoundTrip(m: Message, order: Order)
    requires ValidMessage(m) && IsOrder(order)
    ensures RP.TryParse(Print(m), order) ==
            if |m.body| <= MAX_BODY then
              RP.Complete(RP.Response(m.status, Trim(m.reason), TrimValues(SentFields(m)), m.body))
            else RP.Malformed
    ensures Find(Print(m), BLANK_LINE, 0) + 4 + |m.body| == |Print(m)|
  {
    SentFieldsGood(m);
    ValidValueIsCrlfFree(m.reason);
    WireRoundTrip(m.status, m.reason, SentFields(m), m.body, order);
  }

  /** Such a response is received in full, whatever the reads, exactly when its header section is at
      most one byte over the client's limit and the whole within the client's limit. */
  lemma ResponseReceivedInPieces(m: Message, order: Order)
    requires ValidMessage(m) && IsOrder(order) && |m.body| <= MAX_BODY
    ensures RP.AlwaysReceived(Print(m), RP.Response(m.status, Trim(m.reason), TrimValues(SentFields(m)), m.body), order)
            <==> |Print(m)| - |m.body| <= MAX_HEADER_SECTION + 1 && |Print(m)| <= RP.MAX_RESPONSE
  {
    ResponseRoundTrip(m, order);
    RP.ReceiveChunkIndependence(Print(m),
      RP.Response(m.status, Trim(m.reason), TrimValues(SentFields(m)), m.body), order);
  }
}
