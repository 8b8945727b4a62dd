/** Message syntax shared by the request parser, the response parser and the three printers:
    a start line, header fields, a blank line, a body. */
module Http {
  import opened Wrappers
  import opened Text

  datatype Method = GET | POST | PUT | DELETE | PATCH | HEAD | OPTIONS

  function MethodToString(m: Method): string {
    match m
    case GET => "GET"
    case POST => "POST"
    case PUT => "PUT"
    case DELETE => "DELETE"
    case PATCH => "PATCH"
    case HEAD => "HEAD"
    case OPTIONS => "OPTIONS"
  }

  function MethodFromString(s: string): Option<Method> {
    if s == "GET" then Some(GET)
    else if s == "POST" then Some(POST)
    else if s == "PUT" then Some(PUT)
    else if s == "DELETE" then Some(DELETE)
    else if s == "PATCH" then Some(PATCH)
    else if s == "HEAD" then Some(HEAD)
    else if s == "OPTIONS" then Some(OPTIONS)
    else None
  }

  const MAX_HEADER_SECTION := 32 * 1024
  const MAX_BODY := 10 * 1024 * 1024
  const ULONG_LIMIT := 0x1_0000_0000_0000_0000

  // ---------------------------------------------------------------- fields

  datatype Field = Field(name: string, value: string)

  /** The fields of a header map, with the order in which they were inserted.  Iterating over the
      map visits them in some other order, which the parsers take as a parameter. */
  type Fields = seq<Field>

  type Order = Fields -> Fields

  ghost predicate IsOrder(order: Order) {
    forall fs :: multiset(order(fs)) == multiset(fs)
  }

  ghost predicate Distinct(fs: Fields) {
    forall i, j :: 0 <= i < j < |fs| ==> fs[i].name != fs[j].name
  }

  predicate HasName(fs: Fields, name: string) {
    exists f :: f in fs && f.name == name
  }

  /** `unordered_map::emplace`: an existing entry stays. */
  function AddField(fs: Fields, f: Field): Fields {
    if HasName(fs, f.name) then fs else fs + [f]
  }

  /** A header line, or None if it has no colon or an empty name. */
  function ParseFieldLine(line: string): Option<Field> {
    var colon := Find(line, ":", 0);
    if colon < 0 || colon >= |line| then None
    else
      var key := Trim(line[..colon]);
      if key == "" then None else Some(Field(key, Trim(line[colon + 1..])))
  }

  /** One more header line; an empty one is skipped, a malformed one spoils them all. */
  function AddLine(acc: Fields, line: string): Option<Fields> {
    if line == "" then Some(acc)
    else
      match ParseFieldLine(line)
      case None => None
      case Some(f) => Some(AddField(acc, f))
  }

  function FoldFields(ls: seq<string>, acc: Fields): Option<Fields> {
    if ls == [] then Some(acc)
    else
      match AddLine(acc, ls[0])
      case None => None
      case Some(more) => FoldFields(ls[1..], more)
  }

  /** The first field of that name, ignoring case. */
  function FindField(fs: Fields, name: string): Option<Field> {
    if fs == [] then None
    else if EqualsIgnoreCase(fs[0].name, name) then Some(fs[0])
    else FindField(fs[1..], name)
  }

  /** `findHeader`: the value of that field, or an empty view. */
  function FindHeader(fs: Fields, name: string): string {
    match FindField(fs, name)
    case None => ""
    case Some(f) => f.value
  }

  /** What a parsed name or a parsed value looks like. */
  ghost predicate NameOk(name: string) {
    name != "" && Trimmed(name) && CrlfFree(name) && Free(name, ':')
  }

  ghost predicate FieldOk(f: Field) {
    NameOk(f.name) && Trimmed(f.value) && CrlfFree(f.value)
  }

  ghost predicate FieldsOk(fs: Fields) {
    Distinct(fs) && forall f :: f in fs ==> FieldOk(f)
  }

  lemma ParsedFieldOk(line: string)
    requires CrlfFree(line) && ParseFieldLine(line).Some?
    ensures FieldOk(ParseFieldLine(line).value)
  {
    ParsedNameOk(line);
    ParsedValueOk(line);
  }

  lemma ParsedNameOk(line: string)
    requires CrlfFree(line) && Find(line, ":", 0) >= 0 && Trim(line[..Find(line, ":", 0)]) != ""
    ensures NameOk(Trim(line[..Find(line, ":", 0)]))
  {
    var colon := Find(line, ":", 0);
    CrlfFreeSlice(line, 0, colon);
    BeforeFirst(line, ':', 0);
    assert line[0..colon] == line[..colon];
    TrimKeeps(line[..colon], ':');
  }

  lemma ParsedValueOk(line: string)
    requires CrlfFree(line) && 0 <= Find(line, ":", 0) < |line|
    ensures var value := Trim(line[Find(line, ":", 0) + 1..]); Trimmed(value) && CrlfFree(value)
  {
    var colon := Find(line, ":", 0);
    CrlfFreeSlice(line, colon + 1, |line|);
    assert line[colon + 1..|line|] == line[colon + 1..];
    TrimKeeps(line[colon + 1..], ':');
  }

  lemma TrimKeeps(s: string, c: char)
    requires CrlfFree(s)
    ensures Trimmed(Trim(s)) && CrlfFree(Trim(s)) && (Free(s, c) ==> Free(Trim(s), c))
  {
    TrimIsTrimmed(s);
    var i, j := TrimSlice(s);
    CrlfFreeSlice(s, i, j);
  }

  lemma {:induction false} FoldedFieldsOk(ls: seq<string>, acc: Fields)
    requires FieldsOk(acc) && (forall l :: l in ls ==> CrlfFree(l))
    requires FoldFields(ls, acc).Some?
    ensures FieldsOk(FoldFields(ls, acc).value)
  {
    if ls != [] {
      assert ls[0] in ls;
      if ls[0] == "" {
        FoldedFieldsOk(ls[1..], acc);
      } else {
        ParsedFieldOk(ls[0]);
        FoldedFieldsOk(ls[1..], AddField(acc, ParseFieldLine(ls[0]).value));
      }
    }
  }

  // ---------------------------------------------------------------- the loop over the lines

  /** The loop over the header lines from `start` on, the same in both parsers; the last line
      ends it. */
  method HeaderLines(section: string, start: nat) returns (r: Option<Fields>)
    requires start <= |section|
    ensures r == Remaining(section, start, [])
  {
    var fields: Fields := [];
    var lineStart := start;
    while lineStart < |section|
      invariant start <= lineStart <= |section|
      invariant Remaining(section, start, []) == Remaining(section, lineStart, fields)
    {
      RemainingStep(section, lineStart, fields);
      var more := AddLine(fields, LineFrom(section, lineStart));
      if more.None? {
        return None;
      }
      fields, lineStart := more.value, NextLine(section, lineStart);
    }
    NothingLeft(section, fields);
    return Some(fields);
  }

  function LineFrom(section: string, start: nat): string
    requires start <= |section|
  {
    var lineEnd := Find(section, CRLF, start);
    if lineEnd < 0 then section[start..] else section[start..lineEnd]
  }

  function NextLine(section: string, start: nat): (r: nat)
    requires start <= |section|
    ensures start <= r <= |section| && (start < |section| ==> start < r)
  {
    var lineEnd := Find(section, CRLF, start);
    if lineEnd < 0 then |section| else lineEnd + 2
  }

  /** What the header lines from `start` on add to `acc`. */
  function Remaining(section: string, start: nat, acc: Fields): Option<Fields>
    requires start <= |section|
  {
    FoldFields(Lines(section[start..]), acc)
  }

  lemma NothingLeft(section: string, acc: Fields)
    ensures Remaining(section, |section|, acc) == Some(acc)
  {
    assert section[|section|..] == "";
    assert Lines("") == [""] && [""][1..] == [];
    assert AddLine(acc, "") == Some(acc);
    assert FoldFields([""], acc) == Some(acc);
  }

  lemma FirstLine(section: string)
    ensures Lines(section)[0] == LineFrom(section, 0)
    ensures forall acc :: FoldFields(Lines(section)[1..], acc) == Remaining(section, NextLine(section, 0), acc)
  {
    if Find(section, CRLF, 0) < 0 {
      forall acc ensures FoldFields(Lines(section)[1..], acc) == Remaining(section, NextLine(section, 0), acc) {
        NothingLeft(section, acc);
        assert Lines(section)[1..] == [];
      }
    } else {
      assert Lines(section)[1..] == Lines(section[NextLine(section, 0)..]);
    }
  }

  lemma LineShift(section: string, start: nat)
    requires start <= |section|
    ensures LineFrom(section[start..], 0) == LineFrom(section, start)
    ensures section[start..][NextLine(section[start..], 0)..] == section[NextLine(section, start)..]
  {
    FindSuffix(section, CRLF, start);
    var p := Find(section[start..], CRLF, 0);
    if p >= 0 {
      assert section[start..][..p] == section[start..start + p];
    }
  }

  /** One round of the loop. */
  lemma RemainingStep(section: string, start: nat, acc: Fields)
    requires start <= |section|
    ensures Remaining(section, start, acc) ==
            match AddLine(acc, LineFrom(section, start))
            case None => None
            case Some(more) => Remaining(section, NextLine(section, start), more)
  {
    var rest := section[start..];
    LineShift(section, start);
    FirstLine(rest);
    var more := AddLine(acc, Lines(rest)[0]);
    if more.Some? {
      assert FoldFields(Lines(rest)[1..], more.value) == Remaining(rest, NextLine(rest, 0), more.value);
    }
  }

  // ---------------------------------------------------------------- one field by name

  /** Exactly one field answers to `name`. */
  ghost predicate OnlyField(fs: Fields, f: Field, name: string) {
    f in fs && EqualsIgnoreCase(f.name, name) &&
    forall g :: g in fs && EqualsIgnoreCase(g.name, name) ==> g == f
  }

  ghost predicate NoField(fs: Fields, name: string) {
    forall g :: g in fs ==> !EqualsIgnoreCase(g.name, name)
  }

  lemma {:induction false} FindOnly(fs: Fields, f: Field, name: string)
    requires OnlyField(fs, f, name)
    ensures FindField(fs, name) == Some(f)
  {
    if EqualsIgnoreCase(fs[0].name, name) {
      assert fs[0] in fs;
    } else {
      assert f in fs[1..];
      FindOnly(fs[1..], f, name);
    }
  }

  lemma {:induction false} FindNone(fs: Fields, name: string)
    requires NoField(fs, name)
    ensures FindField(fs, name) == None
  {
    if fs != [] {
      assert fs[0] in fs;
      FindNone(fs[1..], name);
    }
  }

  lemma SameMembers(fs: Fields, gs: Fields)
    requires multiset(fs) == multiset(gs)
    ensures forall f :: f in fs <==> f in gs
  {
    forall f ensures f in fs <==> f in gs {
      assert f in multiset(fs) <==> f in multiset(gs);
    }
  }

  /** A name that occurs once, ignoring case, is found in every iteration order. */
  lemma FindInAnyOrder(fs: Fields, order: Order, f: Field, name: string)
    requires IsOrder(order) && OnlyField(fs, f, name)
    ensures FindField(order(fs), name) == Some(f)
  {
    SameMembers(order(fs), fs);
    FindOnly(order(fs), f, name);
  }

  lemma FindNoneInAnyOrder(fs: Fields, order: Order, name: string)
    requires IsOrder(order) && NoField(fs, name)
    ensures FindField(order(fs), name) == None
  {
    SameMembers(order(fs), fs);
    FindNone(order(fs), name);
  }

  // ---------------------------------------------------------------- permutations

  lemma {:induction false} OnceIfDistinct(fs: Fields, f: Field)
    requires Distinct(fs)
    ensures multiset(fs)[f] <= 1
  {
    if fs != [] {
      assert fs == [fs[0]] + fs[1..];
      OnceIfDistinct(fs[1..], f);
      forall g | g in fs[1..] ensures g.name != fs[0].name {
        var k :| 0 <= k < |fs[1..]| && fs[1..][k] == g;
        assert fs[k + 1] == g;
      }
    }
  }

  lemma SameNameSameField(fs: Fields, f: Field, g: Field)
    requires Distinct(fs) && f in fs && g in fs && f.name == g.name
    ensures f == g
  {}

  /** Distinct names stay distinct in every order. */
  lemma DistinctInAnyOrder(fs: Fields, gs: Fields)
    requires Distinct(fs) && multiset(gs) == multiset(fs)
    ensures Distinct(gs)
  {
    SameMembers(gs, fs);
    forall i, j | 0 <= i < j < |gs| ensures gs[i].name != gs[j].name {
      assert gs == gs[..j] + gs[j..];
      assert gs[i] in gs[..j] && gs[j] in gs[j..];
      OnceIfDistinct(fs, gs[j]);
      assert gs[i] != gs[j];
      assert gs[i] in fs && gs[j] in fs;
      if gs[i].name == gs[j].name { SameNameSameField(fs, gs[i], gs[j]); }
    }
  }

  lemma FieldsOkInAnyOrder(fs: Fields, gs: Fields)
    requires FieldsOk(fs) && multiset(gs) == multiset(fs)
    ensures FieldsOk(gs)
  {
    DistinctInAnyOrder(fs, gs);
    SameMembers(gs, fs);
  }

  lemma {:induction false} TrimValuesIdentity(fs: Fields)
    requires forall f :: f in fs ==> FieldOk(f)
    ensures TrimValues(fs) == fs
  {
    if fs != [] {
      assert fs[0] in fs;
      TrimIdempotent(fs[0].value);
      TrimValuesIdentity(fs[1..]);
    }
  }

  // ---------------------------------------------------------------- printing

  function FieldLine(f: Field): string {
    f.name + ": " + f.value
  }

  function FieldLines(fs: Fields): (ls: seq<string>)
    ensures |ls| == |fs|
  {
    if fs == [] then [] else [FieldLine(fs[0])] + FieldLines(fs[1..])
  }

  function Wire(start: string, fs: Fields, body: string): string {
    Block([start] + FieldLines(fs)) + CRLF + body
  }

  /** A field that survives printing: the value may have whitespace around it. */
  ghost predicate Printable(f: Field) {
    NameOk(f.name) && CrlfFree(f.value)
  }

  function TrimValues(fs: Fields): (r: Fields)
    ensures |r| == |fs|
    ensures forall i :: 0 <= i < |fs| ==> r[i] == Field(fs[i].name, Trim(fs[i].value))
  {
    if fs == [] then [] else [Field(fs[0].name, Trim(fs[0].value))] + TrimValues(fs[1..])
  }

  lemma FieldLineParses(f: Field)
    requires Printable(f)
    ensures FieldLine(f) != "" && CrlfFree(FieldLine(f))
    ensures ParseFieldLine(FieldLine(f)) == Some(Field(f.name, Trim(f.value)))
  {
    var line := FieldLine(f);
    CrlfFreeIff(": ");
    CrlfFreeConcat(f.name, ": ");
    CrlfFreeConcat(f.name + ": ", f.value);
    assert line == f.name + [':'] + (" " + f.value);
    FindChar(f.name, ':', " " + f.value);
    assert line[..|f.name|] == f.name;
    assert line[|f.name| + 1..] == " " + f.value;
    TrimIdempotent(f.name);
    TrimOfPadded(f.value);
  }

  lemma {:induction false} FieldLinesGood(fs: Fields)
    requires forall f :: f in fs ==> Printable(f)
    ensures forall l :: l in FieldLines(fs) ==> l != "" && CrlfFree(l)
  {
    if fs != [] {
      assert fs[0] in fs;
      FieldLineParses(fs[0]);
      FieldLinesGood(fs[1..]);
    }
  }

  /** Printed fields are read back with trimmed values, in the order they were printed. */
  lemma {:induction false} FieldLinesParse(fs: Fields, acc: Fields)
    requires Distinct(fs) && forall f :: f in fs ==> Printable(f)
    requires forall f :: f in fs ==> !HasName(acc, f.name)
    ensures FoldFields(FieldLines(fs), acc) == Some(acc + TrimValues(fs))
  {
    if fs == [] {
      assert acc + TrimValues(fs) == acc;
    } else {
      var f := Field(fs[0].name, Trim(fs[0].value));
      FirstFieldParses(fs, acc, f);
      FreshTail(fs, acc, f);
      FieldLinesParse(fs[1..], acc + [f]);
      TrimStep(fs, acc, f);
    }
  }

  lemma TrimStep(fs: Fields, acc: Fields, f: Field)
    requires fs != [] && f == Field(fs[0].name, Trim(fs[0].value))
    ensures acc + [f] + TrimValues(fs[1..]) == acc + TrimValues(fs)
  {}

  lemma FirstFieldParses(fs: Fields, acc: Fields, f: Field)
    requires fs != [] && Printable(fs[0]) && !HasName(acc, fs[0].name)
    requires f == Field(fs[0].name, Trim(fs[0].value))
    ensures FoldFields(FieldLines(fs), acc) == FoldFields(FieldLines(fs[1..]), acc + [f])
  {
    FieldLineParses(fs[0]);
    assert FieldLines(fs)[1..] == FieldLines(fs[1..]);
  }

  lemma FreshTail(fs: Fields, acc: Fields, f: Field)
    requires fs != [] && Distinct(fs) && f.name == fs[0].name
    requires forall g :: g in fs ==> !HasName(acc, g.name)
    ensures Distinct(fs[1..]) && forall g :: g in fs[1..] ==> g in fs && !HasName(acc + [f], g.name)
  {
    forall g | g in fs[1..] ensures g in fs && !HasName(acc + [f], g.name) {
      var k :| 0 <= k < |fs[1..]| && fs[1..][k] == g;
      assert fs[k + 1] == g && g in fs;
      forall h | h in acc + [f] ensures h.name != g.name { assert h in acc || h == f; }
    }
  }

  /** The end of the header section, the lines before it and the body behind it can be told apart
      in everything that is printed. */
  lemma WireSplits(start: string, fs: Fields, body: string)
    requires start != "" && CrlfFree(start) && forall f :: f in fs ==> Printable(f)
    ensures var w := Wire(start, fs, body); var e := Find(w, BLANK_LINE, 0);
            && 0 <= e && e + 4 == |w| - |body| && w[e + 4..] == body
            && Lines(w[..e]) == [start] + FieldLines(fs)
  {
    var ls := [start] + FieldLines(fs);
    FieldLinesGood(fs);
    assert forall l :: l in ls ==> l == start || l in FieldLines(fs);
    TerminatorOfBlock(ls, body);
    LinesOfBlock(ls);
    CutWire(Block(ls), body);
  }

  lemma CutWire(block: string, body: string)
    requires |block| >= 2
    ensures var w, e := block + CRLF + body, |block| - 2; w[..e] == block[..e] && w[e + 4..] == body
  {}
}
