/** Which byte strings the client takes for a complete response, and how it judges the others, told from
    the bytes themselves. */
module ResponseGrammar {
  import opened Wrappers
  import opened Text
  import opened Characters
  import opened Http
  import opened FieldGrammar
  import opened ResponseParser

  // ---------------------------------------------------------------- the status line

  /** A version, a blank and a code; then perhaps another blank and a reason. */
  ghost predicate LineParts(line: string, version: string, code: string, reason: string) {
    && Free(version, ' ') && Free(code, ' ')
    && ((line == version + [' '] + code && reason == "") || line == version + [' '] + (code + [' '] + reason))
  }

  /** The code is a decimal number that fits into an `int`. */
  predicate GoodCode(code: string) {
    code != "" && Number(code) && DecValue(code) <= 2147483647
  }

  ghost predicate StatusLineOf(line: string, code: string, reason: string) {
    GoodCode(code) && exists version :: LineParts(line, version, code, reason)
  }

  ghost predicate GoodStatusLine(line: string) {
    exists code, reason :: StatusLineOf(line, code, reason)
  }

  lemma CodeIff(code: string)
    ensures GoodCode(code) <==> code != "" && AllDigits(code) && DecValue(code) <= INT_MAX
  {
    AllDigitsIff(code);
  }

  /** The parts are what the spaces at `sp1` and, if there is one, `sp2` cut out. */
  ghost predicate CutOut(line: string, sp1: int, sp2: int, code: string, reason: string) {
    && 0 <= sp1 < |line|
    && if sp2 < 0 then line[sp1 + 1..] == code && reason == ""
       else sp1 < sp2 < |line| && line[sp1 + 1..sp2] == code && line[sp2 + 1..] == reason
  }

  lemma PartsFound(line: string, version: string, code: string, reason: string)
    requires LineParts(line, version, code, reason)
    ensures var sp1 := Find(line, " ", 0); sp1 == |version| && CutOut(line, sp1, Find(line, " ", sp1 + 1), code, reason)
  {
    if line == version + [' '] + code && reason == "" {
      NoReason(line, version, code);
    } else {
      WithReason(line, version, code, reason);
    }
  }

  lemma PartsParsed(line: string, sp1: nat, code: string, reason: string)
    requires Find(line, " ", 0) == sp1 && CutOut(line, sp1, Find(line, " ", sp1 + 1), code, reason) && GoodCode(code)
    ensures ParseStatusLine(line) == Some(StatusLine(DecValue(code), reason))
  {
    CodeIff(code);
  }

  lemma NoReason(line: string, version: string, code: string)
    requires line == version + [' '] + code && Free(version, ' ') && Free(code, ' ')
    ensures Find(line, " ", 0) == |version| && Find(line, " ", |version| + 1) == -1 && line[|version| + 1..] == code
  {
    Cut(line, version, ' ', code);
    FindSuffix(line, " ", |version| + 1);
    FindNoChar(code, ' ', 0);
  }

  lemma WithReason(line: string, version: string, code: string, reason: string)
    requires line == version + [' '] + (code + [' '] + reason) && Free(version, ' ') && Free(code, ' ')
    ensures var sp1 := Find(line, " ", 0); sp1 == |version| && CutOut(line, sp1, Find(line, " ", sp1 + 1), code, reason)
  {
    Cut(line, version, ' ', code + [' '] + reason);
    CodeAndReason(line, |version|, line[|version| + 1..], code, reason);
  }

  lemma CodeAndReason(line: string, sp1: nat, rest: string, code: string, reason: string)
    requires sp1 < |line| && rest == line[sp1 + 1..] == code + [' '] + reason && Free(code, ' ')
    ensures CutOut(line, sp1, Find(line, " ", sp1 + 1), code, reason) && Find(line, " ", sp1 + 1) > sp1
  {
    Cut(rest, code, ' ', reason);
    FindSuffix(line, " ", sp1 + 1);
    Slices(line, sp1 + 1, |code|);
  }

  lemma Slices(s: string, i: nat, n: nat)
    requires i + n < |s|
    ensures s[i..][..n] == s[i..i + n] && s[i..][n + 1..] == s[i + n + 1..]
  {}

  lemma FoundParts(line: string) returns (version: string, code: string)
    requires ParseStatusLine(line).Some?
    ensures var l := ParseStatusLine(line).value;
            LineParts(line, version, code, l.reason) && GoodCode(code) && l.status == DecValue(code)
  {
    var sp1 := Find(line, " ", 0);
    var sp2 := Find(line, " ", sp1 + 1);
    version := line[..sp1];
    code := if sp2 < 0 then line[sp1 + 1..] else line[sp1 + 1..sp2];
    if sp2 < 0 { FoundShort(line, sp1); } else { FoundLong(line, sp1, sp2); }
    CodeIff(code);
  }

  lemma FoundShort(line: string, sp1: nat)
    requires Find(line, " ", 0) == sp1 < |line| && Find(line, " ", sp1 + 1) < 0
    ensures LineParts(line, line[..sp1], line[sp1 + 1..], "")
  {
    Uncut(line, ' ');
    FindSuffix(line, " ", sp1 + 1);
    NotFoundFree(line[sp1 + 1..], ' ');
  }

  lemma FoundLong(line: string, sp1: nat, sp2: nat)
    requires Find(line, " ", 0) == sp1 < |line| && Find(line, " ", sp1 + 1) == sp2
    ensures sp1 < sp2 < |line| && LineParts(line, line[..sp1], line[sp1 + 1..sp2], line[sp2 + 1..])
  {
    Uncut(line, ' ');
    BeforeFirst(line, ' ', sp1 + 1);
    RestHalves(line, sp1 + 1, sp2);
  }

  lemma StatusLineIff(line: string)
    ensures ParseStatusLine(line).Some? <==> GoodStatusLine(line)
    ensures ParseStatusLine(line).Some? ==>
              var l := ParseStatusLine(line).value;
              forall code, reason :: StatusLineOf(line, code, reason) ==> l == StatusLine(DecValue(code), reason)
  {
    forall code, reason | StatusLineOf(line, code, reason)
      ensures ParseStatusLine(line) == Some(StatusLine(DecValue(code), reason))
    {
      var version :| LineParts(line, version, code, reason);
      PartsFound(line, version, code, reason);
      PartsParsed(line, |version|, code, reason);
    }
    if ParseStatusLine(line).Some? {
      var version, code := FoundParts(line);
      assert StatusLineOf(line, code, ParseStatusLine(line).value.reason);
    }
  }

  // ---------------------------------------------------------------- every answer

  /** The length is not a decimal number, or more than ten megabytes. */
  predicate BadLength(v: Option<string>) {
    v.Some? && (v.value == "" || !Number(v.value) || DecValue(v.value) > 10485760)
  }

  function LengthOf(v: Option<string>): nat
    requires !BadLength(v)
  {
    match v
    case None => 0
    case Some(value) => DecValue(value)
  }

  /** The response is what the lines and `n` bytes behind them say. */
  ghost predicate Described(ls: seq<string>, body: string, r: Response)
    requires ls != []
  {
    && r.body == body && FieldsAre(ls[1..], r.fields)
    && exists code, reason ::
         StatusLineOf(ls[0], code, reason) && r.status == DecValue(code) && Strips(reason, r.reason)
  }

  /** The judgement on bytes whose header section ends at `e`, where `v` is the value that decides the length. */
  ghost predicate Judged(raw: string, e: nat, v: Option<string>, o: Outcome)
    requires e + 4 <= |raw|
  {
    var ls := Lines(raw[..e]);
    if !GoodStatusLine(ls[0]) || !NoneMalformed(ls[1..]) then o == Malformed
    else LengthValue(ls[1..], v) && LengthJudged(raw, e + 4, ls, v, o)
  }

  ghost predicate LengthJudged(raw: string, bodyStart: nat, ls: seq<string>, v: Option<string>, o: Outcome)
    requires bodyStart <= |raw| && ls != []
  {
    if BadLength(v) then o == Malformed
    else if |raw| < bodyStart + LengthOf(v) then o == Incomplete
    else o.Complete? && Described(ls, raw[bodyStart..bodyStart + LengthOf(v)], o.response)
  }

  ghost predicate HeadJudged(ls: seq<string>, v: Option<string>, h: Option<Head>)
    requires ls != []
  {
    if !GoodStatusLine(ls[0]) || !NoneMalformed(ls[1..]) then h == None
    else LengthValue(ls[1..], v) &&
         if BadLength(v) then h == None
         else h.Some? && h.value.length == LengthOf(v) && HeadSays(ls, h.value)
  }

  ghost predicate HeadSays(ls: seq<string>, h: Head)
    requires ls != []
  {
    && FieldsAre(ls[1..], h.fields)
    && exists code, reason :: StatusLineOf(ls[0], code, reason) && h.line == StatusLine(DecValue(code), reason)
  }

  lemma LengthIff(f: Option<Field>)
    ensures BodyLength(f) == if BadLength(ValueOf(f)) then None else Some(LengthOf(ValueOf(f)))
  {
    if f.Some? { AllDigitsIff(f.value.value); }
  }

  lemma HeadDecides(section: string, order: Order) returns (v: Option<string>)
    requires IsOrder(order)
    ensures HeadJudged(Lines(section), v, ParseHead(section, order))
  {
    var ls := Lines(section);
    v := None;
    StatusLineIff(ls[0]);
    FoldAccepts(ls[1..], []);
    if GoodStatusLine(ls[0]) && NoneMalformed(ls[1..]) {
      var fields := FoldFields(ls[1..], []).value;
      var f := FindField(order(fields), "content-length");
      v := ValueOf(f);
      LengthFound(ls[1..], fields, order);
      LengthIff(f);
      HeadSaid(ls, fields, ParseStatusLine(ls[0]).value);
    }
  }

  lemma HeadSaid(ls: seq<string>, fields: Fields, line: StatusLine)
    requires ls != [] && FoldFields(ls[1..], []) == Some(fields)
    requires GoodStatusLine(ls[0]) && ParseStatusLine(ls[0]) == Some(line)
    ensures forall n :: HeadSays(ls, Head(line, fields, n))
  {
    FieldsFolded(ls[1..], fields);
    StatusLineIff(ls[0]);
    var code, reason :| StatusLineOf(ls[0], code, reason);
  }

  lemma SaidIsDescribed(ls: seq<string>, h: Head, body: string)
    requires ls != [] && HeadSays(ls, h)
    ensures Described(ls, body, Response(h.line.status, Trim(h.line.reason), h.fields, body))
  {
    var code, reason :| StatusLineOf(ls[0], code, reason) && h.line == StatusLine(DecValue(code), reason);
    TrimIff(reason, Trim(reason));
  }

  lemma Carried(raw: string, e: nat, v: Option<string>, h: Option<Head>)
    requires e + 4 <= |raw| && HeadJudged(Lines(raw[..e]), v, h)
    ensures Judged(raw, e, v, WithHead(raw, e + 4, h))
  {
    if h.Some? && |raw| >= e + 4 + h.value.length {
      SaidIsDescribed(Lines(raw[..e]), h.value, raw[e + 4..e + 4 + h.value.length]);
    }
  }

  /** Every judgement of the client's parser, exactly when it gives it, and what a complete response is. */
  lemma EveryJudgement(raw: string, order: Order) returns (v: Option<string>)
    requires IsOrder(order)
    ensures var e := Find(raw, "\r\n\r\n", 0);
            if e < 0 then TryParse(raw, order) == if |raw| > 32768 then Malformed else Incomplete
            else Judged(raw, e, v, TryParse(raw, order))
  {
    var e := Find(raw, BLANK_LINE, 0);
    v := None;
    HeadFound(raw, order);
    if e >= 0 {
      v := HeadDecides(raw[..e], order);
      Carried(raw, e, v, ParseHead(raw[..e], order));
    }
  }
}
