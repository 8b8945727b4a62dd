/** `appendJsonEscaped` of JsonEscape.cpp against a decoder for JSON string bodies
    (section 7 of RFC 8259). */
module JsonEscape {
  import opened Wrappers
  import opened Utf8

  const QUOTE: Byte := 0x22
  const BACKSLASH: Byte := 0x5C

  function HexDigit(d: nat): Byte
    requires d < 16
  {
    if d < 10 then 0x30 + d else 0x61 + (d - 10)
  }

  function UnicodeEscape(unit: nat): seq<Byte>
    requires unit < 0x10000
  {
    [BACKSLASH, 0x75, HexDigit(unit / 0x1000 % 16), HexDigit(unit / 0x100 % 16),
     HexDigit(unit / 0x10 % 16), HexDigit(unit % 16)]
  }

  /** What is written for a byte below 0x80. */
  function EscapeAscii(b: Byte): seq<Byte>
    requires b < 0x80
  {
    if b == QUOTE then [BACKSLASH, QUOTE]
    else if b == BACKSLASH then [BACKSLASH, BACKSLASH]
    else if b == 0x0A then [BACKSLASH, 0x6E]
    else if b == 0x0D then [BACKSLASH, 0x72]
    else if b == 0x09 then [BACKSLASH, 0x74]
    else if b == 0x08 then [BACKSLASH, 0x62]
    else if b == 0x0C then [BACKSLASH, 0x66]
    else if b < 0x20 || b == 0x7F then UnicodeEscape(b)
    else [b]
  }

  /** The escaped form of a whole byte string. */
  function Escape(s: seq<Byte>): seq<Byte> {
    if s == [] then []
    else if s[0] < 0x80 then EscapeAscii(s[0]) + Escape(s[1..])
    else
      var n := SequenceLength(s, 0);
      if n == 0 || n > |s| then UnicodeEscape(0xFFFD) + Escape(s[1..])
      else s[..n] + Escape(s[n..])
  }

  /** The loop of the source: appends to `out`, skipping over whole multi-byte sequences. */
  method AppendJsonEscaped(out: seq<Byte>, input: seq<Byte>) returns (r: seq<Byte>)
    ensures r == out + Escape(input)
  {
    r := out;
    var i := 0;
    while i < |input|
      invariant 0 <= i <= |input|
      invariant r + Escape(input[i..]) == out + Escape(input)
    {
      var byte := input[i];
      ghost var rest := input[i..];
      ghost var before := r;
      assert rest[0] == byte && rest[1..] == input[i + 1..];
      if byte < 0x80 {
        r := r + EscapeAscii(byte);
        i := i + 1;
        Regroup(before, EscapeAscii(byte), Escape(input[i..]));
      } else {
        var length := SequenceLength(input, i);
        SequenceLengthLocal(input, i);
        if length == 0 {
          r := r + UnicodeEscape(0xFFFD);
          i := i + 1;
          Regroup(before, UnicodeEscape(0xFFFD), Escape(input[i..]));
        } else {
          RecognisedIsEncoded(input, i);
          assert rest[length..] == input[i + length..] && rest[..length] == input[i..i + length];
          r := r + input[i..i + length];
          i := i + length;
          Regroup(before, rest[..length], Escape(input[i..]));
        }
      }
    }
  }

  lemma Regroup(a: seq<Byte>, b: seq<Byte>, c: seq<Byte>)
    ensures a + (b + c) == a + b + c
  {}

  // ------------------------------------------------- section 7 of RFC 8259

  function HexValue(b: Byte): (r: Option<nat>)
    ensures r.Some? ==> r.value < 16
  {
    if 0x30 <= b <= 0x39 then Some(b - 0x30)
    else if 0x61 <= b <= 0x66 then Some(b - 0x61 + 10)
    else if 0x41 <= b <= 0x46 then Some(b - 0x41 + 10)
    else None
  }

  /** The code unit of a \uXXXX escape at the start of `s`. */
  function CodeUnit(s: seq<Byte>): (r: Option<nat>)
    ensures r.Some? ==> r.value < 0x10000
  {
    if |s| < 6 || s[0] != BACKSLASH || s[1] != 0x75 then None
    else
      match (HexValue(s[2]), HexValue(s[3]), HexValue(s[4]), HexValue(s[5]))
      case (Some(a), Some(b), Some(c), Some(d)) => Some(((a * 16 + b) * 16 + c) * 16 + d)
      case _ => None
  }

  function SimpleEscape(b: Byte): Option<Byte> {
    if b == QUOTE || b == BACKSLASH || b == 0x2F then Some(b)
    else if b == 0x62 then Some(0x08)
    else if b == 0x66 then Some(0x0C)
    else if b == 0x6E then Some(0x0A)
    else if b == 0x72 then Some(0x0D)
    else if b == 0x74 then Some(0x09)
    else None
  }

  /** One decoded unit of a string body: the UTF-8 it stands for and the bytes it takes. */
  datatype Unit = Unit(text: seq<Byte>, size: nat)

  function NextUnit(s: seq<Byte>): (r: Option<Unit>)
    requires s != []
    ensures r.Some? ==> 1 <= r.value.size <= |s|
  {
    if s[0] < 0x20 || s[0] == QUOTE then None
    else if s[0] == BACKSLASH then
      if |s| < 2 then None
      else if s[1] != 0x75 then
        match SimpleEscape(s[1])
        case None => None
        case Some(b) => Some(Unit([b], 2))
      else
        match CodeUnit(s)
        case None => None
        case Some(u) =>
          if IsScalar(u) then Some(Unit(Encode(u), 6))
          else if u >= 0xDC00 then None
          else
            match CodeUnit(s[6..])
            case None => None
            case Some(v) =>
              if 0xDC00 <= v <= 0xDFFF then
                Some(Unit(Encode(0x10000 + (u - 0xD800) * 0x400 + (v - 0xDC00)), 12))
              else None
    else if s[0] < 0x80 then Some(Unit([s[0]], 1))
    else
      var n := SequenceLength(s, 0);
      if n == 0 || n > |s| then None else Some(Unit(s[..n], n))
  }

  /** The text of a JSON string body, or None if it is not one. */
  function Decode(s: seq<Byte>): Option<seq<Byte>> {
    if s == [] then Some([])
    else
      match NextUnit(s)
      case None => None
      case Some(u) =>
        match Decode(s[u.size..])
        case None => None
        case Some(rest) => Some(u.text + rest)
  }

  // ------------------------------------------------- main results

  lemma DecodeStep(unit: seq<Byte>, text: seq<Byte>, rest: seq<Byte>)
    requires unit != [] && NextUnit(unit + rest) == Some(Unit(text, |unit|))
    ensures Decode(rest).Some? ==> Decode(unit + rest) == Some(text + Decode(rest).value)
  {
    assert (unit + rest)[|unit|..] == rest;
  }

  lemma UnicodeEscapeDecodes(unit: nat, rest: seq<Byte>)
    requires unit < 0x10000 && IsScalar(unit)
    ensures NextUnit(UnicodeEscape(unit) + rest) == Some(Unit(Encode(unit), 6))
  {
    var e := UnicodeEscape(unit);
    assert (e + rest)[..6] == e;
    FourHexDigits(unit);
    assert CodeUnit(e + rest) == Some(unit);
  }

  lemma HexRoundTrip(d: nat)
    requires d < 16
    ensures HexValue(HexDigit(d)) == Some(d)
  {}

  lemma FourHexDigits(unit: nat)
    requires unit < 0x10000
    ensures CodeUnit(UnicodeEscape(unit)) == Some(unit)
  {
    HexRoundTrip(unit / 0x1000 % 16);
    HexRoundTrip(unit / 0x100 % 16);
    HexRoundTrip(unit / 0x10 % 16);
    HexRoundTrip(unit % 16);
    HornerHex(unit);
  }

  lemma HornerHex(unit: nat)
    requires unit < 0x10000
    ensures ((unit / 0x1000 % 16 * 16 + unit / 0x100 % 16) * 16 + unit / 0x10 % 16) * 16 + unit % 16 == unit
  {
    assert unit / 0x100 == unit / 0x10 / 0x10;
    assert unit / 0x1000 == unit / 0x100 / 0x10;
  }

  lemma EscapedAsciiDecodes(b: Byte, rest: seq<Byte>)
    requires b < 0x80
    ensures NextUnit(EscapeAscii(b) + rest) == Some(Unit([b], |EscapeAscii(b)|))
  {
    if EscapeAscii(b) == UnicodeEscape(b) { UnicodeEscapeDecodes(b, rest); }
  }

  ghost predicate RoundTrips(s: seq<Byte>) {
    Decode(Escape(s)) == Some(Repair(s))
  }

  lemma AsciiRoundTrips(s: seq<Byte>)
    requires s != [] && s[0] < 0x80 && RoundTrips(s[1..])
    ensures RoundTrips(s)
  {
    EscapedAsciiDecodes(s[0], Escape(s[1..]));
    DecodeStep(EscapeAscii(s[0]), [s[0]], Escape(s[1..]));
  }

  /** What is written for a stray byte is read as U+FFFD. */
  lemma StrayUnit(rest: seq<Byte>)
    ensures NextUnit(UnicodeEscape(0xFFFD) + rest) == Some(Unit(Replacement(), 6))
  {
    UnicodeEscapeDecodes(0xFFFD, rest);
    ReplacementEncoded();
  }

  lemma ReplacementEncoded()
    ensures Encode(0xFFFD) == Replacement()
  {}

  lemma StrayByteRoundTrips(s: seq<Byte>)
    requires s != [] && s[0] >= 0x80 && SequenceLength(s, 0) == 0 && RoundTrips(s[1..])
    ensures RoundTrips(s)
  {
    StrayUnit(Escape(s[1..]));
    DecodeStep(UnicodeEscape(0xFFFD), Replacement(), Escape(s[1..]));
  }

  lemma SequenceRoundTrips(s: seq<Byte>, n: nat)
    requires s != [] && s[0] >= 0x80 && 0 < SequenceLength(s, 0) == n <= |s| && RoundTrips(s[n..])
    ensures RoundTrips(s)
  {
    PlainSequenceDecodes(s, n);
    DecodeStep(s[..n], s[..n], Escape(s[n..]));
  }

  /** Escaping round trip: the escaped form is a JSON string body, and decoding it gives the input
      back with every byte outside a well-formed sequence replaced by U+FFFD. */
  lemma {:induction false} EscapeRoundTrip(s: seq<Byte>)
    ensures Decode(Escape(s)) == Some(Repair(s))
  {
    if s != [] {
      if s[0] < 0x80 {
        EscapeRoundTrip(s[1..]);
        AsciiRoundTrips(s);
      } else if SequenceLength(s, 0) == 0 {
        EscapeRoundTrip(s[1..]);
        StrayByteRoundTrips(s);
      } else {
        RecognisedIsEncoded(s, 0);
        EscapeRoundTrip(s[SequenceLength(s, 0)..]);
        SequenceRoundTrips(s, SequenceLength(s, 0));
      }
    }
  }

  /** The same, with the replaced bytes told apart by the definition of UTF-8 alone: those that belong
      to no encoding anywhere in the string. */
  lemma EscapeReplacesStray(s: seq<Byte>)
    ensures Decode(Escape(s)) == Some(ReplaceStray(s))
  {
    EscapeRoundTrip(s);
    RepairReplacesStray(s);
  }

  lemma PlainSequenceDecodes(s: seq<Byte>, n: nat)
    requires s != [] && s[0] >= 0x80 && n == SequenceLength(s, 0) > 0 && n <= |s|
    ensures NextUnit(s[..n] + Escape(s[n..])) == Some(Unit(s[..n], n))
  {
    RecognisedIsEncoded(s, 0);
    var c := CodePoint(s, 0, n);
    assert s[0..n] == s[..n] == s[..n][0..n];
    assert EncodesAt(s[..n], 0, c);
    EncodedIsRecognised(s[..n], 0, c);
    SequenceLengthOfPrefix(s[..n], Escape(s[n..]));
    assert (s[..n] + Escape(s[n..]))[..n] == s[..n];
  }

  /** The output is well-formed UTF-8, whatever the input. */
  lemma {:induction false} EscapeIsWellFormed(s: seq<Byte>)
    ensures WellFormed(Escape(s))
  {
    if s == [] {
      AsciiWellFormed([]);
    } else if s[0] < 0x80 {
      AsciiWellFormed(EscapeAscii(s[0]));
      EscapeIsWellFormed(s[1..]);
      WellFormedAppend(EscapeAscii(s[0]), Escape(s[1..]));
    } else {
      var n := SequenceLength(s, 0);
      if n == 0 {
        AsciiWellFormed(UnicodeEscape(0xFFFD));
        EscapeIsWellFormed(s[1..]);
        WellFormedAppend(UnicodeEscape(0xFFFD), Escape(s[1..]));
      } else {
        RecognisedIsEncoded(s, 0);
        SingleWellFormed(CodePoint(s, 0, n));
        EscapeIsWellFormed(s[n..]);
        WellFormedAppend(s[..n], Escape(s[n..]));
      }
    }
  }

  /** Neither a control character nor DEL is written as it is. */
  ghost predicate NoControl(s: seq<Byte>) {
    forall i :: 0 <= i < |s| ==> s[i] >= 0x20 && s[i] != 0x7F
  }

  lemma {:induction false} NoControlBytes(s: seq<Byte>)
    ensures NoControl(Escape(s))
  {
    if s == [] {
    } else if s[0] < 0x80 {
      NoControlBytes(s[1..]);
      BothFree(EscapeAscii(s[0]), Escape(s[1..]));
    } else {
      var n := SequenceLength(s, 0);
      if n == 0 {
        NoControlBytes(s[1..]);
        BothFree(UnicodeEscape(0xFFFD), Escape(s[1..]));
      } else {
        RecognisedIsEncoded(s, 0);
        HighBytes(s, n);
        NoControlBytes(s[n..]);
        BothFree(s[..n], Escape(s[n..]));
      }
    }
  }

  lemma BothFree(a: seq<Byte>, b: seq<Byte>)
    requires NoControl(a) && NoControl(b)
    ensures NoControl(a + b)
  {}

  lemma HighBytes(s: seq<Byte>, n: nat)
    requires s != [] && n == SequenceLength(s, 0) > 0 && n <= |s|
    ensures forall i :: 0 <= i < n ==> s[..n][i] >= 0x80
  {}

  /** A quote, a backslash and five control characters have short forms, the other control characters and DEL are
      written as a code unit with lower-case digits, and everything else below 0x80 stays. */
  lemma AsciiForms(b: Byte)
    requires b < 0x80
    ensures b == 0x22 || b == 0x5C ==> Escape([b]) == [0x5C, b]
    ensures b == 0x08 ==> Escape([b]) == [0x5C, 0x62]
    ensures b == 0x09 ==> Escape([b]) == [0x5C, 0x74]
    ensures b == 0x0A ==> Escape([b]) == [0x5C, 0x6E]
    ensures b == 0x0C ==> Escape([b]) == [0x5C, 0x66]
    ensures b == 0x0D ==> Escape([b]) == [0x5C, 0x72]
    ensures (b < 0x20 && !(0x08 <= b <= 0x0A) && b != 0x0C && b != 0x0D) || b == 0x7F ==>
              && |Escape([b])| == 6 && Escape([b])[..5] == [0x5C, 0x75, 0x30, 0x30, 0x30 + b / 16]
              && Escape([b])[5] == if b % 16 < 10 then 0x30 + b % 16 else 0x57 + b % 16
    ensures 0x20 <= b < 0x7F && b != 0x22 && b != 0x5C ==> Escape([b]) == [b]
  {
    assert [b][1..] == [] && Escape([b]) == EscapeAscii(b) + [] == EscapeAscii(b);
  }

  // ------------------------------------------------- what the escaped form loses

  function EscapeToken(k: Token): seq<Byte> {
    match k
    case None => UnicodeEscape(0xFFFD)
    case Some(x) => if |x| == 1 && x[0] < 0x80 then EscapeAscii(x[0]) else x
  }

  function EscapeTokens(ks: TokenList): seq<Byte> {
    match ks
    case NoTokens => []
    case Tokens(k, rest) => EscapeToken(k) + EscapeTokens(rest)
  }

  /** The tokens decide the escaped form. */
  lemma {:induction false} EscapeOfTokens(s: seq<Byte>)
    ensures Escape(s) == EscapeTokens(TokensOf(s))
  {
    if s != [] {
      if s[0] < 0x80 {
        EscapeOfTokens(s[1..]);
      } else if SequenceLength(s, 0) == 0 {
        EscapeOfTokens(s[1..]);
      } else {
        RecognisedIsEncoded(s, 0);
        EscapeOfTokens(s[SequenceLength(s, 0)..]);
      }
    }
  }

  /** The token of a decoded unit: only a stray byte takes six bytes for a text of three. */
  function TokenOf(u: Unit): Token {
    if u.size == 6 && |u.text| == 3 then None else Some(u.text)
  }

  /** The tokens read back from an escaped form. */
  function ReadTokens(e: seq<Byte>): TokenList {
    if e == [] then NoTokens
    else
      match NextUnit(e)
      case None => NoTokens
      case Some(u) => Tokens(TokenOf(u), ReadTokens(e[u.size..]))
  }

  ghost predicate ReadsBack(s: seq<Byte>) {
    ReadTokens(Escape(s)) == TokensOf(s)
  }

  lemma ReadStep(unit: seq<Byte>, text: seq<Byte>, rest: seq<Byte>)
    requires unit != [] && NextUnit(unit + rest) == Some(Unit(text, |unit|))
    ensures ReadTokens(unit + rest) == Tokens(TokenOf(Unit(text, |unit|)), ReadTokens(rest))
  {
    assert (unit + rest)[|unit|..] == rest;
  }

  lemma AsciiReadsBack(s: seq<Byte>)
    requires s != [] && s[0] < 0x80 && ReadsBack(s[1..])
    ensures ReadsBack(s)
  {
    EscapedAsciiDecodes(s[0], Escape(s[1..]));
    ReadStep(EscapeAscii(s[0]), [s[0]], Escape(s[1..]));
  }

  lemma StrayReadsBack(s: seq<Byte>)
    requires s != [] && s[0] >= 0x80 && SequenceLength(s, 0) == 0 && ReadsBack(s[1..])
    ensures ReadsBack(s)
  {
    StrayUnit(Escape(s[1..]));
    ReadStep(UnicodeEscape(0xFFFD), Replacement(), Escape(s[1..]));
  }

  lemma SequenceReadsBack(s: seq<Byte>, n: nat)
    requires s != [] && s[0] >= 0x80 && 0 < SequenceLength(s, 0) == n <= |s| && ReadsBack(s[n..])
    ensures ReadsBack(s)
  {
    PlainSequenceDecodes(s, n);
    ReadStep(s[..n], s[..n], Escape(s[n..]));
  }

  /** The escaped form decides the tokens. */
  lemma {:induction false} TokensReadBack(s: seq<Byte>)
    ensures ReadsBack(s)
  {
    if s != [] {
      if s[0] < 0x80 {
        TokensReadBack(s[1..]);
        AsciiReadsBack(s);
      } else if SequenceLength(s, 0) == 0 {
        TokensReadBack(s[1..]);
        StrayReadsBack(s);
      } else {
        RecognisedIsEncoded(s, 0);
        TokensReadBack(s[SequenceLength(s, 0)..]);
        SequenceReadsBack(s, SequenceLength(s, 0));
      }
    }
  }

  lemma EqualFormsEqualTokens(s: seq<Byte>, t: seq<Byte>)
    ensures Escape(s) == Escape(t) <==> TokensOf(s) == TokensOf(t)
  {
    TokensReadBack(s);
    TokensReadBack(t);
    EscapeOfTokens(s);
    EscapeOfTokens(t);
  }

  // ------------------------------------------------- the same steps
  /** From `p` on both strings take the same steps. */
  ghost predicate Alike(s: seq<Byte>, t: seq<Byte>, p: nat)
    decreases |s| - p
  {
    if p >= |s| || p >= |t| then |s| == |t| == p
    else SameStep(s, t, p, StepSize(s, p)) && Alike(s, t, p + StepSize(s, p))
  }

  ghost predicate SameStep(s: seq<Byte>, t: seq<Byte>, p: nat, n: nat)
    requires p < |s| && p < |t|
  {
    && p + n <= |s| && p + n <= |t| && StepSize(s, p) == n == StepSize(t, p) && (Stray(s, p) <==> Stray(t, p))
    && (!Stray(s, p) ==> s[p..p + n] == t[p..p + n])
  }

  lemma {:induction false} SameTokensIffAlike(s: seq<Byte>, t: seq<Byte>, p: nat)
    requires p <= |s| && p <= |t|
    ensures TokensAt(s, p) == TokensAt(t, p) <==> Alike(s, t, p)
    decreases |s| - p
  {
    if p < |s| { StepFits(s, p); }
    if p < |t| { StepFits(t, p); }
    if p < |s| && p < |t| {
      SameTokenIff(s, t, p);
      if SameStep(s, t, p, StepSize(s, p)) { SameTokensIffAlike(s, t, p + StepSize(s, p)); }
    }
  }

  lemma SameTokenIff(s: seq<Byte>, t: seq<Byte>, p: nat)
    requires p < |s| && p < |t| && p + StepSize(s, p) <= |s| && p + StepSize(t, p) <= |t|
    ensures TokenAt(s, p) == TokenAt(t, p) <==> SameStep(s, t, p, StepSize(s, p))
  {
    if TokenAt(s, p) == TokenAt(t, p) && !Stray(s, p) {
      assert |s[p..p + StepSize(s, p)]| == |t[p..p + StepSize(t, p)]|;
    }
  }

  // ------------------------------------------------- stray bytes alone are lost

  /** The strings differ at most in the values of bytes that belong to no encoding. */
  ghost predicate SameButStray(s: seq<Byte>, t: seq<Byte>) {
    SameFrom(s, t, 0)
  }

  ghost predicate SameFrom(s: seq<Byte>, t: seq<Byte>, p: nat) {
    |s| == |t| && forall q {:trigger SameAt(s, t, q)} :: p <= q < |s| ==> SameAt(s, t, q)
  }

  ghost predicate SameAt(s: seq<Byte>, t: seq<Byte>, p: nat)
    requires p < |s| && p < |t|
  {
    (Covered(s, p) <==> Covered(t, p)) && (Covered(s, p) ==> s[p] == t[p])
  }

  /** The bytes of an encoding are the same in both strings, and covered in both. */
  lemma SameEncoding(s: seq<Byte>, t: seq<Byte>, p: nat, c: int)
    requires EncodesAt(s, p, c) && p + |Encode(c)| <= |t|
    requires s[p..p + |Encode(c)|] == t[p..p + |Encode(c)|]
    ensures EncodesAt(t, p, c)
    ensures forall q :: p <= q < p + |Encode(c)| ==> s[q] == t[q] && Covered(s, q) && Covered(t, q)
  {
    var n := |Encode(c)|;
    forall q | p <= q < p + n ensures s[q] == t[q] && Covered(s, q) && Covered(t, q) {
      assert s[p..p + n][q - p] == t[p..p + n][q - p];
      CoveredBy(s, p, c, q);
      CoveredBy(t, p, c, q);
    }
  }

  ghost predicate SameStretch(s: seq<Byte>, t: seq<Byte>, p: nat, n: nat) {
    p + n <= |s| && p + n <= |t| && forall q {:trigger SameAt(s, t, q)} :: p <= q < p + n ==> SameAt(s, t, q)
  }

  /** Where a step goes on alike in both strings they are the same but for stray bytes. */
  lemma StepSame(s: seq<Byte>, t: seq<Byte>, p: nat, n: nat)
    requires p < |s| && p < |t| && Boundary(s, p) && Boundary(t, p) && SameStep(s, t, p, n)
    ensures Boundary(s, p + n) && Boundary(t, p + n) && SameStretch(s, t, p, n)
  {
    if Stray(s, p) {
      StrayAt(s, p);
      StrayAt(t, p);
    } else {
      var c := EncodedHere(s, p);
      SameEncoding(s, t, p, c);
      BehindEncoding(s, p, c);
      BehindEncoding(t, p, c);
    }
  }

  lemma SameFromHere(s: seq<Byte>, t: seq<Byte>, p: nat, n: nat)
    requires SameFrom(s, t, p + n) && SameStretch(s, t, p, n)
    ensures SameFrom(s, t, p)
  {}

  lemma {:induction false} AlikeIsSame(s: seq<Byte>, t: seq<Byte>, p: nat)
    requires Alike(s, t, p) && Boundary(s, p) && Boundary(t, p)
    ensures SameFrom(s, t, p)
    decreases |s| - p
  {
    if p < |s| && p < |t| {
      var n := StepSize(s, p);
      StepSame(s, t, p, n);
      AlikeIsSame(s, t, p + n);
      SameFromHere(s, t, p, n);
    }
  }

  /** Strings that are the same but for stray bytes take the same step. */
  lemma StrayInBoth(s: seq<Byte>, t: seq<Byte>, p: nat)
    requires p < |s| && p < |t| && SameAt(s, t, p) && Boundary(s, p) && Stray(s, p)
    ensures Stray(t, p)
  {
    StrayAt(s, p);
    if !Stray(t, p) {
      var c := EncodedHere(t, p);
      CoveredBy(t, p, c, p);
    }
  }

  lemma SequenceInBoth(s: seq<Byte>, t: seq<Byte>, p: nat)
    requires SameButStray(s, t) && p < |s| && !Stray(s, p)
    ensures !Stray(t, p) && StepSize(t, p) == StepSize(s, p) && p + StepSize(s, p) <= |s|
    ensures s[p..p + StepSize(s, p)] == t[p..p + StepSize(t, p)]
  {
    var c := EncodedHere(s, p);
    var n := |Encode(c)|;
    forall q | p <= q < p + n ensures s[q] == t[q] {
      CoveredBy(s, p, c, q);
      assert SameAt(s, t, q);
    }
    assert s[p..p + n] == t[p..p + n];
    assert EncodesAt(t, p, c);
    SameSize(s, t, p, c);
  }

  lemma SameSize(s: seq<Byte>, t: seq<Byte>, p: nat, c: int)
    requires EncodesAt(s, p, c) && EncodesAt(t, p, c) && s[p] == t[p]
    ensures StepSize(s, p) == StepSize(t, p) == |Encode(c)| && !Stray(s, p) && !Stray(t, p)
  {
    if c < 0x80 {
      EncodedAscii(s, p, c);
    } else {
      EncodedIsRecognised(s, p, c);
      EncodedIsRecognised(t, p, c);
    }
  }

  lemma SameStepAgain(s: seq<Byte>, t: seq<Byte>, p: nat)
    requires SameButStray(s, t) && p < |s| && Boundary(s, p)
    ensures SameStep(s, t, p, StepSize(s, p))
  {
    assert SameAt(s, t, p);
    if Stray(s, p) { StrayInBoth(s, t, p); } else { SequenceInBoth(s, t, p); }
  }

  lemma {:induction false} SameIsAlike(s: seq<Byte>, t: seq<Byte>, p: nat)
    requires SameButStray(s, t) && p <= |s| && Boundary(s, p) && Boundary(t, p)
    ensures Alike(s, t, p)
    decreases |s| - p
  {
    if p < |s| {
      SameStepAgain(s, t, p);
      StepSame(s, t, p, StepSize(s, p));
      SameIsAlike(s, t, p + StepSize(s, p));
    }
  }

  /** Two byte strings have the same escaped form if and only if they differ at most in the values of
      bytes that belong to no encoding. */
  lemma EscapeEqualIff(s: seq<Byte>, t: seq<Byte>)
    ensures Escape(s) == Escape(t) <==> SameButStray(s, t)
  {
    assert s[0..] == s && t[0..] == t;
    EqualFormsEqualTokens(s, t);
    TokensByPosition(s, 0);
    TokensByPosition(t, 0);
    SameTokensIffAlike(s, t, 0);
    if Alike(s, t, 0) { AlikeIsSame(s, t, 0); }
    if SameButStray(s, t) { SameIsAlike(s, t, 0); }
  }

  lemma NoEncodingHolds(s: seq<Byte>, i: nat, c: int, p: nat)
    requires EncodesAt(s, i, c) && i <= p < i + |Encode(c)|
    ensures s[p] < 0xFE
  {
    assert s[i..i + |Encode(c)|][p - i] == Encode(c)[p - i];
  }

  lemma OtherStray(s: seq<Byte>, p: nat, b: Byte)
    requires p < |s| && !Covered(s, p) && b >= 0xFE
    ensures SameButStray(s, s[p := b])
  {
    var t := s[p := b];
    forall i: nat, c | EncodesAt(s, i, c) || EncodesAt(t, i, c) ensures EncodesAt(s, i, c) && EncodesAt(t, i, c) {
      var e := i + |Encode(c)|;
      if i <= p < e {
        if EncodesAt(s, i, c) { CoveredBy(s, i, c, p); } else { NoEncodingHolds(t, i, c, p); }
      }
      assert s[i..e] == t[i..e];
    }
    forall q | 0 <= q < |s| ensures SameAt(s, t, q) {}
  }

  /** The escaped form of a string belongs to no other string if and only if the string is
      well-formed. */
  lemma EscapeInjectiveIff(s: seq<Byte>)
    ensures (forall t :: Escape(t) == Escape(s) ==> t == s) <==> WellFormed(s)
  {
    WellFormedIffCovered(s);
    if WellFormed(s) {
      forall t | Escape(t) == Escape(s) ensures t == s {
        EscapeEqualIff(s, t);
        forall p | 0 <= p < |s| ensures s[p] == t[p] { assert SameAt(s, t, p) && Covered(s, p); }
      }
    } else {
      var p :| 0 <= p < |s| && !Covered(s, p);
      var b: Byte := if s[p] == 0xFF then 0xFE else 0xFF;
      OtherStray(s, p, b);
      EscapeEqualIff(s, s[p := b]);
      assert s[p := b][p] != s[p];
    }
  }

  /** Two different stray bytes have the same escaped form. */
  lemma StrayBytesCollide()
    ensures Escape([0xFF]) == Escape([0xFE]) && !WellFormed([0xFF]) && !WellFormed([0xFE])
  {
    assert [0xFF][1..] == [] && [0xFE][1..] == [];
    assert Repair([0xFF]) != [0xFF] && Repair([0xFE]) != [0xFE];
    RepairIdentityIffWellFormed([0xFF]);
    RepairIdentityIffWellFormed([0xFE]);
  }
}
