/** The UTF-8 recogniser of JsonEscape.cpp against the encoding of RFC 3629. */
module Utf8 {
  import opened Wrappers

  type Byte = b: int | 0 <= b < 256

  /** The two top bits are 10. */
  predicate IsContinuation(s: seq<Byte>, i: nat) {
    i < |s| && s[i] / 0x40 == 2
  }

  /** Length of the multi-byte sequence starting at s[i], or 0 if the bytes there are not
      well-formed.  The branches are those of `utf8SequenceLength`. */
  function SequenceLength(s: seq<Byte>, i: nat): nat
    requires i < |s|
  {
    var lead := s[i];
    if 0xC2 <= lead <= 0xDF then
      if IsContinuation(s, i + 1) then 2 else 0
    else if 0xE0 <= lead <= 0xEF then
      if !IsContinuation(s, i + 1) || !IsContinuation(s, i + 2) then 0
      else if lead == 0xE0 && s[i + 1] < 0xA0 then 0
      else if lead == 0xED && s[i + 1] > 0x9F then 0
      else 3
    else if 0xF0 <= lead <= 0xF4 then
      if !IsContinuation(s, i + 1) || !IsContinuation(s, i + 2) || !IsContinuation(s, i + 3) then 0
      else if lead == 0xF0 && s[i + 1] < 0x90 then 0
      else if lead == 0xF4 && s[i + 1] > 0x8F then 0
      else 4
    else 0
  }

  // ------------------------------------------------- section 3 of RFC 3629

  predicate IsScalar(c: int) {
    0 <= c <= 0x10FFFF && !(0xD800 <= c <= 0xDFFF)
  }

  function Encode(c: int): (r: seq<Byte>)
    requires IsScalar(c)
    ensures 1 <= |r| <= 4
  {
    if c < 0x80 then [c]
    else if c < 0x800 then [0xC0 + c / 0x40, 0x80 + c % 0x40]
    else if c < 0x10000 then [0xE0 + c / 0x1000, 0x80 + c / 0x40 % 0x40, 0x80 + c % 0x40]
    else [0xF0 + c / 0x40000, 0x80 + c / 0x1000 % 0x40, 0x80 + c / 0x40 % 0x40, 0x80 + c % 0x40]
  }

  ghost predicate EncodesAt(s: seq<Byte>, i: nat, c: int) {
    IsScalar(c) && i + |Encode(c)| <= |s| && s[i..i + |Encode(c)|] == Encode(c)
  }

  function Two(b0: int, b1: int): int {
    (b0 - 0xC0) * 0x40 + (b1 - 0x80)
  }

  function Three(b0: int, b1: int, b2: int): int {
    (b0 - 0xE0) * 0x1000 + (b1 - 0x80) * 0x40 + (b2 - 0x80)
  }

  function Four(b0: int, b1: int, b2: int, b3: int): int {
    (b0 - 0xF0) * 0x40000 + (b1 - 0x80) * 0x1000 + (b2 - 0x80) * 0x40 + (b3 - 0x80)
  }

  /** The value spelled by the payload bits of a sequence of two, three or four bytes. */
  function CodePoint(s: seq<Byte>, i: nat, n: nat): int
    requires 2 <= n <= 4 && i + n <= |s|
  {
    if n == 2 then Two(s[i], s[i + 1])
    else if n == 3 then Three(s[i], s[i + 1], s[i + 2])
    else Four(s[i], s[i + 1], s[i + 2], s[i + 3])
  }

  lemma TwoBytes(b0: int, b1: int, c: int)
    requires 0xC0 <= b0 && 0x80 <= b1 < 0xC0
    ensures c == Two(b0, b1) <==> b0 == 0xC0 + c / 0x40 && b1 == 0x80 + c % 0x40
  {}

  lemma ThreeBytes(b0: int, b1: int, b2: int, c: int)
    requires 0xE0 <= b0 && 0x80 <= b1 < 0xC0 && 0x80 <= b2 < 0xC0
    ensures c == Three(b0, b1, b2) <==>
            b0 == 0xE0 + c / 0x1000 && b1 == 0x80 + c / 0x40 % 0x40 && b2 == 0x80 + c % 0x40
  {
    SplitTwice(c);
  }

  lemma FourBytes(b0: int, b1: int, b2: int, b3: int, c: int)
    requires 0xF0 <= b0 && 0x80 <= b1 < 0xC0 && 0x80 <= b2 < 0xC0 && 0x80 <= b3 < 0xC0
    ensures c == Four(b0, b1, b2, b3) <==>
            && b0 == 0xF0 + c / 0x40000 && b1 == 0x80 + c / 0x1000 % 0x40
            && b2 == 0x80 + c / 0x40 % 0x40 && b3 == 0x80 + c % 0x40
  {
    SplitTwice(c);
    SplitTwice(c / 0x40);
    DivDiv(c, 0x40, 0x1000);
  }

  /** c = ((c / 64^2) * 64 + c / 64 % 64) * 64 + c % 64. */
  lemma SplitTwice(c: int)
    ensures c / 0x1000 == c / 0x40 / 0x40
  {}

  lemma DivDiv(c: int, j: nat, k: nat)
    requires j == 0x40 && k == 0x1000
    ensures c / j / k == c / 0x40000 && c / j / 0x40 == c / k
  {}

  /** The recogniser accepts exactly the encodings of the scalar values from U+0080 on: no
      overlong form, no surrogate, nothing above U+10FFFF, no truncated sequence. */
  lemma SequenceLengthIffEncoded(s: seq<Byte>, i: nat)
    requires i < |s|
    ensures SequenceLength(s, i) > 0 <==> exists c :: c >= 0x80 && EncodesAt(s, i, c)
  {
    if SequenceLength(s, i) > 0 {
      RecognisedIsEncoded(s, i);
    }
    if c :| c >= 0x80 && EncodesAt(s, i, c) {
      EncodedIsRecognised(s, i, c);
    }
  }

  lemma RecognisedIsEncoded(s: seq<Byte>, i: nat)
    requires i < |s| && SequenceLength(s, i) > 0
    ensures i + SequenceLength(s, i) <= |s| && 2 <= SequenceLength(s, i) <= 4
    ensures var c := CodePoint(s, i, SequenceLength(s, i));
            c >= 0x80 && EncodesAt(s, i, c) && |Encode(c)| == SequenceLength(s, i)
  {
    var n := SequenceLength(s, i);
    var c := CodePoint(s, i, n);
    if n == 2 {
      TwoBytes(s[i], s[i + 1], c);
      assert 0x80 <= c < 0x800;
      assert s[i..i + n] == [s[i], s[i + 1]];
    } else if n == 3 {
      ThreeBytes(s[i], s[i + 1], s[i + 2], c);
      assert 0x800 <= c < 0x10000 && IsScalar(c);
      assert s[i..i + n] == [s[i], s[i + 1], s[i + 2]];
    } else {
      FourBytes(s[i], s[i + 1], s[i + 2], s[i + 3], c);
      assert 0x10000 <= c <= 0x10FFFF;
      assert s[i..i + n] == [s[i], s[i + 1], s[i + 2], s[i + 3]];
    }
  }

  lemma EncodedIsRecognised(s: seq<Byte>, i: nat, c: int)
    requires c >= 0x80 && EncodesAt(s, i, c)
    ensures SequenceLength(s, i) == |Encode(c)| && CodePoint(s, i, |Encode(c)|) == c
  {
    var e := Encode(c);
    forall k | 0 <= k < |e| ensures s[i + k] == e[k] {
      assert s[i..i + |e|][k] == e[k];
    }
    if |e| == 2 {
      TwoBytes(s[i], s[i + 1], c);
    } else if |e| == 3 {
      ThreeBytes(s[i], s[i + 1], s[i + 2], c);
      SecondOfThree(c);
    } else {
      FourBytes(s[i], s[i + 1], s[i + 2], s[i + 3], c);
      SecondOfFour(c);
    }
  }

  /** The bounds on the second byte that exclude overlong forms and surrogates. */
  lemma SecondOfThree(c: int)
    requires 0x800 <= c < 0x10000 && IsScalar(c)
    ensures c / 0x1000 == 0 ==> c / 0x40 % 0x40 >= 0x20
    ensures c / 0x1000 == 0xD ==> c / 0x40 % 0x40 <= 0x1F
  {
    SplitTwice(c);
  }

  /** The bounds on the second byte that exclude overlong forms and values above U+10FFFF. */
  lemma SecondOfFour(c: int)
    requires 0x10000 <= c <= 0x10FFFF
    ensures c / 0x40000 <= 4
    ensures c / 0x40000 == 0 ==> c / 0x1000 % 0x40 >= 0x10
    ensures c / 0x40000 == 4 ==> c / 0x1000 % 0x40 <= 0xF
  {
    DivDiv(c, 0x40, 0x1000);
    SplitTwice(c / 0x40);
  }

  /** At most one scalar value is encoded at a position. */
  lemma EncodingUnique(s: seq<Byte>, i: nat, c: int, d: int)
    requires EncodesAt(s, i, c) && EncodesAt(s, i, d)
    ensures c == d
  {
    assert s[i..i + |Encode(c)|][0] == s[i] == s[i..i + |Encode(d)|][0];
    if c >= 0x80 { EncodedIsRecognised(s, i, c); }
    if d >= 0x80 { EncodedIsRecognised(s, i, d); }
  }

  /** Only the bytes of the sequence itself decide. */
  lemma SequenceLengthLocal(s: seq<Byte>, i: nat)
    requires i < |s|
    ensures SequenceLength(s, i) == SequenceLength(s[i..], 0)
  {
    forall k | 1 <= k <= 3 ensures IsContinuation(s, i + k) == IsContinuation(s[i..], k) {}
  }

  lemma SequenceLengthOfPrefix(s: seq<Byte>, rest: seq<Byte>)
    requires |s| > 0 && SequenceLength(s, 0) > 0
    ensures SequenceLength(s + rest, 0) == SequenceLength(s, 0)
  {
    RecognisedIsEncoded(s, 0);
    var c := CodePoint(s, 0, SequenceLength(s, 0));
    var n := |Encode(c)|;
    assert (s + rest)[0..n] == s[0..n];
    assert EncodesAt(s + rest, 0, c);
    EncodedIsRecognised(s + rest, 0, c);
  }

  // ------------------------------------------------- well-formed byte strings

  ghost predicate AllScalar(cs: seq<int>) {
    forall k :: 0 <= k < |cs| ==> IsScalar(cs[k])
  }

  ghost function EncodeAll(cs: seq<int>): seq<Byte>
    requires AllScalar(cs)
  {
    if cs == [] then [] else Encode(cs[0]) + EncodeAll(cs[1..])
  }

  ghost predicate WellFormed(s: seq<Byte>) {
    exists cs :: AllScalar(cs) && EncodeAll(cs) == s
  }

  lemma {:induction false} EncodeAllAppend(cs: seq<int>, ds: seq<int>)
    requires AllScalar(cs) && AllScalar(ds)
    ensures EncodeAll(cs + ds) == EncodeAll(cs) + EncodeAll(ds)
  {
    if cs == [] {
      assert cs + ds == ds;
    } else {
      assert (cs + ds)[1..] == cs[1..] + ds;
      EncodeAllAppend(cs[1..], ds);
    }
  }

  lemma WellFormedAppend(s: seq<Byte>, t: seq<Byte>)
    requires WellFormed(s) && WellFormed(t)
    ensures WellFormed(s + t)
  {
    var cs :| AllScalar(cs) && EncodeAll(cs) == s;
    var ds :| AllScalar(ds) && EncodeAll(ds) == t;
    EncodeAllAppend(cs, ds);
    assert AllScalar(cs + ds);
  }

  lemma {:induction false} AsciiWellFormed(s: seq<Byte>)
    requires forall k :: 0 <= k < |s| ==> s[k] < 0x80
    ensures WellFormed(s)
  {
    if s == [] {
      assert AllScalar([]) && EncodeAll([]) == s;
    } else {
      AsciiWellFormed(s[1..]);
      SingleWellFormed(s[0]);
      assert Encode(s[0]) == [s[0]];
      WellFormedAppend([s[0]], s[1..]);
      assert s == [s[0]] + s[1..];
    }
  }

  lemma SingleWellFormed(c: int)
    requires IsScalar(c)
    ensures WellFormed(Encode(c))
  {
    assert AllScalar([c]);
    assert [c][1..] == [];
    assert EncodeAll([c]) == Encode(c);
  }

  /** The replacement character U+FFFD. */
  function Replacement(): seq<Byte> { [0xEF, 0xBF, 0xBD] }

  /** Every byte that is not part of a well-formed sequence becomes U+FFFD. */
  function Repair(s: seq<Byte>): seq<Byte> {
    if s == [] then []
    else if s[0] < 0x80 then [s[0]] + Repair(s[1..])
    else
      var n := SequenceLength(s, 0);
      if n == 0 || n > |s| then Replacement() + Repair(s[1..])
      else s[..n] + Repair(s[n..])
  }

  lemma {:induction false} RepairWellFormed(s: seq<Byte>)
    ensures WellFormed(Repair(s))
  {
    if s == [] {
      AsciiWellFormed([]);
    } else if s[0] < 0x80 {
      AsciiWellFormed([s[0]]);
      RepairWellFormed(s[1..]);
      WellFormedAppend([s[0]], Repair(s[1..]));
    } else {
      var n := SequenceLength(s, 0);
      if n == 0 {
        assert Encode(0xFFFD) == Replacement();
        SingleWellFormed(0xFFFD);
        RepairWellFormed(s[1..]);
        WellFormedAppend(Replacement(), Repair(s[1..]));
      } else {
        RecognisedIsEncoded(s, 0);
        SingleWellFormed(CodePoint(s, 0, n));
        RepairWellFormed(s[n..]);
        WellFormedAppend(s[..n], Repair(s[n..]));
      }
    }
  }

  lemma {:induction false} RepairOfEncoded(cs: seq<int>)
    requires AllScalar(cs)
    ensures Repair(EncodeAll(cs)) == EncodeAll(cs)
  {
    if cs != [] {
      var s := EncodeAll(cs);
      var e := Encode(cs[0]);
      assert s[..|e|] == e && s[|e|..] == EncodeAll(cs[1..]);
      RepairOfEncoded(cs[1..]);
      assert s[0..|e|] == e;
      assert s[0] == e[0];
      if cs[0] >= 0x80 { EncodedIsRecognised(s, 0, cs[0]); }
    }
  }

  /** Repair changes exactly the ill-formed strings. */
  lemma RepairIdentityIffWellFormed(s: seq<Byte>)
    ensures Repair(s) == s <==> WellFormed(s)
  {
    RepairWellFormed(s);
    if cs :| AllScalar(cs) && EncodeAll(cs) == s { RepairOfEncoded(cs); }
  }

  // ------------------------------------------------- step by step

  /** What one step deals with: the bytes of an encoding, or a stray byte. */
  type Token = Option<seq<Byte>>

  datatype TokenList = NoTokens | Tokens(first: Token, rest: TokenList)

  function TokensOf(s: seq<Byte>): TokenList {
    if s == [] then NoTokens
    else if s[0] < 0x80 then Tokens(Some([s[0]]), TokensOf(s[1..]))
    else
      var n := SequenceLength(s, 0);
      if n == 0 || n > |s| then Tokens(None, TokensOf(s[1..])) else Tokens(Some(s[..n]), TokensOf(s[n..]))
  }

  /** What Repair makes of a token. */
  function RepairToken(k: Token): seq<Byte> {
    match k
    case None => Replacement()
    case Some(x) => x
  }

  function RepairTokens(ks: TokenList): seq<Byte> {
    match ks
    case NoTokens => []
    case Tokens(k, rest) => RepairToken(k) + RepairTokens(rest)
  }

  lemma {:induction false} RepairOfTokens(s: seq<Byte>)
    ensures Repair(s) == RepairTokens(TokensOf(s))
  {
    if s != [] {
      if s[0] < 0x80 || SequenceLength(s, 0) == 0 {
        RepairOfTokens(s[1..]);
      } else {
        RecognisedIsEncoded(s, 0);
        RepairOfTokens(s[SequenceLength(s, 0)..]);
      }
    }
  }

  /** How far one step goes. */
  function StepSize(s: seq<Byte>, p: nat): (n: nat)
    requires p < |s|
    ensures n > 0
  {
    if s[p] < 0x80 || SequenceLength(s, p) == 0 then 1 else SequenceLength(s, p)
  }

  lemma StepFits(s: seq<Byte>, p: nat)
    requires p < |s|
    ensures p + StepSize(s, p) <= |s|
  {
    if SequenceLength(s, p) > 0 { RecognisedIsEncoded(s, p); }
  }

  lemma FirstOfRest(s: seq<Byte>, p: nat)
    requires p < |s|
    ensures s[p..] != [] && s[p..][0] == s[p] && s[p..p + 1] == [s[p]]
  {}

  lemma SliceOfRest(s: seq<Byte>, p: nat, n: nat)
    requires p + n <= |s|
    ensures s[p..][..n] == s[p..p + n] && s[p..][n..] == s[p + n..]
  {}

  predicate Stray(s: seq<Byte>, p: nat)
    requires p < |s|
  {
    s[p] >= 0x80 && SequenceLength(s, p) == 0
  }

  function TokenAt(s: seq<Byte>, p: nat): Token
    requires p < |s| && p + StepSize(s, p) <= |s|
  {
    if Stray(s, p) then None else Some(s[p..p + StepSize(s, p)])
  }

  function TokensAt(s: seq<Byte>, p: nat): TokenList
    decreases |s| - p
  {
    if p >= |s| || p + StepSize(s, p) > |s| then NoTokens
    else Tokens(TokenAt(s, p), TokensAt(s, p + StepSize(s, p)))
  }

  lemma TokensHere(s: seq<Byte>, p: nat)
    requires p < |s|
    ensures p + StepSize(s, p) <= |s|
    ensures TokensOf(s[p..]) == Tokens(TokenAt(s, p), TokensOf(s[p + StepSize(s, p)..]))
  {
    SequenceLengthLocal(s, p);
    StepFits(s, p);
    SliceOfRest(s, p, StepSize(s, p));
    FirstOfRest(s, p);
  }

  lemma {:induction false} TokensByPosition(s: seq<Byte>, p: nat)
    requires p <= |s|
    ensures TokensOf(s[p..]) == TokensAt(s, p)
    decreases |s| - p
  {
    if p < |s| {
      TokensHere(s, p);
      TokensByPosition(s, p + StepSize(s, p));
    }
  }

  // ------------------------------------------------- which bytes are replaced

  /** The byte belongs to the encoding of some scalar value somewhere in the string. */
  ghost predicate Covered(s: seq<Byte>, p: nat) {
    exists i: nat, c :: EncodesAt(s, i, c) && i <= p < i + |Encode(c)|
  }

  /** Every byte from `p` on judged by itself: kept or replaced. */
  function KeepOnly(s: seq<Byte>, keep: nat -> bool, p: nat): seq<Byte>
    requires p <= |s|
    decreases |s| - p
  {
    if p == |s| then [] else (if keep(p) then [s[p]] else Replacement()) + KeepOnly(s, keep, p + 1)
  }

  /** Kept if it is covered, replaced if it is not. */
  ghost function ReplaceStray(s: seq<Byte>): seq<Byte> {
    KeepOnly(s, (p: nat) => Covered(s, p), 0)
  }

  lemma EncodedBytes(s: seq<Byte>, i: nat, c: int)
    requires EncodesAt(s, i, c)
    ensures !(0x80 <= s[i] < 0xC0)
    ensures forall k :: i < k < i + |Encode(c)| ==> 0x80 <= s[k] < 0xC0
  {
    var e := Encode(c);
    forall k | i <= k < i + |e| ensures s[k] == e[k - i] { assert s[i..i + |e|][k - i] == e[k - i]; }
  }

  /** Two encodings never overlap. */
  lemma NoOverlap(s: seq<Byte>, i: nat, c: int, j: nat, d: int)
    requires EncodesAt(s, i, c) && EncodesAt(s, j, d) && i < j
    ensures i + |Encode(c)| <= j
  {
    EncodedBytes(s, i, c);
    EncodedBytes(s, j, d);
  }

  /** No encoding reaches across `p`. */
  ghost predicate Boundary(s: seq<Byte>, p: nat) {
    forall i: nat, c :: EncodesAt(s, i, c) && i < p ==> i + |Encode(c)| <= p
  }

  lemma BehindEncoding(s: seq<Byte>, p: nat, c: int)
    requires EncodesAt(s, p, c) && Boundary(s, p)
    ensures Boundary(s, p + |Encode(c)|)
  {
    forall i: nat, d | EncodesAt(s, i, d) && i < p + |Encode(c)| ensures i + |Encode(d)| <= p + |Encode(c)| {
      if i > p {
        NoOverlap(s, p, c, i, d);
      } else if i == p {
        EncodingUnique(s, p, c, d);
      }
    }
  }

  lemma {:induction false} KeptRun(s: seq<Byte>, keep: nat -> bool, p: nat, n: nat)
    requires p + n <= |s| && forall k :: p <= k < p + n ==> keep(k)
    ensures KeepOnly(s, keep, p) == s[p..p + n] + KeepOnly(s, keep, p + n)
    decreases n
  {
    if n == 0 {
      NoBytes(s, p, KeepOnly(s, keep, p));
    } else {
      KeptRun(s, keep, p + 1, n - 1);
      OneMoreByte(s, p, p + n, KeepOnly(s, keep, p), KeepOnly(s, keep, p + 1), KeepOnly(s, keep, p + n));
    }
  }

  lemma NoBytes(s: seq<Byte>, p: nat, behind: seq<Byte>)
    requires p <= |s|
    ensures behind == s[p..p] + behind
  {}

  lemma OneMoreByte(s: seq<Byte>, p: nat, q: nat, all: seq<Byte>, next: seq<Byte>, behind: seq<Byte>)
    requires p < q <= |s| && all == [s[p]] + next && next == s[p + 1..q] + behind
    ensures all == s[p..q] + behind
  {}

  /** `keep` is the coverage of the string. */
  ghost predicate KeepsCovered(s: seq<Byte>, keep: nat -> bool) {
    forall p {:trigger Covered(s, p)} :: 0 <= p < |s| ==> keep(p) == Covered(s, p)
  }

  lemma KeptEncoding(s: seq<Byte>, keep: nat -> bool, p: nat, c: int)
    requires KeepsCovered(s, keep) && EncodesAt(s, p, c)
    ensures KeepOnly(s, keep, p) == s[p..p + |Encode(c)|] + KeepOnly(s, keep, p + |Encode(c)|)
  {
    forall k | p <= k < p + |Encode(c)| ensures keep(k) {
      CoveredBy(s, p, c, k);
      assert Covered(s, k);
    }
    KeptRun(s, keep, p, |Encode(c)|);
  }

  lemma CoveredBy(s: seq<Byte>, p: nat, c: int, k: nat)
    requires EncodesAt(s, p, c) && p <= k < p + |Encode(c)|
    ensures Covered(s, k)
  {}

  lemma StrayAt(s: seq<Byte>, p: nat)
    requires p < |s| && Boundary(s, p) && s[p] >= 0x80 && SequenceLength(s, p) == 0
    ensures !Covered(s, p) && Boundary(s, p + 1)
  {
    forall i: nat, c | EncodesAt(s, i, c) && i <= p ensures i < p {
      if i == p {
        if c < 0x80 { EncodedAscii(s, p, c); } else { EncodedIsRecognised(s, p, c); }
      }
    }
  }

  lemma EncodedAscii(s: seq<Byte>, p: nat, c: int)
    requires EncodesAt(s, p, c) && c < 0x80
    ensures s[p] == c
  {
    assert s[p..p + 1][0] == s[p];
  }

  lemma {:induction false} RepairKeepsCovered(s: seq<Byte>, keep: nat -> bool, p: nat)
    requires KeepsCovered(s, keep) && p <= |s| && Boundary(s, p)
    ensures RepairTokens(TokensAt(s, p)) == KeepOnly(s, keep, p)
    decreases |s| - p
  {
    if p < |s| {
      ReplaceHere(s, keep, p);
      var n := StepSize(s, p);
      RepairKeepsCovered(s, keep, p + n);
      SameBehind(RepairTokens(TokensAt(s, p)), KeepOnly(s, keep, p), RepairToken(TokenAt(s, p)),
                 RepairTokens(TokensAt(s, p + n)), KeepOnly(s, keep, p + n));
    }
  }

  lemma SameBehind(a: seq<Byte>, b: seq<Byte>, out: seq<Byte>, x: seq<Byte>, y: seq<Byte>)
    requires a == out + x && b == out + y && x == y
    ensures a == b
  {}

  lemma ReplaceHere(s: seq<Byte>, keep: nat -> bool, p: nat)
    requires KeepsCovered(s, keep) && p < |s| && Boundary(s, p)
    ensures p + StepSize(s, p) <= |s| && Boundary(s, p + StepSize(s, p))
    ensures KeepOnly(s, keep, p) == RepairToken(TokenAt(s, p)) + KeepOnly(s, keep, p + StepSize(s, p))
  {
    if s[p] >= 0x80 && SequenceLength(s, p) == 0 {
      StrayAt(s, p);
    } else {
      var c := EncodedHere(s, p);
      BehindEncoding(s, p, c);
      KeptEncoding(s, keep, p, c);
    }
  }

  lemma EncodedHere(s: seq<Byte>, p: nat) returns (c: int)
    requires p < |s| && (s[p] < 0x80 || SequenceLength(s, p) > 0)
    ensures EncodesAt(s, p, c) && |Encode(c)| == StepSize(s, p)
  {
    if s[p] < 0x80 {
      EncodesByte(s, p);
      c := s[p];
    } else {
      RecognisedIsEncoded(s, p);
      c := CodePoint(s, p, SequenceLength(s, p));
    }
  }

  lemma EncodesByte(s: seq<Byte>, p: nat)
    requires p < |s| && s[p] < 0x80
    ensures EncodesAt(s, p, s[p]) && Encode(s[p]) == [s[p]] == s[p..p + 1]
  {}

  /** Repair replaces exactly the bytes that belong to no encoding in the string. */
  lemma RepairReplacesStray(s: seq<Byte>)
    ensures Repair(s) == ReplaceStray(s)
  {
    assert s[0..] == s;
    RepairOfTokens(s);
    TokensByPosition(s, 0);
    RepairKeepsCovered(s, (p: nat) => Covered(s, p), 0);
  }

  lemma {:induction false} KeepOnlyGrows(s: seq<Byte>, keep: nat -> bool, p: nat)
    requires p <= |s|
    ensures |KeepOnly(s, keep, p)| >= |s| - p
    ensures (exists q {:trigger keep(q)} :: p <= q < |s| && !keep(q)) ==> |KeepOnly(s, keep, p)| > |s| - p
    decreases |s| - p
  {
    if p < |s| { KeepOnlyGrows(s, keep, p + 1); }
  }

  ghost predicate AllCovered(s: seq<Byte>) {
    forall p {:trigger Covered(s, p)} :: 0 <= p < |s| ==> Covered(s, p)
  }

  /** A string is well-formed exactly when each of its bytes belongs to an encoding. */
  lemma WellFormedIffCovered(s: seq<Byte>)
    ensures WellFormed(s) <==> AllCovered(s)
  {
    var keep := (p: nat) => Covered(s, p);
    RepairIdentityIffWellFormed(s);
    RepairReplacesStray(s);
    KeepOnlyGrows(s, keep, 0);
    if AllCovered(s) {
      KeptRun(s, keep, 0, |s|);
      assert s[0..|s|] + [] == s;
    } else {
      var p :| 0 <= p < |s| && !Covered(s, p);
      assert !keep(p);
    }
  }
}
