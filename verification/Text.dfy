/** The library operations the HTTP code is built from: substring search, trimming, case-blind
    comparison and decimal numbers.  A `char` stands for one byte. */
module Text {
  const CRLF := "\r\n"
  const BLANK_LINE := "\r\n\r\n"

  // ---------------------------------------------------------------- searching

  predicate At(s: string, pat: string, i: int) {
    0 <= i && i + |pat| <= |s| && s[i..i + |pat|] == pat
  }

  /** `std::string_view::find`: the first occurrence at or after `from`, or -1. */
  function Find(s: string, pat: string, from: nat): (r: int)
    ensures r == -1 || (from <= r && At(s, pat, r))
    ensures forall i :: from <= i && (r == -1 || i < r) ==> !At(s, pat, i)
    decreases |s| - from
  {
    if from + |pat| > |s| then -1
    else if At(s, pat, from) then from
    else Find(s, pat, from + 1)
  }

  lemma FindIs(s: string, pat: string, from: nat, r: int)
    requires from <= r && At(s, pat, r)
    requires forall i :: from <= i < r ==> !At(s, pat, i)
    ensures Find(s, pat, from) == r
  {}

  lemma AtPrefix(s: string, t: string, pat: string, i: int)
    requires 0 <= i && i + |pat| <= |s| && s <= t
    ensures At(s, pat, i) == At(t, pat, i)
  {
    assert t[i..i + |pat|] == s[i..i + |pat|];
  }

  /** An occurrence found in a prefix is the one found in the whole. */
  lemma FindInPrefix(s: string, t: string, pat: string)
    requires s <= t && Find(s, pat, 0) >= 0
    ensures Find(t, pat, 0) == Find(s, pat, 0)
  {
    var r := Find(s, pat, 0);
    AtPrefix(s, t, pat, r);
    forall i | 0 <= i < r ensures !At(t, pat, i) { AtPrefix(s, t, pat, i); }
    FindIs(t, pat, 0, r);
  }

  /** An occurrence in the whole that ends inside a prefix is found in the prefix. */
  lemma FindShrinks(s: string, t: string, pat: string)
    requires s <= t && 0 <= Find(t, pat, 0) && Find(t, pat, 0) + |pat| <= |s|
    ensures Find(s, pat, 0) == Find(t, pat, 0)
  {
    var r := Find(t, pat, 0);
    AtPrefix(s, t, pat, r);
    forall i | 0 <= i < r ensures !At(s, pat, i) {
      if i + |pat| <= |s| { AtPrefix(s, t, pat, i); }
    }
    FindIs(s, pat, 0, r);
  }

  /** Searching may resume `|pat| - 1` bytes before the end of a part known to have no match. */
  lemma FindResumes(s: string, pat: string, scanned: nat, from: nat)
    requires scanned <= |s| && pat != "" && Find(s[..scanned], pat, 0) < 0
    requires from == 0 || from + |pat| - 1 == scanned
    ensures Find(s, pat, from) == Find(s, pat, 0)
  {
    forall i | 0 <= i < from ensures !At(s, pat, i) { AtPrefix(s[..scanned], s, pat, i); }
    var r := Find(s, pat, from);
    if r >= 0 {
      FindIs(s, pat, 0, r);
    }
  }

  lemma AtShift(s: string, t: string, pat: string, i: nat)
    ensures At(s + t, pat, |s| + i) == At(t, pat, i)
  {
    if i + |pat| <= |t| {
      assert (s + t)[|s| + i..|s| + i + |pat|] == t[i..i + |pat|];
    }
  }

  /** Searching a suffix. */
  lemma FindSuffix(s: string, pat: string, from: nat)
    requires from <= |s|
    ensures Find(s, pat, from) == if Find(s[from..], pat, 0) < 0 then -1 else from + Find(s[from..], pat, 0)
  {
    assert s == s[..from] + s[from..];
    forall i: nat ensures At(s, pat, from + i) == At(s[from..], pat, i) { AtShift(s[..from], s[from..], pat, i); }
    var r := Find(s[from..], pat, 0);
    if r >= 0 {
      forall i | from <= i < from + r ensures !At(s, pat, i) { assert !At(s[from..], pat, i - from); }
      FindIs(s, pat, from, from + r);
    } else {
      forall i | from <= i ensures !At(s, pat, i) {
        assert At(s, pat, from + (i - from)) == At(s[from..], pat, i - from);
      }
    }
  }

  lemma CharAt(s: string, c: char, i: int)
    ensures At(s, [c], i) <==> 0 <= i < |s| && s[i] == c
  {
    if 0 <= i < |s| { assert s[i..i + 1] == [s[i]]; }
  }

  predicate Free(s: string, c: char) {
    forall i :: 0 <= i < |s| ==> s[i] != c
  }

  lemma FindChar(s: string, c: char, t: string)
    requires Free(s, c)
    ensures Find(s + [c] + t, [c], 0) == |s|
  {
    var u := s + [c] + t;
    CharAt(u, c, |s|);
    forall i | 0 <= i < |s| ensures !At(u, [c], i) { CharAt(u, c, i); }
    FindIs(u, [c], 0, |s|);
  }

  lemma FindNoChar(s: string, c: char, from: nat)
    requires Free(s, c)
    ensures Find(s, [c], from) == -1
  {
    var r := Find(s, [c], from);
    if r >= 0 { CharAt(s, c, r); }
  }

  lemma NotFoundFree(s: string, c: char)
    requires Find(s, [c], 0) < 0
    ensures Free(s, c)
  {
    forall i | 0 <= i < |s| ensures s[i] != c { CharAt(s, c, i); }
  }

  lemma BeforeFirst(s: string, c: char, from: nat)
    requires Find(s, [c], from) >= 0
    ensures Find(s, [c], from) < |s| && s[Find(s, [c], from)] == c
    ensures Free(s[from..Find(s, [c], from)], c)
  {
    var r := Find(s, [c], from);
    CharAt(s, c, r);
    forall i | from <= i < r ensures s[i] != c { CharAt(s, c, i); }
  }

  // ---------------------------------------------------------------- lines

  predicate CrlfFree(s: string) {
    Find(s, CRLF, 0) == -1
  }

  lemma CrlfAt(s: string, i: int)
    ensures At(s, CRLF, i) <==> 0 <= i && i + 1 < |s| && s[i] == '\r' && s[i + 1] == '\n'
  {
    if 0 <= i && i + 1 < |s| { assert s[i..i + 2] == [s[i], s[i + 1]]; }
  }

  lemma CrlfFreeIff(s: string)
    ensures CrlfFree(s) <==> forall i :: 0 <= i && i + 1 < |s| && s[i] == '\r' ==> s[i + 1] != '\n'
  {
    var r := Find(s, CRLF, 0);
    if r >= 0 {
      CrlfAt(s, r);
    } else {
      forall i | 0 <= i && i + 1 < |s| && s[i] == '\r' ensures s[i + 1] != '\n' { CrlfAt(s, i); }
    }
  }

  lemma CrlfFreeSlice(s: string, i: nat, j: nat)
    requires CrlfFree(s) && i <= j <= |s|
    ensures CrlfFree(s[i..j])
  {
    CrlfFreeIff(s);
    CrlfFreeIff(s[i..j]);
  }

  lemma CrlfFreeConcat(s: string, t: string)
    requires CrlfFree(s) && CrlfFree(t)
    requires s == "" || t == "" || s[|s| - 1] != '\r' || t[0] != '\n'
    ensures CrlfFree(s + t)
  {
    CrlfFreeIff(s);
    CrlfFreeIff(t);
    CrlfFreeIff(s + t);
  }

  /** No CRLF can straddle the end of a CRLF-free line and the CRLF that closes it. */
  lemma FirstCrlf(line: string, rest: string)
    requires CrlfFree(line)
    ensures Find(line + CRLF + rest, CRLF, 0) == |line|
  {
    var s := line + CRLF + rest;
    CrlfFreeIff(line);
    CrlfAt(s, |line|);
    forall i | 0 <= i < |line| ensures !At(s, CRLF, i) { CrlfAt(s, i); }
    FindIs(s, CRLF, 0, |line|);
  }

  /** The lines of a text, split at every CRLF. */
  function Lines(s: string): (ls: seq<string>)
    ensures |ls| > 0
    decreases |s|
  {
    var p := Find(s, CRLF, 0);
    if p < 0 then [s] else [s[..p]] + Lines(s[p + 2..])
  }

  /** Each line followed by CRLF. */
  function Block(ls: seq<string>): string {
    if ls == [] then "" else ls[0] + CRLF + Block(ls[1..])
  }

  lemma {:induction false} LinesAreCrlfFree(s: string)
    ensures forall l :: l in Lines(s) ==> CrlfFree(l)
    decreases |s|
  {
    var p := Find(s, CRLF, 0);
    if p >= 0 {
      LinesAreCrlfFree(s[p + 2..]);
      CrlfFreeIff(s[..p]);
      forall i | 0 <= i && i + 1 < p ensures !(s[i] == '\r' && s[i + 1] == '\n') { CrlfAt(s, i); }
    }
  }

  /** Splitting undoes joining. */
  lemma {:induction false} LinesOfBlock(ls: seq<string>)
    requires ls != [] && forall l :: l in ls ==> CrlfFree(l)
    ensures |Block(ls)| >= 2
    ensures Lines(Block(ls)[..|Block(ls)| - 2]) == ls
  {
    assert ls[0] in ls;
    if |ls| == 1 {
      LinesOfOne(ls);
    } else {
      LinesOfBlock(ls[1..]);
      LinesOfMore(ls);
    }
  }

  lemma LinesOfOne(ls: seq<string>)
    requires |ls| == 1 && CrlfFree(ls[0])
    ensures |Block(ls)| >= 2 && Lines(Block(ls)[..|Block(ls)| - 2]) == ls
  {
    LinesOfLast(ls[0]);
    assert ls == [ls[0]] && Block(ls) == ls[0] + CRLF;
  }

  lemma LinesOfMore(ls: seq<string>)
    requires |ls| > 1 && CrlfFree(ls[0]) && |Block(ls[1..])| >= 2
    requires Lines(Block(ls[1..])[..|Block(ls[1..])| - 2]) == ls[1..]
    ensures |Block(ls)| >= 2 && Lines(Block(ls)[..|Block(ls)| - 2]) == ls
  {
    BlockWithoutEnd(ls);
    LinesBehind(ls[0], Block(ls[1..])[..|Block(ls[1..])| - 2]);
    assert ls == [ls[0]] + ls[1..];
  }

  lemma LinesOfLast(l: string)
    requires CrlfFree(l)
    ensures (l + CRLF)[..|l|] == l && Lines(l) == [l]
  {}

  lemma BlockWithoutEnd(ls: seq<string>)
    requires ls != [] && |Block(ls[1..])| >= 2
    ensures |Block(ls)| >= 2
    ensures Block(ls)[..|Block(ls)| - 2] == ls[0] + CRLF + Block(ls[1..])[..|Block(ls[1..])| - 2]
  {}

  lemma LinesBehind(l: string, rest: string)
    requires CrlfFree(l)
    ensures Lines(l + CRLF + rest) == [l] + Lines(rest)
  {
    FirstCrlf(l, rest);
    assert (l + CRLF + rest)[|l| + 2..] == rest;
    assert (l + CRLF + rest)[..|l|] == l;
  }

  lemma BlankLineAt(s: string, i: int)
    ensures At(s, BLANK_LINE, i) <==> At(s, CRLF, i) && At(s, CRLF, i + 2)
  {
    if 0 <= i && i + 4 <= |s| {
      assert s[i..i + 4] == s[i..i + 2] + s[i + 2..i + 4];
      assert BLANK_LINE == CRLF + CRLF;
      assert BLANK_LINE[..2] == CRLF && BLANK_LINE[2..] == CRLF;
      if s[i..i + 4] == BLANK_LINE {
        assert s[i..i + 2] == s[i..i + 4][..2];
        assert s[i + 2..i + 4] == s[i..i + 4][2..];
      }
    }
  }

  lemma AtBehindLine(l: string, after: string, pat: string, i: nat)
    ensures At(l + CRLF + after, pat, |l| + 2 + i) == At(after, pat, i)
  {
    assert |l + CRLF| == |l| + 2;
    AtShift(l + CRLF, after, pat, i);
  }

  /** A line in front moves the terminator along unless a blank line follows it at once. */
  lemma TerminatorBehindLine(l: string, after: string)
    requires CrlfFree(l) && Find(after, BLANK_LINE, 0) >= 0 && !At(after, CRLF, 0)
    ensures Find(l + CRLF + after, BLANK_LINE, 0) == |l| + 2 + Find(after, BLANK_LINE, 0)
  {
    var s, r := l + CRLF + after, Find(after, BLANK_LINE, 0);
    var k := |l| + 2 + r;
    AtBehindLine(l, after, BLANK_LINE, r);
    forall i | 0 <= i < k ensures !At(s, BLANK_LINE, i) {
      assert !At(after, BLANK_LINE, i - |l| - 2);
      NotBeforeTerminator(l, after, i);
    }
    FindIs(s, BLANK_LINE, 0, k);
  }

  lemma NotBeforeTerminator(l: string, after: string, i: nat)
    requires CrlfFree(l) && !At(after, CRLF, 0)
    requires i >= |l| + 2 ==> !At(after, BLANK_LINE, i - |l| - 2)
    ensures !At(l + CRLF + after, BLANK_LINE, i)
  {
    var s := l + CRLF + after;
    BlankLineAt(s, i);
    if i < |l| {
      FirstCrlf(l, after);
    } else if i == |l| {
      AtBehindLine(l, after, CRLF, 0);
    } else if i == |l| + 1 {
      CrlfAt(s, i);
    } else {
      AtBehindLine(l, after, BLANK_LINE, i - |l| - 2);
    }
  }

  lemma TerminatorBehindLastLine(l: string, rest: string)
    requires CrlfFree(l)
    ensures Find(l + CRLF + (CRLF + rest), BLANK_LINE, 0) == |l|
  {
    var s := l + CRLF + (CRLF + rest);
    CrlfAt(s, |l|);
    CrlfAt(s, |l| + 2);
    BlankLineAt(s, |l|);
    FirstCrlf(l, CRLF + rest);
    forall i | 0 <= i < |l| ensures !At(s, BLANK_LINE, i) { BlankLineAt(s, i); }
    FindIs(s, BLANK_LINE, 0, |l|);
  }

  /** The header terminator of a block of non-empty lines is the one that closes it. */
  lemma {:induction false} TerminatorOfBlock(ls: seq<string>, rest: string)
    requires ls != [] && forall l :: l in ls ==> l != "" && CrlfFree(l)
    ensures |Block(ls)| >= 2
    ensures Find(Block(ls) + CRLF + rest, BLANK_LINE, 0) == |Block(ls)| - 2
  {
    var l, tail := ls[0], ls[1..];
    assert l in ls && forall k :: k in tail ==> k in ls;
    BlockInFront(ls, rest);
    if tail == [] {
      assert CRLF + rest == Block([]) + CRLF + rest;
      TerminatorBehindLastLine(l, rest);
    } else {
      TerminatorOfBlock(tail, rest);
      var after := Block(tail) + CRLF + rest;
      assert tail[0] in tail;
      NoBlankAtStart(tail, rest);
      TerminatorBehindLine(l, after);
    }
  }

  lemma BlockInFront(ls: seq<string>, rest: string)
    requires ls != []
    ensures Block(ls) + CRLF + rest == ls[0] + CRLF + (Block(ls[1..]) + CRLF + rest)
    ensures |Block(ls)| == |ls[0]| + 2 + |Block(ls[1..])|
  {}

  lemma NoBlankAtStart(ls: seq<string>, rest: string)
    requires ls != [] && ls[0] != "" && CrlfFree(ls[0])
    ensures !At(Block(ls) + CRLF + rest, CRLF, 0)
  {
    var more := Block(ls[1..]) + CRLF + rest;
    assert Block(ls) + CRLF + rest == ls[0] + CRLF + more;
    FirstCrlf(ls[0], more);
  }

  // ---------------------------------------------------------------- trimming

  /** `std::isspace` in the "C" locale. */
  predicate IsSpace(c: char) {
    c == ' ' || c == '\t' || c == '\n' || c == '\U{0B}' || c == '\U{0C}' || c == '\r'
  }

  function SkipSpaces(s: string, i: nat): (b: nat)
    requires i <= |s|
    ensures i <= b <= |s| && (b < |s| ==> !IsSpace(s[b]))
    ensures forall k :: i <= k < b ==> IsSpace(s[k])
    decreases |s| - i
  {
    if i < |s| && IsSpace(s[i]) then SkipSpaces(s, i + 1) else i
  }

  function DropSpaces(s: string, b: nat, e: nat): (r: nat)
    requires b <= e <= |s|
    ensures b <= r <= e && (r > b ==> !IsSpace(s[r - 1]))
    ensures forall k :: r <= k < e ==> IsSpace(s[k])
    decreases e
  {
    if e > b && IsSpace(s[e - 1]) then DropSpaces(s, b, e - 1) else e
  }

  function Trim(s: string): string {
    var b := SkipSpaces(s, 0);
    s[b..DropSpaces(s, b, |s|)]
  }

  method TrimView(s: string) returns (r: string)
    ensures r == Trim(s)
  {
    var begin := 0;
    while begin < |s| && IsSpace(s[begin])
      invariant 0 <= begin <= |s| && SkipSpaces(s, begin) == SkipSpaces(s, 0)
    {
      begin := begin + 1;
    }
    var end := |s|;
    while end > begin && IsSpace(s[end - 1])
      invariant begin <= end <= |s| && DropSpaces(s, begin, end) == DropSpaces(s, begin, |s|)
    {
      end := end - 1;
    }
    r := s[begin..end];
  }

  predicate Trimmed(s: string) {
    s == "" || (!IsSpace(s[0]) && !IsSpace(s[|s| - 1]))
  }

  /** Trimming yields the one trimmed stretch that has only whitespace around it. */
  lemma TrimIs(s: string, left: string, mid: string, right: string)
    requires s == left + mid + right && Trimmed(mid)
    requires (forall c :: c in left ==> IsSpace(c)) && (forall c :: c in right ==> IsSpace(c))
    ensures Trim(s) == mid
  {
    var b := SkipSpaces(s, 0);
    var e := DropSpaces(s, b, |s|);
    forall k | 0 <= k < |s| && (k < |left| || |left| + |mid| <= k) ensures IsSpace(s[k]) {
      if k < |left| { assert s[k] == left[k]; } else { assert s[k] == right[k - |left| - |mid|]; }
    }
    if mid != "" {
      assert s[|left|] == mid[0] && s[|left| + |mid| - 1] == mid[|mid| - 1];
    }
  }

  lemma TrimIsTrimmed(s: string)
    ensures Trimmed(Trim(s))
  {}

  lemma TrimIdempotent(s: string)
    requires Trimmed(s)
    ensures Trim(s) == s
  {
    TrimIs(s, "", s, "");
  }

  lemma TrimOfPadded(s: string)
    ensures Trim(" " + s) == Trim(s)
  {
    var b := SkipSpaces(s, 0);
    var e := DropSpaces(s, b, |s|);
    TrimIsTrimmed(s);
    assert " " + s == (" " + s[..b]) + Trim(s) + s[e..];
    TrimIs(" " + s, " " + s[..b], Trim(s), s[e..]);
  }

  lemma TrimSlice(s: string) returns (i: nat, j: nat)
    ensures i <= j <= |s| && Trim(s) == s[i..j]
  {
    i := SkipSpaces(s, 0);
    j := DropSpaces(s, i, |s|);
  }

  // ---------------------------------------------------------------- case

  /** `std::tolower` in the "C" locale. */
  function Lower(c: char): char {
    if 'A' <= c <= 'Z' then c - 'A' + 'a' else c
  }

  predicate EqualsIgnoreCase(a: string, b: string) {
    |a| == |b| && forall i :: 0 <= i < |a| ==> Lower(a[i]) == Lower(b[i])
  }

  method CaseInsensitiveEquals(a: string, b: string) returns (r: bool)
    ensures r == EqualsIgnoreCase(a, b)
  {
    if |a| != |b| {
      return false;
    }
    for i := 0 to |a|
      invariant forall k :: 0 <= k < i ==> Lower(a[k]) == Lower(b[k])
    {
      if Lower(a[i]) != Lower(b[i]) {
        return false;
      }
    }
    return true;
  }

  // ---------------------------------------------------------------- decimal numbers

  predicate IsDigit(c: char) {
    '0' <= c <= '9'
  }

  predicate AllDigits(s: string) {
    forall i :: 0 <= i < |s| ==> IsDigit(s[i])
  }

  function DigitValue(c: char): nat
    requires IsDigit(c)
  {
    (c - '0') as nat
  }

  function DecValue(s: string): nat
    requires AllDigits(s)
  {
    if s == "" then 0 else DecValue(s[..|s| - 1]) * 10 + DigitValue(s[|s| - 1])
  }

  function DigitChar(d: nat): (c: char)
    requires d < 10
    ensures IsDigit(c) && DigitValue(c) == d
  {
    '0' + d as char
  }

  /** `std::to_string` of a non-negative number. */
  function Dec(n: nat): (s: string)
    ensures s != "" && AllDigits(s)
  {
    if n < 10 then [DigitChar(n)] else Dec(n / 10) + [DigitChar(n % 10)]
  }

  lemma {:induction false} DecRoundTrip(n: nat)
    ensures DecValue(Dec(n)) == n
  {
    if n < 10 {
      assert Dec(n)[..0] == "";
    } else {
      DecRoundTrip(n / 10);
      assert Dec(n)[..|Dec(n)| - 1] == Dec(n / 10);
    }
  }

  lemma DigitsAreNotSpecial(s: string)
    requires AllDigits(s)
    ensures Free(s, ' ') && Free(s, ':') && CrlfFree(s)
    ensures forall c :: c in s ==> !IsSpace(c)
    ensures Trimmed(s)
  {
    CrlfFreeIff(s);
  }
}
