/** The character classes of the "C" locale by their ASCII codes, names without regard to case, and
    decimal numbers digit by digit. */
module Characters {
  import opened Text

  /** Tab, line feed, vertical tab, form feed, carriage return or blank. */
  predicate White(c: char) {
    9 <= c as int <= 13 || c as int == 32
  }

  predicate Digit(c: char) {
    48 <= c as int <= 57
  }

  /** An upper-case letter and its lower-case form. */
  predicate CasesOf(upper: char, lower: char) {
    65 <= upper as int <= 90 && lower as int == upper as int + 32
  }

  predicate SameLetter(c: char, d: char) {
    c == d || CasesOf(c, d) || CasesOf(d, c)
  }

  /** The names differ at most in the case of letters. */
  predicate SameName(a: string, b: string) {
    |a| == |b| && forall i :: 0 <= i < |a| ==> SameLetter(a[i], b[i])
  }

  lemma Classes(c: char)
    ensures IsSpace(c) <==> White(c)
    ensures IsDigit(c) <==> Digit(c)
    ensures Digit(c) ==> DigitValue(c) == c as int - 48
  {}

  lemma SameLetterIff(c: char, d: char)
    ensures SameLetter(c, d) <==> Lower(c) == Lower(d)
  {
    assert 'A' as int == 65 && 'Z' as int == 90 && 'a' as int == 97;
  }

  /** Comparing in lower case compares without regard to case. */
  lemma SameNameIff(a: string, b: string)
    ensures EqualsIgnoreCase(a, b) <==> SameName(a, b)
  {
    if |a| == |b| {
      forall i | 0 <= i < |a| ensures Lower(a[i]) == Lower(b[i]) <==> SameLetter(a[i], b[i]) {
        SameLetterIff(a[i], b[i]);
      }
    }
  }

  lemma AllDigitsIff(s: string)
    ensures AllDigits(s) <==> forall i :: 0 <= i < |s| ==> Digit(s[i])
  {
    forall i | 0 <= i < |s| ensures IsDigit(s[i]) <==> Digit(s[i]) { Classes(s[i]); }
  }

  /** One more digit multiplies by ten and adds. */
  lemma NextDigit(s: string, c: char)
    requires AllDigits(s) && Digit(c)
    ensures AllDigits(s + [c]) && DecValue(s + [c]) == 10 * DecValue(s) + (c as int - 48)
    ensures DecValue("") == 0
  {
    Classes(c);
    assert (s + [c])[..|s|] == s;
  }

  /** A printed number has no leading zero. */
  lemma {:induction false} NoLeadingZero(n: nat)
    ensures n > 0 ==> Dec(n)[0] as int != 48
  {
    if n >= 10 { NoLeadingZero(n / 10); }
  }

  ghost predicate AllWhite(s: string) {
    forall i :: 0 <= i < |s| ==> White(s[i])
  }

  /** No white space at either end. */
  ghost predicate Bare(s: string) {
    s == "" || (!White(s[0]) && !White(s[|s| - 1]))
  }

  ghost predicate Around(s: string, left: string, mid: string, right: string) {
    s == left + mid + right && AllWhite(left) && AllWhite(right) && Bare(mid)
  }

  /** `t` is `s` without the white space around it. */
  ghost predicate Strips(s: string, t: string) {
    exists left, right :: Around(s, left, t, right)
  }

  lemma TrimIff(s: string, t: string)
    ensures Trim(s) == t <==> Strips(s, t)
  {
    if Strips(s, t) {
      var left, right :| Around(s, left, t, right);
      AroundIsTrim(s, left, t, right);
    }
    TrimmedAround(s);
  }

  lemma AroundIsTrim(s: string, left: string, t: string, right: string)
    requires Around(s, left, t, right)
    ensures Trim(s) == t
  {
    forall c | c in left ensures IsSpace(c) { Classes(c); }
    forall c | c in right ensures IsSpace(c) { Classes(c); }
    if t != "" {
      Classes(t[0]);
      Classes(t[|t| - 1]);
    }
    TrimIs(s, left, t, right);
  }

  lemma TrimmedAround(s: string)
    ensures Strips(s, Trim(s))
  {
    var b := SkipSpaces(s, 0);
    var e := DropSpaces(s, b, |s|);
    forall k | 0 <= k < b ensures White(s[..b][k]) { Classes(s[k]); }
    forall k | 0 <= k < |s| - e ensures White(s[e..][k]) { Classes(s[e + k]); }
    ThreeParts(s, b, e);
    TrimIsBare(s);
    assert Around(s, s[..b], Trim(s), s[e..]);
  }

  lemma ThreeParts(s: string, b: nat, e: nat)
    requires b <= e <= |s|
    ensures s == s[..b] + s[b..e] + s[e..]
  {}

  lemma TrimIsBare(s: string)
    ensures Bare(Trim(s))
  {
    TrimIsTrimmed(s);
    var t := Trim(s);
    if t != "" {
      Classes(t[0]);
      Classes(t[|t| - 1]);
    }
  }
}
