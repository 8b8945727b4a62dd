/** The header lines of a message, told from the bytes: which of them are malformed, what they declare, and
    which value decides the length of the body. */
module FieldGrammar {
  import opened Wrappers
  import opened Text
  import opened Characters
  import opened Http

  /** Searching for a character finds the end of the part before it. */
  lemma Cut(line: string, left: string, c: char, right: string)
    requires line == left + [c] + right && Free(left, c)
    ensures Find(line, [c], 0) == |left| && line[..|left|] == left && line[|left| + 1..] == right
  {
    FindChar(left, c, right);
  }

  lemma Uncut(line: string, c: char)
    requires Find(line, [c], 0) >= 0
    ensures var i := Find(line, [c], 0);
            i < |line| && line == line[..i] + [c] + line[i + 1..] && Free(line[..i], c)
  {
    var i := Find(line, [c], 0);
    BeforeFirst(line, c, 0);
    Halves(line, i);
  }

  lemma Halves(s: string, i: nat)
    requires i < |s|
    ensures s == s[..i] + [s[i]] + s[i + 1..] && s[0..i] == s[..i]
  {}

  lemma RestHalves(s: string, from: nat, i: nat)
    requires from <= i < |s|
    ensures s[from..] == s[from..i] + [s[i]] + s[i + 1..]
  {}

  // ---------------------------------------------------------------- the header lines

  ghost predicate ColonSplit(line: string, left: string, right: string) {
    line == left + ":" + right && Free(left, ':')
  }

  /** What is before the first colon, and what is behind it, without the white space around it. */
  ghost predicate Declares(line: string, name: string, value: string) {
    name != "" && exists left, right :: ColonSplit(line, left, right) && Strips(left, name) && Strips(right, value)
  }

  ghost predicate NamelessAt(line: string, colon: int) {
    0 <= colon < |line| && line[colon] == ':' && AllWhite(line[..colon])
  }

  /** No colon, or nothing but white space before the first one. */
  ghost predicate MalformedLine(line: string) {
    line != "" && (Free(line, ':') || exists colon :: NamelessAt(line, colon))
  }

  lemma DeclaresIff(line: string, f: Field)
    ensures ParseFieldLine(line) == Some(f) <==> Declares(line, f.name, f.value)
  {
    if Declares(line, f.name, f.value) {
      var left, right :| ColonSplit(line, left, right) && Strips(left, f.name) && Strips(right, f.value);
      DeclaredIsParsed(line, f, left, right);
    }
    if ParseFieldLine(line) == Some(f) { ParsedIsDeclared(line, f); }
  }

  lemma DeclaredIsParsed(line: string, f: Field, left: string, right: string)
    requires f.name != "" && ColonSplit(line, left, right) && Strips(left, f.name) && Strips(right, f.value)
    ensures ParseFieldLine(line) == Some(f)
  {
    Cut(line, left, ':', right);
    StripsTwo(left, right, f);
  }

  lemma ParsedIsDeclared(line: string, f: Field)
    requires ParseFieldLine(line) == Some(f)
    ensures Declares(line, f.name, f.value)
  {
    var colon := Find(line, ":", 0);
    Uncut(line, ':');
    SplitDeclares(line, f, line[..colon], line[colon + 1..]);
  }

  lemma SplitDeclares(line: string, f: Field, left: string, right: string)
    requires ColonSplit(line, left, right) && f.name != "" && Trim(left) == f.name && Trim(right) == f.value
    ensures Declares(line, f.name, f.value)
  {
    StripsTwo(left, right, f);
  }

  lemma StripsTwo(left: string, right: string, f: Field)
    ensures Strips(left, f.name) && Strips(right, f.value) <==> Trim(left) == f.name && Trim(right) == f.value
  {
    TrimIff(left, f.name);
    TrimIff(right, f.value);
  }

  lemma TrimEmptyIff(s: string)
    ensures Trim(s) == "" <==> AllWhite(s)
  {
    TrimIff(s, "");
    if AllWhite(s) { assert Around(s, s, "", ""); }
  }

  lemma MalformedIff(line: string)
    ensures line != "" && ParseFieldLine(line).None? <==> MalformedLine(line)
  {
    var colon := Find(line, ":", 0);
    if colon < 0 {
      NotFoundFree(line, ':');
    } else {
      Uncut(line, ':');
      TrimEmptyIff(line[..colon]);
      if NamelessAt(line, colon) {}
      forall k | NamelessAt(line, k) ensures k == colon { FirstNameless(line, k); }
    }
  }

  lemma FirstNameless(line: string, k: int)
    requires NamelessAt(line, k)
    ensures Find(line, ":", 0) == k
  {
    CharAt(line, ':', k);
    forall i | 0 <= i < k ensures !At(line, ":", i) {
      CharAt(line, ':', i);
      assert line[..k][i] == line[i];
    }
    FindIs(line, ":", 0, k);
  }

  // ---------------------------------------------------------------- the fields

  ghost predicate NoneMalformed(ls: seq<string>) {
    forall l :: l in ls ==> !MalformedLine(l)
  }

  ghost predicate Mentions(line: string, name: string) {
    exists value :: Declares(line, name, value)
  }

  /** Line `i` declares the field and no line before it one of exactly that name. */
  ghost predicate FirstAt(ls: seq<string>, i: int, name: string, value: string) {
    0 <= i < |ls| && Declares(ls[i], name, value) && forall j :: 0 <= j < i ==> !Mentions(ls[j], name)
  }

  ghost predicate First(ls: seq<string>, name: string, value: string) {
    exists i :: FirstAt(ls, i, name, value)
  }

  lemma MentionsIff(line: string, name: string)
    ensures Mentions(line, name) <==> ParseFieldLine(line).Some? && ParseFieldLine(line).value.name == name
  {
    forall value | Declares(line, name, value) ensures ParseFieldLine(line) == Some(Field(name, value)) {
      DeclaresIff(line, Field(name, value));
    }
    if ParseFieldLine(line).Some? { DeclaresIff(line, ParseFieldLine(line).value); }
  }

  lemma FirstOfMore(ls: seq<string>, name: string, value: string)
    requires ls != []
    ensures First(ls, name, value) <==>
            Declares(ls[0], name, value) || (!Mentions(ls[0], name) && First(ls[1..], name, value))
  {
    if Declares(ls[0], name, value) { assert FirstAt(ls, 0, name, value); }
    if First(ls[1..], name, value) && !Mentions(ls[0], name) {
      var i :| FirstAt(ls[1..], i, name, value);
      Behind(ls, i, name, value);
    }
    if First(ls, name, value) {
      var i :| FirstAt(ls, i, name, value);
      if i > 0 { Ahead(ls, i, name, value); }
    }
  }

  lemma Behind(ls: seq<string>, i: int, name: string, value: string)
    requires ls != [] && FirstAt(ls[1..], i, name, value) && !Mentions(ls[0], name)
    ensures FirstAt(ls, i + 1, name, value)
  {
    forall j | 0 <= j < i + 1 ensures !Mentions(ls[j], name) {
      if j > 0 { assert ls[j] == ls[1..][j - 1]; }
    }
  }

  lemma Ahead(ls: seq<string>, i: int, name: string, value: string)
    requires i > 0 && FirstAt(ls, i, name, value)
    ensures !Mentions(ls[0], name) && FirstAt(ls[1..], i - 1, name, value)
  {
    forall j | 0 <= j < i - 1 ensures !Mentions(ls[1..][j], name) { assert ls[j + 1] == ls[1..][j]; }
  }

  /** The header lines are accepted when none of them is malformed. */
  lemma {:induction false} FoldAccepts(ls: seq<string>, acc: Fields)
    ensures FoldFields(ls, acc).Some? <==> NoneMalformed(ls)
  {
    if ls != [] {
      MalformedIff(ls[0]);
      assert forall l :: l in ls <==> l == ls[0] || l in ls[1..];
      if AddLine(acc, ls[0]).Some? { FoldAccepts(ls[1..], AddLine(acc, ls[0]).value); }
    }
  }

  ghost predicate Holds(ls: seq<string>, acc: Fields, f: Field) {
    f in acc || (!HasName(acc, f.name) && First(ls, f.name, f.value))
  }

  /** The fields are the first declarations of their names. */
  lemma {:induction false} FoldHolds(ls: seq<string>, acc: Fields, f: Field)
    requires FoldFields(ls, acc).Some?
    ensures f in FoldFields(ls, acc).value <==> Holds(ls, acc, f)
  {
    if ls != [] {
      var more := AddLine(acc, ls[0]).value;
      FoldHolds(ls[1..], more, f);
      HoldsStep(ls, acc, more, f);
    }
  }

  lemma HoldsStep(ls: seq<string>, acc: Fields, more: Fields, f: Field)
    requires ls != [] && AddLine(acc, ls[0]) == Some(more)
    ensures Holds(ls[1..], more, f) <==> Holds(ls, acc, f)
  {
    FirstOfMore(ls, f.name, f.value);
    MentionsIff(ls[0], f.name);
    DeclaresIff(ls[0], f);
    if ls[0] != "" { AddedIff(acc, ParseFieldLine(ls[0]).value, f); }
  }

  lemma AddedIff(acc: Fields, g: Field, f: Field)
    ensures f in AddField(acc, g) <==> f in acc || (f == g && !HasName(acc, g.name))
    ensures HasName(AddField(acc, g), f.name) <==> HasName(acc, f.name) || f.name == g.name
  {
    var more := AddField(acc, g);
    if !HasName(acc, g.name) { assert g in more; }
    forall h | h in acc ensures h in more {}
  }

  ghost predicate FieldsAre(ls: seq<string>, fields: Fields) {
    forall name, value :: Field(name, value) in fields <==> First(ls, name, value)
  }

  lemma FieldsFolded(ls: seq<string>, fields: Fields)
    requires FoldFields(ls, []) == Some(fields)
    ensures FieldsAre(ls, fields)
  {
    forall name, value ensures Field(name, value) in fields <==> First(ls, name, value) {
      FoldHolds(ls, [], Field(name, value));
    }
  }

  // ---------------------------------------------------------------- the length

  /** The value that decides the length of the body: that of a field called Content-Length in any case, or
      None if no line declares one.  Under several spellings of the name any of them may decide. */
  ghost predicate LengthValue(ls: seq<string>, v: Option<string>) {
    match v
    case None => forall l, name :: l in ls && Mentions(l, name) ==> !SameName(name, "content-length")
    case Some(value) => exists name :: First(ls, name, value) && SameName(name, "content-length")
  }

  lemma {:induction false} MentionedFirst(ls: seq<string>, l: string, name: string) returns (value: string)
    requires l in ls && Mentions(l, name)
    ensures First(ls, name, value)
  {
    if Mentions(ls[0], name) {
      value :| Declares(ls[0], name, value);
    } else {
      value := MentionedFirst(ls[1..], l, name);
    }
    FirstOfMore(ls, name, value);
  }

  lemma {:induction false} FoundField(fs: Fields, name: string)
    ensures match FindField(fs, name)
            case None => NoField(fs, name)
            case Some(f) => f in fs && EqualsIgnoreCase(f.name, name)
  {
    if fs != [] && !EqualsIgnoreCase(fs[0].name, name) { FoundField(fs[1..], name); }
  }

  function ValueOf(f: Option<Field>): Option<string> {
    match f
    case None => None
    case Some(field) => Some(field.value)
  }

  lemma LengthFound(ls: seq<string>, fields: Fields, order: Order)
    requires IsOrder(order) && FoldFields(ls, []) == Some(fields)
    ensures LengthValue(ls, ValueOf(FindField(order(fields), "content-length")))
  {
    var name := "content-length";
    FoundField(order(fields), name);
    SameMembers(order(fields), fields);
    if FindField(order(fields), name).Some? {
      var f := FindField(order(fields), name).value;
      FoldHolds(ls, [], f);
      SameNameIff(f.name, name);
    } else {
      forall l, n | l in ls && Mentions(l, n) ensures !SameName(n, name) {
        var value := MentionedFirst(ls, l, n);
        FoldHolds(ls, [], Field(n, value));
        SameNameIff(n, name);
      }
    }
  }

  predicate Number(v: string) {
    forall i :: 0 <= i < |v| ==> Digit(v[i])
  }
}
