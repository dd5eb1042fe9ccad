/** Names with a number in brackets at the end. */
module NameParts {
  import opened Machine
  import opened Decimals

  datatype Kind = BaseNameOnly | WithIdNoSpace | WithIdSpace

  datatype Parts = Parts(base: string, kind: Kind, id: word)

  predicate LineFree(s: string) {
    forall i :: 0 <= i < |s| ==> s[i] != '\n' && s[i] != '\r'
  }

  // ----- What the pattern says

  /** A name read as base, optional space and bracketed digits. */
  ghost predicate Reads(name: string, base: string, space: string, digits: string) {
    && name == base + space + "(" + digits + ")"
    && (space == "" || space == " ")
    && digits != "" && AllDigits(digits) && LineFree(base)
  }

  // ----- How it is read

  /** Where the digits that end at e begin. */
  function RunStart(s: string, e: nat): (j: nat)
    requires e <= |s|
    ensures j <= e && (forall k :: j <= k < e ==> IsDigit(s[k])) && (j > 0 ==> !IsDigit(s[j - 1]))
  {
    if e == 0 || !IsDigit(s[e - 1]) then e else RunStart(s, e - 1)
  }

  /** The position of the bracket of a number at the end, or -1. */
  function BracketAt(name: string): (p: int)
    ensures -1 <= p && (p >= 0 ==> p + 2 < |name| && name[p] == '(' && name[|name| - 1] == ')'
                                   && AllDigits(name[p + 1..|name| - 1]))
  {
    if name == "" || name[|name| - 1] != ')' then -1
    else
      var j := RunStart(name, |name| - 1);
      if j < |name| - 1 && j > 0 && name[j - 1] == '(' then j - 1 else -1
  }

  /** The length of the base before a bracket: the shortest one, so that a space goes to the number. */
  function BaseEnd(name: string, p: nat): (b: nat)
    requires p <= |name|
    ensures b <= p && (b == p || (b == p - 1 && name[b] == ' '))
  {
    if p > 0 && name[p - 1] == ' ' then p - 1 else p
  }

  function Parse(name: string): Parts {
    var p := BracketAt(name);
    if p < 0 || !LineFree(name[..BaseEnd(name, p)]) then Parts(name, BaseNameOnly, 0)
    else
      var b := BaseEnd(name, p);
      Parts(name[..b], if b < p then WithIdSpace else WithIdNoSpace, Value(name[p + 1..|name| - 1]) % WORD)
  }

  function Print(t: Parts): string {
    match t.kind
    case BaseNameOnly => t.base
    case WithIdNoSpace => t.base + "(" + Show(t.id) + ")"
    case WithIdSpace => t.base + " (" + Show(t.id) + ")"
  }

  // ----- That they agree

  lemma {:induction false} RunStartIs(s: string, j: nat, e: nat)
    requires 0 < j <= e <= |s| && AllDigits(s[j..e]) && !IsDigit(s[j - 1])
    ensures RunStart(s, e) == j
  {
    if j < e {
      assert s[j..e][e - 1 - j] == s[e - 1];
      assert s[j..e - 1] == s[j..e][..e - 1 - j];
      RunStartIs(s, j, e - 1);
    }
  }

  lemma BracketIs(name: string, front: string, digits: string)
    requires name == front + "(" + digits + ")" && digits != "" && AllDigits(digits)
    ensures BracketAt(name) == |front| && name[..|front|] == front && name[|front| + 1..|name| - 1] == digits
  {
    var j := |front| + 1;
    assert name[j..|name| - 1] == digits;
    RunStartIs(name, j, |name| - 1);
  }

  /** The base ends before the space if there is one. */
  lemma BaseEndIs(name: string, front: string, base: string, space: string)
    requires front <= name && front == base + space && (space == " " || (space == "" && NoSpaceAtEnd(base)))
    ensures BaseEnd(name, |front|) == |base| && name[..|base|] == base
  {
    assert name[..|front|] == front;
    assert forall i :: 0 <= i < |front| ==> name[i] == front[i];
  }

  predicate NoSpaceAtEnd(s: string) {
    s == "" || s[|s| - 1] != ' '
  }

  /** How a name of the pattern's form with the shortest base is parsed. */
  lemma ParseIs(name: string, base: string, space: string, digits: string)
    requires Reads(name, base, space, digits) && (space == "" ==> NoSpaceAtEnd(base))
    ensures Parse(name) == Parts(base, if space == " " then WithIdSpace else WithIdNoSpace, Value(digits) % WORD)
  {
    hide BracketAt, BaseEnd, Value, AllDigits, LineFree;
    var front := base + space;
    BracketIs(name, front, digits);
    BaseEndIs(name, front, base, space);
  }

  /** A name that the pattern reads is parsed with the shortest base. */
  lemma ParseReads(name: string, base: string, space: string, digits: string)
    requires Reads(name, base, space, digits)
    ensures var t := Parse(name);
            && t.kind != BaseNameOnly && |t.base| <= |base| && t.id == Value(digits) % WORD
            && Reads(name, t.base, if t.kind == WithIdSpace then " " else "", digits)
            && (t.kind == WithIdNoSpace ==> NoSpaceAtEnd(t.base))
  {
    hide Parse, Value, AllDigits;
    if space == "" && !NoSpaceAtEnd(base) {
      var shorter := base[..|base| - 1];
      assert base == shorter + " ";
      assert name == shorter + " " + "(" + digits + ")";
      ParseIs(name, shorter, " ", digits);
    } else {
      ParseIs(name, base, space, digits);
    }
  }

  /** A name that the pattern does not read is all base. */
  lemma ParseWhole(name: string)
    requires Parse(name).kind == BaseNameOnly
    ensures Parse(name).base == name
    ensures !exists base, space, digits :: Reads(name, base, space, digits)
  {
    if exists base, space, digits :: Reads(name, base, space, digits) {
      var base, space, digits :| Reads(name, base, space, digits);
      ParseReads(name, base, space, digits);
    }
  }

  /** The base of a parsed name has no line break and, without a space, no space at its end. */
  predicate Proper(t: Parts) {
    && LineFree(t.base)
    && (t.kind == WithIdNoSpace ==> NoSpaceAtEnd(t.base))
  }

  lemma ParseProper(name: string)
    requires LineFree(name)
    ensures Proper(Parse(name))
  {
  }

  /** A printed number is read back. */
  lemma ParsePrint(t: Parts)
    requires t.kind != BaseNameOnly && Proper(t)
    ensures Parse(Print(t)) == t
  {
    hide Parse, Value, Show;
    var space := if t.kind == WithIdSpace then " " else "";
    assert Print(t) == t.base + space + "(" + Show(t.id) + ")";
    ValueShow(t.id);
    ParseIs(Print(t), t.base, space, Show(t.id));
  }

  lemma PrintLineFree(t: Parts)
    requires LineFree(t.base)
    ensures LineFree(Print(t))
  {
    assert AllDigits(Show(t.id));
  }

  /** How parts are written: the base, a space for its kind, and the usual numeral in brackets. */
  lemma PrintIs(t: Parts) returns (digits: string)
    ensures IsNumeral(digits, t.id)
    ensures Print(t) == match t.kind
                        case BaseNameOnly => t.base
                        case WithIdNoSpace => t.base + "(" + digits + ")"
                        case WithIdSpace => t.base + " (" + digits + ")"
  {
    digits := Show(t.id);
    NumeralIff(digits, t.id);
  }
}
