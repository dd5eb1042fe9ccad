/** Where a JSON string and a JSON number end: the simple forward definitions that the
    scanners of the splitter and of the pull parser are proved against. */
module JsonScan {
  import opened Wrappers

  const QUOTE := '"'
  const BACKSLASH := '\\'

  /** The first quote of s at or after i that no backslash escapes; esc says whether s[i] is escaped. */
  function ClosingQuote(s: string, i: nat, esc: bool): (r: Option<nat>)
    requires i <= |s|
    ensures r.Some? ==> i <= r.value < |s| && s[r.value] == QUOTE
    decreases |s| - i
  {
    if i == |s| then None
    else if esc then ClosingQuote(s, i + 1, false)
    else if s[i] == QUOTE then Some(i)
    else ClosingQuote(s, i + 1, s[i] == BACKSLASH)
  }

  /** Length of the string token, quotes included, that s starts with; None when its closing quote is missing. */
  function StrEnd(s: string): (r: Option<nat>)
    requires |s| > 0
    ensures r.Some? ==> 2 <= r.value <= |s| && s[r.value - 1] == QUOTE
  {
    match ClosingQuote(s, 1, false)
    case None => None
    case Some(q) => Some(q + 1)
  }

  predicate IsNumChar(c: char) {
    '0' <= c <= '9' || c == '-' || c == '+' || c == 'e' || c == 'E' || c == '.'
  }

  /** Length of the longest prefix of s made of number characters. */
  function NumEnd(s: string): (n: nat)
    ensures n <= |s|
    ensures forall k :: 0 <= k < n ==> IsNumChar(s[k])
    ensures n < |s| ==> !IsNumChar(s[n])
  {
    if s == "" || !IsNumChar(s[0]) then 0 else 1 + NumEnd(s[1..])
  }

  /** A closing quote that has been seen is not changed by what follows. */
  lemma {:induction false} ClosingQuoteExtend(s: string, t: string, i: nat, esc: bool)
    requires i <= |s|
    requires ClosingQuote(s, i, esc).Some?
    ensures ClosingQuote(s + t, i, esc) == ClosingQuote(s, i, esc)
    decreases |s| - i
  {
    if esc {
      ClosingQuoteExtend(s, t, i + 1, false);
    } else if s[i] != QUOTE {
      ClosingQuoteExtend(s, t, i + 1, s[i] == BACKSLASH);
    }
  }

  lemma StrEndExtend(s: string, t: string)
    requires s != "" && StrEnd(s).Some?
    ensures StrEnd(s + t) == StrEnd(s)
  {
    ClosingQuoteExtend(s, t, 1, false);
  }

  /** A number that is followed by another character is not changed by what follows that. */
  lemma {:induction false} NumEndExtend(s: string, t: string)
    requires NumEnd(s) < |s|
    ensures NumEnd(s + t) == NumEnd(s)
  {
    if IsNumChar(s[0]) {
      NumEndExtend(s[1..], t);
      assert (s + t)[1..] == s[1..] + t;
    }
  }

  /** Number of backslashes right before index i, not looking below index 1. */
  function Backslashes(s: string, i: nat): (n: nat)
    requires 1 <= i <= |s|
    ensures n <= i - 1
    ensures forall k :: i - n <= k < i ==> s[k] == BACKSLASH
    ensures i - n > 1 ==> s[i - n - 1] != BACKSLASH
  {
    if i == 1 || s[i - 1] != BACKSLASH then 0 else 1 + Backslashes(s, i - 1)
  }

  /** Whether forward scanning from index 1 finds s[i] escaped: the running flag of the forward form. */
  function EscapedAt(s: string, i: nat): bool
    requires 1 <= i <= |s|
  {
    i > 1 && !EscapedAt(s, i - 1) && s[i - 1] == BACKSLASH
  }

  /** The parity of the backslashes seen backwards is the flag carried forwards. */
  lemma {:induction false} ParityIsFlag(s: string, i: nat)
    requires 1 <= i <= |s|
    ensures EscapedAt(s, i) <==> Backslashes(s, i) % 2 == 1
  {
    if i > 1 {
      ParityIsFlag(s, i - 1);
    }
  }

  /** Skipping a stretch without quotes does not change the search. */
  lemma {:induction false} ClosingQuoteSkip(s: string, i: nat, j: nat)
    requires 1 <= i <= j <= |s|
    requires forall k :: i <= k < j ==> s[k] != QUOTE
    ensures ClosingQuote(s, i, EscapedAt(s, i)) == ClosingQuote(s, j, EscapedAt(s, j))
    decreases j - i
  {
    if i < j {
      ClosingQuoteSkip(s, i + 1, j);
    }
  }

  // ----- Pieces of a text

  /** s stands in doc at position at. */
  ghost predicate Here(doc: string, at: nat, s: string) {
    at + |s| <= |doc| && doc[at..at + |s|] == s
  }

  lemma HereParts(doc: string, at: nat, s: string, t: string)
    requires Here(doc, at, s + t)
    ensures Here(doc, at, s) && Here(doc, at + |s|, t)
  {
    assert doc[at..at + |s|] == (s + t)[..|s|];
    assert doc[at + |s|..at + |s| + |t|] == (s + t)[|s|..];
  }

  lemma TokenRest(doc: string, at: nat, token: string)
    requires Here(doc, at, token) && token != ""
    ensures doc[at..] == token + doc[at + |token|..] && doc[at] == token[0]
  {
    assert doc[at..][..|token|] == token;
  }

  lemma HereChar(doc: string, at: nat, c: char)
    requires Here(doc, at, [c])
    ensures at < |doc| && doc[at] == c
  {
    assert doc[at] == doc[at..at + 1][0];
  }

  lemma HereInside(doc: string, at: nat, s: string)
    requires Here(doc, at, s)
    ensures at + |s| <= |doc| && doc[at..at + |s|] == s
  {
  }

  lemma HereSplit(doc: string, at: nat, s: string)
    requires Here(doc, at, s)
    ensures doc == doc[..at] + s + doc[at + |s|..]
  {
  }

  /** The characters that numbers are made of. */
  lemma NumberCharacters(c: char)
    ensures IsNumChar(c) <==> c in "0123456789+-.eE"
  {
    var s := "0123456789+-.eE";
    if '0' <= c <= '9' {
      assert s[c as int - '0' as int] == c;
    }
    assert s[10] == '+' && s[11] == '-' && s[12] == '.' && s[13] == 'e' && s[14] == 'E';
  }
}
