/** An independent reading of a document: which brackets are open outside strings. */
module Brackets {
  import opened JsonScan

  predicate IsOpen(c: char) { c == '[' || c == '{' }
  predicate IsClose(c: char) { c == ']' || c == '}' }
  predicate Pair(open: char, close: char) { (open == '[' && close == ']') || (open == '{' && close == '}') }

  datatype Bracket = Bracket(c: char, at: nat)

  datatype Lex = Bad | Lex(open: seq<Bracket>, inString: bool, escaped: bool)

  const Outside := (open: seq<Bracket>) => Lex(open, false, false)

  function ScanChar(l: Lex, c: char, at: nat): Lex {
    if l.Bad? then Bad
    else if l.inString then
      if l.escaped then l.(escaped := false)
      else if c == QUOTE then l.(inString := false)
      else l.(escaped := c == BACKSLASH)
    else if c == QUOTE then l.(inString := true)
    else if IsOpen(c) then l.(open := l.open + [Bracket(c, at)])
    else if IsClose(c) then
      if l.open == [] || !Pair(l.open[|l.open| - 1].c, c) then Bad
      else l.(open := l.open[..|l.open| - 1])
    else l
  }

  /** The first n characters of text, read one by one. */
  function Scan(text: string, n: nat): Lex
    requires n <= |text|
  {
    if n == 0 then Outside([]) else ScanChar(Scan(text, n - 1), text[n - 1], n - 1)
  }

  /** The bracket at i is closed by the one at j. */
  ghost predicate Matching(text: string, i: nat, j: nat) {
    && i < j < |text| && IsOpen(text[i]) && Pair(text[i], text[j])
    && Scan(text, i).Lex? && !Scan(text, i).inString
    && Scan(text, j + 1) == Outside(Scan(text, i).open)
    && forall k :: i < k <= j ==> Scan(text, k).Lex? && Scan(text, i).open + [Bracket(text[i], i)] <= Scan(text, k).open
  }

  /** Open brackets are recorded where they stand, in order. */
  lemma {:induction false} OpenPositions(text: string, n: nat)
    requires n <= |text| && Scan(text, n).Lex?
    ensures var open := Scan(text, n).open;
            && (forall i :: 0 <= i < |open| ==> open[i].at < n && open[i].c == text[open[i].at])
            && (forall i, j :: 0 <= i < j < |open| ==> open[i].at < open[j].at)
    ensures Scan(text, n).escaped ==> Scan(text, n).inString
  {
    if n > 0 {
      OpenPositions(text, n - 1);
    }
  }

  /** A bracket that is open now has been open, above the same brackets, ever since it was read. */
  lemma {:induction false} OpenSince(text: string, n: nat, i: nat, k: nat)
    requires n <= |text| && Scan(text, n).Lex? && i < |Scan(text, n).open|
    requires Scan(text, n).open[i].at < k <= n
    ensures Scan(text, k).Lex? && Scan(text, n).open[..i + 1] <= Scan(text, k).open
  {
    if k < n {
      var open, before := Scan(text, n).open, Scan(text, n - 1).open;
      OpenPositions(text, n - 1);
      assert i < |before| && before[..i + 1] == open[..i + 1];
      OpenSince(text, n - 1, i, k);
    }
  }

  /** Before the bracket was read, exactly the brackets below it were open. */
  lemma {:induction false} OpenBelow(text: string, n: nat, i: nat)
    requires n <= |text| && Scan(text, n).Lex? && i < |Scan(text, n).open|
    ensures var b := Scan(text, n).open[i];
            b.at < n && IsOpen(b.c) && text[b.at] == b.c && Scan(text, b.at) == Outside(Scan(text, n).open[..i])
  {
    OpenPositions(text, n);
    OpenPositions(text, n - 1);
    var open, before := Scan(text, n).open, Scan(text, n - 1).open;
    if i < |before| && before[..i + 1] == open[..i + 1] {
      OpenBelow(text, n - 1, i);
      assert before[..i] == open[..i];
    } else {
      assert open == before + [Bracket(text[n - 1], n - 1)];
      assert open[..i] == before;
    }
  }

  /** Closing the innermost open bracket closes the bracket it matches. */
  lemma ClosesMatching(text: string, n: nat)
    requires n < |text| && Scan(text, n).Lex? && !Scan(text, n).inString && Scan(text, n).open != []
    requires IsClose(text[n]) && Pair(Scan(text, n).open[|Scan(text, n).open| - 1].c, text[n])
    ensures var open := Scan(text, n).open; Matching(text, open[|open| - 1].at, n)
  {
    var open := Scan(text, n).open;
    var i := |open| - 1;
    OpenPositions(text, n);
    OpenBelow(text, n, i);
    assert open[..i + 1] == open[..i] + [open[i]];
    forall k | open[i].at < k <= n
      ensures Scan(text, k).Lex? && Scan(text, open[i].at).open + [open[i]] <= Scan(text, k).open
    {
      OpenSince(text, n, i, k);
    }
  }

  /** Characters that are neither quotes nor brackets leave the reading alone. */
  lemma {:induction false} ScanPlain(text: string, i: nat, j: nat)
    requires i <= j <= |text| && Scan(text, i).Lex? && !Scan(text, i).inString
    requires forall k :: i <= k < j ==> text[k] != QUOTE && !IsOpen(text[k]) && !IsClose(text[k])
    ensures Scan(text, j) == Scan(text, i)
  {
    if i < j {
      ScanPlain(text, i, j - 1);
    }
  }

  /** Inside a string the reading reaches its closing quote. */
  lemma {:induction false} ScanInString(text: string, from: nat, rest: string, i: nat, esc: bool, open: seq<Bracket>)
    requires from + |rest| <= |text| && rest == text[from..from + |rest|] && i <= |rest|
    requires ClosingQuote(rest, i, esc).Some? && Scan(text, from + i) == Lex(open, true, esc)
    ensures Scan(text, from + ClosingQuote(rest, i, esc).value + 1) == Outside(open)
    decreases |rest| - i
  {
    assert text[from + i] == rest[i];
    assert Scan(text, from + i + 1) == ScanChar(Scan(text, from + i), rest[i], from + i);
    if esc {
      ScanInString(text, from, rest, i + 1, false, open);
    } else if rest[i] != QUOTE {
      ScanInString(text, from, rest, i + 1, rest[i] == BACKSLASH, open);
    }
  }

  /** A whole string token leaves the reading where it was. */
  lemma ScanString(text: string, from: nat, rest: string)
    requires from + |rest| <= |text| && rest == text[from..from + |rest|] && rest != "" && rest[0] == QUOTE
    requires StrEnd(rest).Some? && Scan(text, from).Lex? && !Scan(text, from).inString
    ensures Scan(text, from + StrEnd(rest).value) == Scan(text, from)
  {
    OpenPositions(text, from);
    assert text[from] == rest[0];
    ScanInString(text, from, rest, 1, false, Scan(text, from).open);
  }
}
