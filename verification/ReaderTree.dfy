/** The pull parser against the tree of the document. It counts brackets and skips tokens, while the
    streaming splitter follows the grammar; on well-formed values they agree, but for one character. */
module ReaderTree {
  import opened Wrappers
  import opened JsonScan
  import opened Brackets
  import opened JsonReader
  import opened SplitterTree

  /** No number of the value has a plus sign, which the pull parser does not take. */
  ghost predicate NoPlus(v: Json)
    decreases v, 1
  {
    match v
    case Text(_) => true
    case Numeral(token) => '+' !in token
    case Node(_, members) => NoPlusAll(members)
  }

  ghost predicate NoPlusAll(members: seq<Member>)
    decreases members, 0
  {
    members != [] ==> NoPlus(members[0].value) && NoPlusAll(members[1..])
  }

  /** Inside brackets, the text from i to j is skipped, or rejected. */
  ghost predicate Skips(text: string, i: nat, j: nat, squares: int, curlies: int, ok: bool) {
    && i <= |text| && j <= |text|
    && ValueStop(text, i, squares, curlies) == if ok then ValueStop(text, j, squares, curlies) else None
  }

  ghost predicate Inner(squares: int, curlies: int) {
    squares >= 0 && curlies >= 0 && squares + curlies > 0
  }

  lemma StringSkips(text: string, i: nat, token: string, squares: int, curlies: int)
    requires Here(text, i, token) && IsString(token) && Inner(squares, curlies)
    ensures Skips(text, i, i + |token|, squares, curlies, true)
  {
    TokenRest(text, i, token);
    ClosingQuoteExtend(token, text[i + |token|..], 1, false);
    ClosingQuoteShift(text, i, i + 1, false);
  }

  lemma NumberToken(text: string, i: nat, squares: int, curlies: int)
    requires i < |text| && StartsNum(text[i]) && Inner(squares, curlies)
    ensures ValueStop(text, i, squares, curlies) == ValueStop(text, NumStop(text, i + 1), squares, curlies)
  {
  }

  lemma PlusStops(text: string, i: nat, squares: int, curlies: int)
    requires i < |text| && text[i] == '+'
    ensures ValueStop(text, i, squares, curlies) == None
  {
  }

  /** A number written with minus signs inside is several tokens; a plus sign is none. */
  lemma {:induction false} NumberSkips(text: string, i: nat, j: nat, squares: int, curlies: int)
    requires i < j && Separated(text, j) && StartsNum(text[i]) && Inner(squares, curlies)
    requires forall k :: i <= k < j ==> IsNumChar(text[k])
    ensures Skips(text, i, j, squares, curlies, '+' !in text[i..j])
    decreases j - i
  {
    hide ValueStop, NumStop;
    var stop := NumStop(text, i + 1);
    assert !InNum(text[j]);
    assert stop <= j;
    NumberToken(text, i, squares, curlies);
    assert text[i..j] == text[i..stop] + text[stop..j];
    assert '+' !in text[i..stop];
    if stop < j {
      if text[stop] == '-' {
        NumberSkips(text, stop, j, squares, curlies);
      } else {
        assert text[stop] == '+' && text[stop..j][0] == '+';
        PlusStops(text, stop, squares, curlies);
      }
    }
  }

  lemma NumeralSkips(text: string, i: nat, token: string, squares: int, curlies: int)
    requires Here(text, i, token) && IsNumber(token) && Separated(text, i + |token|) && Inner(squares, curlies)
    ensures Skips(text, i, i + |token|, squares, curlies, '+' !in token)
  {
    TokenRest(text, i, token);
    assert forall k :: i <= k < i + |token| ==> text[k] == token[k - i];
    NumberSkips(text, i, i + |token|, squares, curlies);
  }

  /** One character that is a token of its own. */
  lemma CharSkips(text: string, i: nat, squares: int, curlies: int)
    requires i < |text| && (IsOpen(text[i]) || IsClose(text[i]) || text[i] == ':' || text[i] == ',')
    requires Inner(Squares(squares, text[i]), Curlies(curlies, text[i]))
    ensures ValueStop(text, i, squares, curlies)
            == ValueStop(text, i + 1, Squares(squares, text[i]), Curlies(curlies, text[i]))
  {
  }

  lemma LabelSkips(text: string, i: nat, isArray: bool, name: string, squares: int, curlies: int)
    requires Here(text, i, Label(isArray, name)) && (!isArray ==> IsString("\"" + name + "\"")) &&
             Inner(squares, curlies)
    ensures Skips(text, i, i + |Label(isArray, name)|, squares, curlies, true)
  {
    hide ValueStop, Here, IsString;
    HereInside(text, i, Label(isArray, name));
    if !isArray {
      var token := "\"" + name + "\"";
      assert Label(isArray, name) == token + ":";
      HereParts(text, i, token, ":");
      StringSkips(text, i, token, squares, curlies);
      TokenRest(text, i + |token|, ":");
      CharSkips(text, i + |token|, squares, curlies);
    }
  }

  /** A value inside brackets is skipped whole exactly when no number in it has a plus sign. */
  lemma {:induction false} ValueSkips(text: string, i: nat, v: Json, squares: int, curlies: int)
    requires WellFormed(v) && Here(text, i, Print(v)) && Separated(text, i + |Print(v)|) && Inner(squares, curlies)
    ensures Skips(text, i, i + |Print(v)|, squares, curlies, NoPlus(v))
    decreases v, 2
  {
    hide Skips, Here, Separated;
    match v
    case Text(token) => StringSkips(text, i, token, squares, curlies);
    case Numeral(token) => NumeralSkips(text, i, token, squares, curlies);
    case Node(_, _) => NodeSkips(text, i, v, squares, curlies);
  }

  lemma {:induction false} NodeSkips(text: string, i: nat, v: Json, squares: int, curlies: int)
    requires v.Node? && WellFormed(v) && Here(text, i, Print(v)) && Inner(squares, curlies)
    ensures Skips(text, i, i + |Print(v)|, squares, curlies, NoPlus(v))
    decreases v, 1
  {
    hide PrintAll, ValueStop, Print, Here, Separated, WellFormedAll, NoPlusAll;
    NodeLayout(text, i, v);
    var s, c := Squares(squares, Open(v.isArray)), Curlies(curlies, Open(v.isArray));
    CharSkips(text, i, squares, curlies);
    MembersSkip(text, i + 1, v.isArray, v.members, s, c);
    CharSkips(text, i + 1 + |PrintAll(v.isArray, v.members)|, s, c);
  }

  lemma {:induction false} MembersSkip(text: string, i: nat, isArray: bool, members: seq<Member>, squares: int,
                                       curlies: int)
    requires WellFormedAll(isArray, members) && Inner(squares, curlies)
    requires Here(text, i, PrintAll(isArray, members)) && Separated(text, i + |PrintAll(isArray, members)|)
    ensures Skips(text, i, i + |PrintAll(isArray, members)|, squares, curlies, NoPlusAll(members))
    decreases members, 0
  {
    hide ValueStop, Here, Separated, IsString, PrintAll, Print, Label, WellFormed, NoPlus;
    if members == [] {
      PrintNone(isArray);
      HereInside(text, i, "");
    } else {
      var m := members[0];
      MemberLayout(text, i, isArray, members);
      PrintAllLength(isArray, members);
      LabelSkips(text, i, isArray, m.name, squares, curlies);
      var from := i + |Label(isArray, m.name)|;
      var end := from + |Print(m.value)|;
      ValueSkips(text, from, m.value, squares, curlies);
      if |members| > 1 {
        CharSkips(text, end, squares, curlies);
        MembersSkip(text, end + 1, isArray, members[1..], squares, curlies);
      }
    }
  }

  lemma PrintAllLength(isArray: bool, members: seq<Member>)
    requires members != []
    ensures var first := |Label(isArray, members[0].name)| + |Print(members[0].value)|;
            |PrintAll(isArray, members)| ==
            if |members| == 1 then first else first + 1 + |PrintAll(isArray, members[1..])|
  {
    hide Label, Print, PrintAll;
    PrintAllParts(isArray, members);
  }

  lemma PrintNone(isArray: bool)
    ensures PrintAll(isArray, []) == ""
  {
  }

  /** Taking an object or array: it is taken whole, up to its matching bracket, whatever follows it,
      exactly when no number in it has a plus sign; otherwise it is rejected. */
  lemma StoreNode(v: Json, rest: string)
    requires v.Node? && WellFormed(v)
    ensures Store(Print(v) + rest, 0) ==
            if NoPlus(v) then StoreResult(true, Print(v), |Print(v)|) else StoreResult(false, "", 0)
  {
    hide PrintAll, ValueStop, Print, NoPlusAll, WellFormedAll;
    var text := Print(v) + rest;
    assert Here(text, 0, Print(v));
    NodeLayout(text, 0, v);
    var j := 1 + |PrintAll(v.isArray, v.members)|;
    var s, c := Squares(0, Open(v.isArray)), Curlies(0, Open(v.isArray));
    CharSkips(text, 0, 0, 0);
    MembersSkip(text, 1, v.isArray, v.members, s, c);
    LastBracket(text, j, v.isArray);
    assert text[..|Print(v)|] == Print(v);
    assert text[0..j + 1] == Print(v);
  }

  lemma LastBracket(text: string, j: nat, isArray: bool)
    requires j < |text| && text[j] == Shut(isArray)
    ensures ValueStop(text, j, Squares(0, Open(isArray)), Curlies(0, Open(isArray))) == Some(j + 1)
  {
  }
}
