/** The pull parser: a position in a text, moved over values and names. */
module JsonReader {
  import opened Wrappers
  import Machine
  import opened JsonScan
  import opened Brackets
  import opened JsonStrings

  const TWO64 := Machine.TWO64

  const NUL := 0 as char

  /** The character at i, the terminator after the last one. */
  function CharAt(text: string, i: nat): char {
    if i < |text| then text[i] else NUL
  }

  predicate StartsNum(c: char) { '0' <= c <= '9' || c == '-' || c == '.' }
  predicate InNum(c: char) { '0' <= c <= '9' || c == '.' || c == 'e' || c == 'E' }

  /** The end of the number characters that follow the first one. */
  function NumStop(text: string, i: nat): (j: nat)
    requires i <= |text|
    ensures i <= j <= |text| && (j < |text| ==> !InNum(text[j]))
    ensures forall k :: i <= k < j ==> InNum(text[k])
    decreases |text| - i
  {
    if i < |text| && InNum(text[i]) then NumStop(text, i + 1) else i
  }

  /** Bracket counts, changed by the character c. */
  function Squares(n: int, c: char): int { if c == '[' then n + 1 else if c == ']' then n - 1 else n }
  function Curlies(n: int, c: char): int { if c == '{' then n + 1 else if c == '}' then n - 1 else n }

  /** Past the token at i: a bracket, a string, a number or a separator; None when there is none. */
  function TokenStop(text: string, i: nat): (r: Option<nat>)
    requires i <= |text|
    ensures r.Some? ==> i < r.value <= |text|
  {
    if i == |text| then None
    else if IsOpen(text[i]) || IsClose(text[i]) || text[i] == ':' || text[i] == ',' then Some(i + 1)
    else if text[i] == QUOTE then
      match ClosingQuote(text, i + 1, false)
      case None => None
      case Some(q) => Some(q + 1)
    else if StartsNum(text[i]) then Some(NumStop(text, i + 1))
    else None
  }

  /** Tokens from i until all brackets are closed: where the value ends. */
  function ValueStop(text: string, i: nat, squares: int, curlies: int): (r: Option<nat>)
    requires i <= |text|
    ensures r.Some? ==> i < r.value <= |text|
    decreases |text| - i
  {
    match TokenStop(text, i)
    case None => None
    case Some(j) =>
      var s, c := Squares(squares, text[i]), Curlies(curlies, text[i]);
      if s == 0 && c == 0 then Some(j) else ValueStop(text, j, s, c)
  }

  function SkipBlanks(text: string, i: nat): (j: nat)
    requires i <= |text|
    ensures i <= j <= |text| && (j < |text| ==> !(NUL < text[j] <= ' '))
    decreases |text| - i
  {
    if i < |text| && NUL < text[i] <= ' ' then SkipBlanks(text, i + 1) else i
  }

  datatype StoreResult = StoreResult(ok: bool, stored: string, pos: nat)

  /** Where a value may start: after blanks and one comma. */
  function ValueStart(text: string, pos: nat): (i: nat)
    requires pos <= |text|
    ensures pos <= i <= |text|
  {
    var i := SkipBlanks(text, pos);
    if i < |text| && text[i] == ',' then i + 1 else i
  }

  /** Takes the next value, without its quotes when it is a string. */
  function Store(text: string, pos: nat): (r: StoreResult)
    requires pos <= |text|
    ensures pos <= r.pos <= |text| && (r.ok ==> pos < r.pos)
  {
    var blank := SkipBlanks(text, pos);
    if CharAt(text, blank) == ']' || CharAt(text, blank) == '}' then StoreResult(false, "", blank) else
    var i := ValueStart(text, pos);
    match ValueStop(text, i, 0, 0)
    case None => StoreResult(false, "", i)
    case Some(j) =>
      StoreResult(true, if text[i] == QUOTE && i + 2 <= j then text[i + 1..j - 1] else text[i..j], j)
  }

  // ----- Names

  function ShiftIn(id: nat, c: byte): (r: nat)
    ensures r < TWO64
  {
    (id * 256 + (if c as int < 128 then c as int else c as int + TWO64 - 256)) % TWO64
  }

  /** The number that a name stands for: its bytes shifted in from the left, in 64 bits. */
  function NameNumber(name: seq<byte>): (id: nat)
    ensures id < TWO64
  {
    if name == [] then 0 else ShiftIn(NameNumber(name[..|name| - 1]), name[|name| - 1])
  }

  /** The next quote at or after i, escaped or not. */
  function RawQuote(text: string, i: nat): (q: nat)
    requires i <= |text|
    ensures i <= q <= |text| && (q < |text| ==> text[q] == QUOTE) && QUOTE !in text[i..q]
    decreases |text| - i
  {
    if i < |text| && text[i] != QUOTE then
      var q := RawQuote(text, i + 1);
      assert text[i..q] == [text[i]] + text[i + 1..q];
      q
    else i
  }

  /** Skips an empty or null value, with the comma after it: whether it did, and the new position. */
  function SkipNull(text: string, pos: nat): (r: (bool, nat))
    requires pos <= |text|
    ensures pos <= r.1 <= |text|
  {
    match CharAt(text, pos)
    case ',' => (true, pos + 1)
    case ']' => (true, pos)
    case '}' => (true, pos)
    case 'n' =>
      if !("null" <= text[pos..]) then (false, pos)
      else (match CharAt(text, pos + 4)
            case ',' => (true, pos + 5)
            case ']' => (true, pos + 4)
            case '}' => (true, pos + 4)
            case _ => (false, pos))
    case _ => (false, pos)
  }

  /** Where a name may start: after one comma or colon. */
  function NameStart(text: string, pos: nat): nat {
    if CharAt(text, pos) == ',' || CharAt(text, pos) == ':' then pos + 1 else pos
  }

  /** The name at pos and the position after its colon; names of empty values are passed over.
      Zero when there is no name. None when the closing quote of a name is missing. */
  function GetName(text: seq<byte>, pos: nat): (r: Option<(nat, nat)>)
    requires pos <= |text|
    ensures r.Some? ==> pos <= r.value.1 <= |text| && (r.value.0 != 0 ==> pos < r.value.1)
    decreases |text| - pos
  {
    var i := NameStart(text, pos);
    if CharAt(text, i) != QUOTE then Some((0, pos)) else
    var q := RawQuote(text, i + 1);
    if q == |text| then None else
    var id := NameNumber(text[i + 1..q]);
    var after := if CharAt(text, q + 1) == ':' || CharAt(text, q + 1) == ',' then q + 2 else q + 1;
    if id != 0 && SkipNull(text, after).0 then GetName(text, SkipNull(text, after).1) else Some((id, after))
  }

  /** GetName, one name further. */
  lemma GetNameStep(text: seq<byte>, pos: nat)
    requires pos <= |text|
    ensures CharAt(text, NameStart(text, pos)) != QUOTE ==> GetName(text, pos) == Some((0, pos))
    ensures CharAt(text, NameStart(text, pos)) == QUOTE ==>
              var i := NameStart(text, pos) + 1;
              && i <= |text|
              && var q := RawQuote(text, i);
              && (q == |text| ==> GetName(text, pos) == None)
              && (q < |text| ==>
                   var id := NameNumber(text[i..q]);
                   var after := if CharAt(text, q + 1) == ':' || CharAt(text, q + 1) == ',' then q + 2 else q + 1;
                   && after <= |text|
                   && GetName(text, pos)
                      == if id != 0 && SkipNull(text, after).0 then GetName(text, SkipNull(text, after).1)
                         else Some((id, after)))
  {
    hide SkipNull, ShiftIn, NameNumber, RawQuote;
  }

  // ----- The reader and the streaming splitter find the same end of a string

  lemma {:induction false} ClosingQuoteShift(text: string, from: nat, i: nat, esc: bool)
    requires from <= i <= |text|
    ensures ClosingQuote(text[from..], i - from, esc).Some? <==> ClosingQuote(text, i, esc).Some?
    ensures ClosingQuote(text, i, esc).Some?
            ==> ClosingQuote(text[from..], i - from, esc).value == ClosingQuote(text, i, esc).value - from
    decreases |text| - i
  {
    if i < |text| {
      ClosingQuoteShift(text, from, i + 1, !esc && text[i] == BACKSLASH);
    }
  }

  /** On every text, taking a string stops where the splitter's scan for its end stops. */
  lemma StoreString(text: string, pos: nat)
    requires pos < |text| && text[pos] == QUOTE
    ensures match StrEnd(text[pos..])
            case None => !Store(text, pos).ok
            case Some(t) => Store(text, pos) == StoreResult(true, text[pos + 1..pos + t - 1], pos + t)
  {
    ClosingQuoteShift(text, pos, pos + 1, false);
  }

  /** A written string is taken whole and reads back as the bytes that were written. */
  lemma StoredRoundTrip(s: seq<byte>, before: string, after: string)
    ensures var text := before + "\"" + Escape(s) + "\"" + after;
            var end := |before| + |Escape(s)| + 2;
            && Store(text, |before|) == StoreResult(true, Escape(s), end)
            && StrEnd(text[|before|..]) == Some(end - |before|)
            && Unescape(Escape(s)) == s
  {
    hide Escape, Store, StrEnd, Unescape;
    var text := before + "\"" + Escape(s) + "\"" + after;
    assert text[|before|] == QUOTE;
    assert text[|before|..] == "\"" + Escape(s) + "\"" + after;
    QuotedEnds(s, after);
    StoreString(text, |before|);
    var t := |Escape(s)| + 2;
    assert text[|before| + 1..|before| + t - 1] == Escape(s);
    RoundTrip(s);
  }

  // ----- The object that holds the position

  class JSON {
    const text: seq<byte>
    var pos: nat

    constructor (json: seq<byte>)
      ensures text == json && pos == 0
    {
      text := json;
      pos := 0;
    }

    /** Takes the next value into s and moves past it. The escape flag runs forwards. */
    method StoreObject() returns (ok: bool, s: seq<byte>)
      requires pos <= |text|
      modifies this
      ensures StoreResult(ok, s, pos) == Store(text, old(pos))
    {
      hide ValueStop, SkipBlanks;
      SkipSpaces();
      if CharAt(text, pos) == ']' || CharAt(text, pos) == '}' {
        return false, [];
      }
      if CharAt(text, pos) == ',' {
        pos := pos + 1;
      }
      var end := FindEnd(pos);
      if end.None? {
        return false, [];
      }
      s := if text[pos] == QUOTE && pos + 2 <= end.value then text[pos + 1..end.value - 1] else text[pos..end.value];
      pos := end.value;
      ok := true;
    }

    method SkipSpaces()
      requires pos <= |text|
      modifies this
      ensures pos == SkipBlanks(text, old(pos))
    {
      while pos < |text| && NUL < text[pos] <= ' '
        invariant old(pos) <= pos <= |text|
        invariant SkipBlanks(text, pos) == SkipBlanks(text, old(pos))
      {
        pos := pos + 1;
      }
    }

    /** Counts brackets over tokens until they are all closed. */
    method FindEnd(from: nat) returns (end: Option<nat>)
      requires from <= |text|
      ensures end == ValueStop(text, from, 0, 0)
    {
      var ptr, squares, curlies := from, 0, 0;
      while true
        invariant from <= ptr <= |text|
        invariant ValueStop(text, ptr, squares, curlies) == ValueStop(text, from, 0, 0)
        decreases |text| - ptr
      {
        var next := PastToken(ptr);
        if next.None? {
          return None;
        }
        squares, curlies := Squares(squares, text[ptr]), Curlies(curlies, text[ptr]);
        ptr := next.value;
        if squares == 0 && curlies == 0 {
          return Some(ptr);
        }
      }
    }

    method PastToken(from: nat) returns (next: Option<nat>)
      requires from <= |text|
      ensures next == TokenStop(text, from)
    {
      var ptr := from;
      var c := CharAt(text, ptr);
      if ptr == |text| {
        return None;
      } else if IsOpen(c) || IsClose(c) || c == ':' || c == ',' {
        return Some(ptr + 1);
      } else if c == QUOTE {
        ptr := ptr + 1;
        var escaped := false;
        while ptr < |text| && (escaped || text[ptr] != QUOTE)
          invariant from < ptr <= |text|
          invariant ClosingQuote(text, ptr, escaped) == ClosingQuote(text, from + 1, false)
        {
          escaped := text[ptr] == BACKSLASH && !escaped;
          ptr := ptr + 1;
        }
        return if ptr == |text| then None else Some(ptr + 1);
      } else if StartsNum(c) {
        ptr := ptr + 1;
        while ptr < |text| && InNum(text[ptr])
          invariant from < ptr <= |text|
          invariant NumStop(text, ptr) == NumStop(text, from + 1)
        {
          ptr := ptr + 1;
        }
        return Some(ptr);
      }
      return None;
    }

    /** Shifts in the bytes up to the next quote. */
    method ReadName(from: nat) returns (n: nat, ptr: nat)
      requires from <= |text|
      ensures ptr == RawQuote(text, from) && n == NameNumber(text[from..ptr])
    {
      hide ShiftIn;
      n, ptr := 0, from;
      while ptr < |text| && text[ptr] != QUOTE
        invariant from <= ptr <= |text|
        invariant RawQuote(text, ptr) == RawQuote(text, from)
        invariant n == NameNumber(text[from..ptr])
      {
        assert text[from..ptr + 1][..ptr - from] == text[from..ptr];
        n := ShiftIn(n, text[ptr]);
        ptr := ptr + 1;
      }
    }

    /** The next name; None when the text breaks off inside it. */
    method GetNameId() returns (id: Option<nat>)
      requires pos <= |text|
      modifies this
      ensures match GetName(text, old(pos))
              case None => id == None
              case Some(r) => id == Some(r.0) && pos == r.1
    {
      hide SkipNull, NameNumber, RawQuote, GetName;
      ghost var start := pos;
      while true
        invariant pos <= |text|
        invariant GetName(text, pos) == GetName(text, start)
        decreases |text| - pos
      {
        GetNameStep(text, pos);
        var ptr := NameStart(text, pos);
        if CharAt(text, ptr) != QUOTE {
          return Some(0);
        }
        var n;
        n, ptr := ReadName(ptr + 1);
        if ptr == |text| {
          return None;
        }
        pos := ptr + 1;
        if CharAt(text, pos) == ':' || CharAt(text, pos) == ',' {
          pos := pos + 1;
        }
        if n == 0 {
          return Some(0);
        }
        var skipped := SkipNull(text, pos);
        if !skipped.0 {
          return Some(n);
        }
        pos := skipped.1;
      }
    }
  }

  /** The characters of a member with the value null. */
  lemma NullMember(text: seq<byte>, pos: nat, name: seq<byte>)
    requires Here(text, pos, "\"" + name + "\":null,")
    ensures var q := pos + |name| + 1;
            && q + 7 <= |text| && text[pos] == QUOTE && text[pos + 1..q] == name && text[q] == QUOTE
            && text[q + 1] == ':' && "null" <= text[q + 2..] && text[q + 6] == ','
  {
    var q := pos + |name| + 1;
    assert "\"" + name + "\":null," == ("\"" + name) + "\":null,";
    HereParts(text, pos, "\"" + name, "\":null,");
    HereParts(text, pos, "\"", name);
    HereParts(text, q, "\":", "null,");
    HereParts(text, q + 2, "null", ",");
    HereChar(text, pos, QUOTE);
    HereChar(text, q + 6, ',');
    TwoHere(text, q);
    assert text[q + 2..][..4] == text[q + 2..q + 6];
  }

  lemma TwoHere(text: string, q: nat)
    requires Here(text, q, "\":")
    ensures text[q] == QUOTE && text[q + 1] == ':'
  {
    assert text[q..q + 2][0] == text[q] && text[q..q + 2][1] == text[q + 1];
  }

  lemma NullIs(text: seq<byte>, pos: nat)
    requires pos + 5 <= |text| && "null" <= text[pos..] && text[pos + 4] == ','
    ensures SkipNull(text, pos) == (true, pos + 5)
  {
    assert text[pos] == text[pos..][0] == 'n';
  }

  /** A member with the value null is passed over. */
  lemma NullSkipped(text: seq<byte>, pos: nat, name: seq<byte>)
    requires QUOTE !in name && NameNumber(name) != 0 && Here(text, pos, "\"" + name + "\":null,")
    ensures pos + |name| + 8 <= |text| && GetName(text, pos) == GetName(text, pos + |name| + 8)
  {
    hide NameNumber, Here, SkipNull, RawQuote;
    NullMember(text, pos, name);
    var q := pos + |name| + 1;
    QuoteIs(text, pos + 1, q, name);
    NullIs(text, q + 2);
  }

  lemma {:induction false} QuoteIs(text: seq<byte>, i: nat, q: nat, name: seq<byte>)
    requires i <= q < |text| && text[q] == QUOTE && text[i..q] == name && QUOTE !in name
    ensures RawQuote(text, i) == q
    decreases q - i
  {
    if i < q {
      assert text[i] == name[0] && text[i + 1..q] == name[1..];
      QuoteIs(text, i + 1, q, name[1..]);
    }
  }
}
