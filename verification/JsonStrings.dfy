/** Writing a byte string as the inside of a JSON string and reading it back
    (strings of section 7 of RFC 8259). A byte is modelled as a character; where its range matters
    the definitions that need it say so. */
module JsonStrings {
  import opened Wrappers
  import opened JsonScan

  type byte = char

  const HEX := "0123456789abcdef"

  /** The escape sequence of one byte; bytes from 0x20 up, other than quote and backslash, stand for themselves. */
  function EscapeByte(b: byte): seq<byte> {
    if b == QUOTE then ['\\', '"']
    else if b == BACKSLASH then ['\\', '\\']
    else if b == 8 as char then ['\\', 'b']
    else if b == 12 as char then ['\\', 'f']
    else if b == '\n' then ['\\', 'n']
    else if b == '\r' then ['\\', 'r']
    else if b == '\t' then ['\\', 't']
    else if b < ' ' then ['\\', 'u', '0', '0', HEX[b as int / 16], HEX[b as int % 16]]
    else [b]
  }

  function Escape(s: seq<byte>): seq<byte> {
    if s == [] then [] else EscapeByte(s[0]) + Escape(s[1..])
  }

  predicate IsHex(c: char) {
    '0' <= c <= '9' || 'a' <= c <= 'f' || 'A' <= c <= 'F'
  }

  function HexVal(c: char): (v: int)
    requires IsHex(c)
    ensures 0 <= v < 16
  {
    if '0' <= c <= '9' then c as int - '0' as int
    else if 'a' <= c <= 'f' then c as int - 'a' as int + 10
    else c as int - 'A' as int + 10
  }

  /** UTF-8 of a code point below 0x10000. */
  function Utf8(cp: int): (r: seq<byte>)
    requires 0 <= cp < 0x10000
    ensures 1 <= |r| <= 3
  {
    if cp < 0x80 then [cp as char]
    else if cp < 0x800 then [(0xC0 + cp / 64) as char, (0x80 + cp % 64) as char]
    else [(0xE0 + cp / 4096) as char, (0x80 + cp / 64 % 64) as char, (0x80 + cp % 64) as char]
  }

  /** s starts with the four hex digits of an escape of the form \uXXXX. */
  predicate HasCode(s: seq<byte>) {
    |s| >= 6 && IsHex(s[2]) && IsHex(s[3]) && IsHex(s[4]) && IsHex(s[5])
  }

  function Code(s: seq<byte>): (cp: int)
    requires HasCode(s)
    ensures 0 <= cp < 0x10000
  {
    HexVal(s[2]) * 4096 + HexVal(s[3]) * 256 + HexVal(s[4]) * 16 + HexVal(s[5])
  }

  /** What the escape sequence at the start of s decodes to, and its length. */
  function Decode(s: seq<byte>): (r: (seq<byte>, nat))
    requires |s| >= 2 && s[0] == BACKSLASH
    ensures 1 <= |r.0| <= 3 && 2 <= r.1 <= |s|
  {
    match s[1]
    case 'n' => (['\n'], 2)
    case 'r' => (['\r'], 2)
    case 'b' => ([8 as char], 2)
    case 'f' => ([12 as char], 2)
    case 't' => (['\t'], 2)
    case 'u' => if HasCode(s) then (Utf8(Code(s)), 6) else (['u'], 2)
    case c => ([c], 2)
  }

  /** Reading left to right; decoded bytes are not looked at again. */
  function Unescape(s: seq<byte>): seq<byte> {
    if |s| < 2 then s
    else if s[0] != BACKSLASH then [s[0]] + Unescape(s[1..])
    else Decode(s).0 + Unescape(s[Decode(s).1..])
  }

  /** One escaped byte decodes to itself, whatever follows. */
  lemma UnescapeByte(b: byte, rest: seq<byte>)
    ensures Unescape(EscapeByte(b) + rest) == [b] + Unescape(rest)
  {
    var e := EscapeByte(b);
    var s := e + rest;
    assert s[|e|..] == rest;
    if |e| > 1 {
      DecodeByte(b, rest);
    }
  }

  lemma ControlCode(b: byte, s: seq<byte>)
    requires b < ' ' && |s| >= 6 && s[2] == '0' && s[3] == '0'
    requires s[4] == HEX[b as int / 16] && s[5] == HEX[b as int % 16]
    ensures HasCode(s) && Code(s) == b as int && Utf8(Code(s)) == [b]
  {
    HexRoundTrip(b as int / 16);
    HexRoundTrip(b as int % 16);
  }

  lemma DecodeByte(b: byte, rest: seq<byte>)
    requires |EscapeByte(b)| > 1
    ensures (EscapeByte(b) + rest)[0] == BACKSLASH
    ensures Decode(EscapeByte(b) + rest) == ([b], |EscapeByte(b)|)
  {
    var e := EscapeByte(b);
    var s := e + rest;
    assert s[0] == e[0] && s[1] == e[1];
    if |e| == 6 {
      assert s[2] == e[2] && s[3] == e[3] && s[4] == e[4] && s[5] == e[5];
      assert e[2] == '0' && e[3] == '0' && e[4] == HEX[b as int / 16] && e[5] == HEX[b as int % 16];
      ControlCode(b, s);
    }
  }

  lemma HexRoundTrip(d: int)
    requires 0 <= d < 16
    ensures IsHex(HEX[d]) && HexVal(HEX[d]) == d
  {
  }

  /** Reading back what was written gives the same bytes, for every byte string. */
  lemma {:induction false} RoundTrip(s: seq<byte>)
    ensures Unescape(Escape(s)) == s
  {
    if s != [] {
      UnescapeByte(s[0], Escape(s[1..]));
      RoundTrip(s[1..]);
    }
  }

  /** Inside the escaped form no quote is unescaped, so scanning runs over it to what follows. */
  lemma {:induction false} EscapedHasNoEnd(s: seq<byte>, text: string, i: nat)
    requires Here(text, i, Escape(s))
    ensures i + |Escape(s)| <= |text|
    ensures ClosingQuote(text, i, false) == ClosingQuote(text, i + |Escape(s)|, false)
    decreases |s|
  {
    hide EscapeByte, ClosingQuote;
    HereInside(text, i, Escape(s));
    if s != [] {
      var e, rest := EscapeByte(s[0]), Escape(s[1..]);
      assert Escape(s) == e + rest;
      HereParts(text, i, e, rest);
      EscapedHasNoEnd(s[1..], text, i + |e|);
      ByteHasNoEnd(s[0], text, i);
    }
  }

  lemma ByteHasNoEnd(b: byte, text: string, i: nat)
    requires Here(text, i, EscapeByte(b))
    ensures ClosingQuote(text, i, false) == ClosingQuote(text, i + |EscapeByte(b)|, false)
  {
    var e := EscapeByte(b);
    assert forall k :: 0 <= k < |e| ==> text[i + k] == e[k];
    assert ClosingQuote(text, i, false) == ClosingQuote(text, i + 1, e[0] == BACKSLASH);
    if |e| > 1 {
      assert ClosingQuote(text, i + 1, true) == ClosingQuote(text, i + 2, false);
      if |e| == 6 {
        assert e[2] == '0' && e[3] == '0';
        assert e[4] != QUOTE && e[4] != BACKSLASH && e[5] != QUOTE && e[5] != BACKSLASH by {
          HexRoundTrip(b as int / 16);
          HexRoundTrip(b as int % 16);
        }
        assert ClosingQuote(text, i + 2, false) == ClosingQuote(text, i + 3, false);
        assert ClosingQuote(text, i + 3, false) == ClosingQuote(text, i + 4, false);
        assert ClosingQuote(text, i + 4, false) == ClosingQuote(text, i + 5, false);
      }
    }
  }

  /** The quoted form ends at its own closing quote, whatever follows it. */
  lemma QuotedEnds(s: seq<byte>, after: string)
    ensures StrEnd("\"" + Escape(s) + "\"" + after) == Some(|Escape(s)| + 2)
  {
    hide Escape;
    var text := "\"" + Escape(s) + "\"" + after;
    assert Here(text, 1, Escape(s));
    EscapedHasNoEnd(s, text, 1);
    assert text[|Escape(s)| + 1] == QUOTE;
  }

  // ----- The loops

  /** A UTF-8 reader: how many bytes the code point at the start of s takes, zero or less when it is malformed.
      ASCII reads as itself and longer reads cover only bytes above ASCII. */
  ghost predicate ReadsUtf8(read: seq<byte> -> int) {
    forall s: seq<byte> :: s != [] ==>
      && read(s) <= |s|
      && (s[0] as int < 128 <==> read(s) == 1)
      && (read(s) > 1 ==> forall k :: 0 <= k < read(s) ==> s[k] as int >= 128)
  }

  /** Bytes above ASCII are written unchanged. */
  lemma {:induction false} EscapeHigh(s: seq<byte>)
    requires forall k :: 0 <= k < |s| ==> s[k] as int >= 128
    ensures Escape(s) == s
  {
    if s != [] {
      EscapeHigh(s[1..]);
    }
  }

  lemma {:induction false} EscapeConcat(s: seq<byte>, t: seq<byte>)
    ensures Escape(s + t) == Escape(s) + Escape(t)
  {
    hide EscapeByte;
    if s == [] {
      assert s + t == t;
    } else {
      var rest := s[1..];
      EscapeConcat(rest, t);
      assert (s + t)[1..] == rest + t && (s + t)[0] == s[0];
      var e, x, y := EscapeByte(s[0]), Escape(rest), Escape(t);
      assert Escape(s + t) == e + (x + y);
      assert Escape(s) == e + x;
      assert e + (x + y) == (e + x) + y;
    }
  }

  /** One read of the writer: the bytes it takes and what it writes for them. */
  lemma EscapeRead(current: seq<byte>, head: seq<byte>)
    requires head != [] && head <= current
    requires (|head| == 1 && head[0] as int < 128) || forall k :: 0 <= k < |head| ==> head[k] as int >= 128
    ensures Escape(current) == (if head[0] as int < 128 then EscapeByte(head[0]) else head) + Escape(current[|head|..])
  {
    EscapeConcat(head, current[|head|..]);
    assert head + current[|head|..] == current;
    if head[0] as int >= 128 {
      EscapeHigh(head);
    } else {
      hide EscapeByte;
      assert head[1..] == [];
    }
  }

  /** What a read takes is one ASCII byte or only bytes above ASCII. */
  lemma ReadShape(read: seq<byte> -> int, s: seq<byte>, n: int)
    requires ReadsUtf8(read) && s != [] && n == if read(s) <= 0 then 1 else read(s)
    ensures 1 <= n <= |s|
    ensures (n == 1 && s[0] as int < 128) || forall k :: 0 <= k < n ==> s[k] as int >= 128
    ensures read(s) == 1 <==> s[0] as int < 128
  {
  }

  /** Code point by code point, or byte by byte where the text is not UTF-8: the result is the byte-wise escape. */
  method EscapeText(data: seq<byte>, read: seq<byte> -> int) returns (result: seq<byte>)
    requires ReadsUtf8(read)
    ensures result == Escape(data)
  {
    hide EscapeByte, Escape, ReadsUtf8;
    result := [];
    var current := data;
    while current != []
      invariant result + Escape(current) == Escape(data)
      decreases |current|
    {
      var n := read(current);
      var taken := if n <= 0 then 1 else n;
      ReadShape(read, current, taken);
      var head := current[..taken];
      EscapeRead(current, head);
      result := result + if n == 1 then EscapeByte(current[0]) else head;
      current := current[taken..];
    }
    assert Escape(current) == [] by { EscapeNothing(); }
  }

  lemma EscapeNothing()
    ensures Escape([]) == []
  {
  }

  /** Replacing the escape sequence at i leaves what is still to be read. */
  lemma ReplaceStep(s: seq<byte>, i: nat, t: seq<byte>)
    requires i + 1 < |s| && s[i] == BACKSLASH
    requires var r := Decode(s[i..]); t == s[..i] + r.0 + s[i + r.1..]
    ensures var j := i + |Decode(s[i..]).0|;
            j <= |t| && |t| - j < |s| - i && t[..j] + Unescape(t[j..]) == s[..i] + Unescape(s[i..])
  {
    hide Decode;
    var r := Decode(s[i..]);
    var j := i + |r.0|;
    assert t[j..] == s[i + r.1..] == s[i..][r.1..];
    assert t[..j] == s[..i] + r.0;
  }

  lemma ShortStays(s: seq<byte>)
    requires |s| < 2
    ensures Unescape(s) == s
  {
  }

  /** Moving over a plain byte leaves what is still to be read. */
  lemma KeepStep(s: seq<byte>, i: nat)
    requires i + 1 < |s| && s[i] != BACKSLASH
    ensures s[..i + 1] + Unescape(s[i + 1..]) == s[..i] + Unescape(s[i..])
  {
    hide Decode;
    assert s[i..][1..] == s[i + 1..];
    assert s[..i + 1] == s[..i] + [s[i]];
  }

  /** Replaces escape sequences in place, skipping over what was just written. */
  method UnescapeInPlace(text: seq<byte>) returns (s: seq<byte>)
    ensures s == Unescape(text)
  {
    hide Decode, Unescape;
    assert [] + Unescape(text[0..]) == Unescape(text) by { assert text[0..] == text; }
    s := text;
    var i := 0;
    while i + 1 < |s|
      invariant 0 <= i <= |s|
      invariant s[..i] + Unescape(s[i..]) == Unescape(text)
      decreases |s| - i
    {
      if s[i] != BACKSLASH {
        KeepStep(s, i);
        i := i + 1;
      } else {
        var r := Decode(s[i..]);
        var t := s[..i] + r.0 + s[i + r.1..];
        ReplaceStep(s, i, t);
        s := t;
        i := i + |r.0|;
      }
    }
    ShortStays(s[i..]);
    assert s[..i] + s[i..] == s;
  }

  // ----- The format itself

  /** The short escapes of section 7 of RFC 8259 and the bytes they stand for. */
  const SHORT := "btnfr"
  const SHORT_BYTES: seq<int> := [8, 9, 10, 12, 13]

  /** How each byte is written: quote and backslash behind a backslash, five control characters with a letter, the
      others by their number in lower-case hexadecimal, and everything else as it is. */
  lemma EscapeIs(b: byte)
    ensures b == QUOTE || b == BACKSLASH ==> EscapeByte(b) == [BACKSLASH, b]
    ensures forall i :: 0 <= i < 5 && b as int == SHORT_BYTES[i] ==> EscapeByte(b) == [BACKSLASH, SHORT[i]]
    ensures (b < ' ' && b as int !in SHORT_BYTES) ==>
              exists x, y :: LowHex(x, b as int / 16) && LowHex(y, b as int % 16) && EscapeByte(b) == "\\u00" + [x, y]
    ensures b >= ' ' && b != QUOTE && b != BACKSLASH ==> EscapeByte(b) == [b]
  {
    if b < ' ' && b as int !in SHORT_BYTES {
      assert SHORT_BYTES[0] == 8 && SHORT_BYTES[1] == 9 && SHORT_BYTES[2] == 10;
      assert SHORT_BYTES[3] == 12 && SHORT_BYTES[4] == 13;
      var x, y := HEX[b as int / 16], HEX[b as int % 16];
      assert LowHex(x, b as int / 16) && LowHex(y, b as int % 16);
      assert EscapeByte(b) == "\\u00" + [x, y];
    }
  }

  /** c is the lower-case hexadecimal digit of d. */
  predicate LowHex(c: char, d: int) {
    if d < 10 then '0' <= c <= '9' && c as int == '0' as int + d else 'a' <= c <= 'f' && c as int == 'a' as int + d - 10
  }

  /** Escapes that are read but never written: a number in either case, a slash, and letters without a meaning. */
  lemma DecodeIs(s: seq<byte>)
    requires |s| >= 2 && s[0] == BACKSLASH
    ensures forall i :: 0 <= i < 5 && s[1] == SHORT[i] ==> Decode(s).0 == [SHORT_BYTES[i] as char]
    ensures s[1] !in SHORT && s[1] != 'u' ==> Decode(s) == ([s[1]], 2)
    ensures s[1] == 'u' && !HasCode(s) ==> Decode(s) == ("u", 2)
    ensures s[1] == 'u' && HasCode(s) ==> Decode(s).1 == 6 && IsUtf8(Decode(s).0, Code(s))
  {
    assert SHORT[0] == 'b' && SHORT[1] == 't' && SHORT[2] == 'n' && SHORT[3] == 'f' && SHORT[4] == 'r';
    if s[1] == 'u' && HasCode(s) {
      Utf8Is(Code(s));
    }
  }

  /** The bits of a code point in the bytes of section 3 of RFC 3629, in the shortest form. */
  predicate IsUtf8(r: seq<byte>, cp: int) {
    if cp < 0x80 then |r| == 1 && r[0] as int == cp
    else if cp < 0x800 then
      |r| == 2 && 0xC0 <= r[0] as int < 0xE0 && Follows(r[1]) && cp == (r[0] as int - 0xC0) * 64 + (r[1] as int - 0x80)
    else
      && |r| == 3 && 0xE0 <= r[0] as int < 0xF0 && Follows(r[1]) && Follows(r[2])
      && cp == (r[0] as int - 0xE0) * 4096 + (r[1] as int - 0x80) * 64 + (r[2] as int - 0x80)
  }

  predicate Follows(b: byte) { 0x80 <= b as int < 0xC0 }

  lemma Utf8Is(cp: int)
    requires 0 <= cp < 0x10000
    ensures IsUtf8(Utf8(cp), cp)
  {
    assert cp / 4096 == cp / 64 / 64;
    assert cp / 64 == cp / 4096 * 64 + cp / 64 % 64;
  }

  /** Hexadecimal digits mean the same in both cases. */
  lemma HexIs(d: int)
    requires 0 <= d < 16
    ensures var c := "0123456789ABCDEF"[d]; IsHex(c) && HexVal(c) == d
    ensures var c := "0123456789abcdef"[d]; IsHex(c) && HexVal(c) == d
  {
  }
}
