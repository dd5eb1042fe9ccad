/** Base64 with the URL alphabet and without padding (section 5 of RFC 4648). */
module Base64 {
  import opened Machine

  const NUL := 0 as char

  /** The character of the lowest six bits of c. */
  function To64(c: nat): char {
    var d := c % 64;
    if d < 26 then (d + 'A' as int) as char
    else if d < 52 then (d - 26 + 'a' as int) as char
    else if d < 62 then (d - 52 + '0' as int) as char
    else if d == 62 then '-' else '_'
  }

  /** The six bits of a character of either alphabet, 255 for any other character. */
  function From64(c: char): (d: byte)
    ensures d < 64 || d == 255
  {
    if 'A' <= c <= 'Z' then c as int - 'A' as int
    else if 'a' <= c <= 'z' then c as int - 'a' as int + 26
    else if '0' <= c <= '9' then c as int - '0' as int + 52
    else if c == '-' || c == '+' then 62
    else if c == '_' || c == '/' then 63
    else 255
  }

  lemma CharRoundTrip(d: nat)
    requires d < 64
    ensures From64(To64(d)) == d
  {
  }

  lemma NulEnds()
    ensures From64(NUL) == 255
  {
  }

  /** The six-bit digits of up to three bytes; the missing bits of the last digit are zero. */
  function Digits(b: seq<byte>): (d: seq<nat>)
    requires 1 <= |b| <= 3
    ensures |d| == |b| + 1 && forall k :: 0 <= k < |d| ==> d[k] < 64
  {
    if |b| == 1 then [b[0] / 4, b[0] % 4 * 16]
    else if |b| == 2 then [b[0] / 4, b[0] % 4 * 16 + b[1] / 16, b[1] % 16 * 4]
    else [b[0] / 4, b[0] % 4 * 16 + b[1] / 16, b[1] % 16 * 4 + b[2] / 64, b[2] % 64]
  }

  function Chars(d: seq<nat>): (a: string)
    ensures |a| == |d| && forall k :: 0 <= k < |d| ==> a[k] == To64(d[k])
  {
    seq(|d|, k requires 0 <= k < |d| => To64(d[k]))
  }

  /** Three bytes become four characters; one or two bytes left over become two or three. */
  function Encode(b: seq<byte>): string {
    if b == [] then ""
    else if |b| <= 3 then Chars(Digits(b))
    else Chars(Digits(b[..3])) + Encode(b[3..])
  }

  /** The character at i, the terminator after the last one. */
  function CharAt(a: string, i: nat): char {
    if i < |a| then a[i] else NUL
  }

  /** How many of the next four characters, up to the first foreign one, belong to the text. */
  function Valid(a: string, i: nat): (n: nat)
    ensures n <= 4
  {
    if From64(CharAt(a, i)) == 255 then 0
    else if From64(CharAt(a, i + 1)) == 255 then 1
    else if From64(CharAt(a, i + 2)) == 255 then 2
    else if From64(CharAt(a, i + 3)) == 255 then 3
    else 4
  }

  /** The bytes of a group of n characters. A lone character still makes one byte. */
  function Group(a: string, i: nat, n: nat): (b: seq<byte>)
    requires n == Valid(a, i)
    ensures |b| == if n <= 1 then n else n - 1
  {
    var c0, c1, c2, c3 := From64(CharAt(a, i)), From64(CharAt(a, i + 1)),
                          From64(CharAt(a, i + 2)), From64(CharAt(a, i + 3));
    if n == 0 then []
    else if n < 3 then [c0 * 4 + c1 % 64 / 16]
    else if n == 3 then [c0 * 4 + c1 / 16, c1 % 16 * 16 + c2 / 4]
    else [c0 * 4 + c1 / 16, c1 % 16 * 16 + c2 / 4, c2 % 4 * 64 + c3]
  }

  lemma ValidInside(a: string, i: nat)
    requires i <= |a|
    ensures i + Valid(a, i) <= |a|
  {
    NulEnds();
  }

  /** Group after group, until one is cut short. */
  function Decode(a: string, i: nat): (b: seq<byte>)
    requires i <= |a|
    decreases |a| - i
  {
    ValidInside(a, i);
    var n := Valid(a, i);
    if n < 4 then Group(a, i, n) else Group(a, i, n) + Decode(a, i + 4)
  }

  /** The digits of a group give its bytes back. */
  lemma DigitsBack(b: seq<byte>)
    requires 1 <= |b| <= 3
    ensures var d := Digits(b);
            && d[0] * 4 + d[1] / 16 == b[0]
            && (|b| > 1 ==> d[1] % 16 * 16 + d[2] / 4 == b[1])
            && (|b| > 2 ==> d[2] % 4 * 64 + d[3] == b[2])
  {
  }

  /** A written group is read as a group of its characters, when it is full or a foreign character follows. */
  lemma GroupBack(a: string, i: nat, b: seq<byte>)
    requires 1 <= |b| <= 3
    requires forall k :: 0 <= k < |b| + 1 ==> CharAt(a, i + k) == To64(Digits(b)[k])
    requires |b| < 3 ==> From64(CharAt(a, i + |b| + 1)) == 255
    ensures Valid(a, i) == |b| + 1 && Group(a, i, |b| + 1) == b
  {
    hide To64, From64, CharAt;
    var d := Digits(b);
    assert forall k :: 0 <= k < |b| + 1 ==> From64(CharAt(a, i + k)) == d[k] by {
      forall k | 0 <= k < |b| + 1
        ensures From64(CharAt(a, i + k)) == d[k]
      {
        CharRoundTrip(d[k]);
      }
    }
    DigitsBack(b);
    assert From64(CharAt(a, i + 0)) == d[0] && From64(CharAt(a, i + 1)) == d[1];
    assert |b| > 1 ==> From64(CharAt(a, i + 2)) == d[2];
    assert |b| > 2 ==> From64(CharAt(a, i + 3)) == d[3];
  }

  lemma {:induction false} EncodeLength(b: seq<byte>)
    ensures |Encode(b)| == (|b| * 4 + 2) / 3
  {
    if |b| > 3 {
      EncodeLength(b[3..]);
    }
  }

  lemma EncodeParts(b: seq<byte>)
    requires b != []
    ensures var head := if |b| <= 3 then b else b[..3];
            Encode(b) == Chars(Digits(head)) + (if |b| <= 3 then "" else Encode(b[3..]))
  {
    hide Chars, Digits;
  }

  lemma CharsHere(a: string, i: nat, g: seq<byte>)
    requires 1 <= |g| <= 3 && i + |g| + 1 <= |a| && a[i..i + |g| + 1] == Chars(Digits(g))
    ensures forall k :: 0 <= k < |g| + 1 ==> CharAt(a, i + k) == To64(Digits(g)[k])
  {
    hide To64, Digits;
    forall k | 0 <= k < |g| + 1
      ensures CharAt(a, i + k) == To64(Digits(g)[k])
    {
      assert a[i..i + |g| + 1][k] == a[i + k];
    }
  }

  lemma DecodeFull(a: string, i: nat)
    requires i <= |a| && Valid(a, i) == 4
    ensures i + 4 <= |a| && Decode(a, i) == Group(a, i, 4) + Decode(a, i + 4)
  {
    hide Group, Valid;
    ValidInside(a, i);
  }

  /** Decoding what was encoded gives the same bytes, wherever it stands, when a foreign character follows. */
  lemma {:induction false} RoundTripAt(a: string, i: nat, b: seq<byte>)
    requires i + |Encode(b)| <= |a| && a[i..i + |Encode(b)|] == Encode(b)
    requires From64(CharAt(a, i + |Encode(b)|)) == 255
    ensures Decode(a, i) == b
    decreases |b|
  {
    hide To64, From64, Digits, Chars, Group, Valid, CharAt;
    if b == [] {
      assert Encode(b) == "";
      Ends(a, i);
    } else {
      var e := Encode(b);
      var g := if |b| <= 3 then b else b[..3];
      var w := |g| + 1;
      EncodeParts(b);
      assert a[i..i + w] == e[..w] == Chars(Digits(g));
      CharsHere(a, i, g);
      GroupBack(a, i, g);
      if |b| >= 3 {
        DecodeFull(a, i);
        assert a[i + 4..i + |e|] == e[4..];
        if |b| == 3 {
          Ends(a, i + 4);
        } else {
          RoundTripAt(a, i + 4, b[3..]);
          assert b == g + b[3..];
        }
      }
    }
  }

  lemma Ends(a: string, i: nat)
    requires i <= |a| && From64(CharAt(a, i)) == 255
    ensures Decode(a, i) == []
  {
  }

  /** Decoding undoes encoding, for every byte string. */
  lemma RoundTrip(b: seq<byte>)
    ensures Decode(Encode(b), 0) == b
  {
    NulEnds();
    RoundTripAt(Encode(b), 0, b);
  }

  // ----- The loops over buffers

  /** Writes the characters of the group at i; answers how many. */
  method WriteGroup(b: seq<byte>, i: nat, a: array<char>, p: nat) returns (n: nat)
    requires i < |b|
    requires var g := if |b| - i <= 3 then b[i..] else b[i..i + 3]; p + |g| + 1 <= a.Length
    modifies a
    ensures var g := if |b| - i <= 3 then b[i..] else b[i..i + 3];
            n == |g| + 1 && a[..p] == old(a[..p]) && a[p..p + n] == Chars(Digits(g))
  {
    hide To64;
    var left := |b| - i;
    a[p] := To64(b[i] / 4);
    a[p + 1] := To64(b[i] % 4 * 16 + if left > 1 then b[i + 1] / 16 else 0);
    if left < 2 {
      return 2;
    }
    a[p + 2] := To64(b[i + 1] % 16 * 4 + if left > 2 then b[i + 2] / 64 else 0);
    if left < 3 {
      return 3;
    }
    a[p + 3] := To64(b[i + 2] % 64);
    return 4;
  }

  /** One group of the encoding. */
  lemma EncodeGroup(b: seq<byte>, i: nat)
    requires i < |b|
    ensures var g := if |b| - i <= 3 then b[i..] else b[i..i + 3];
            var j := if |b| - i <= 3 then |b| else i + 3;
            && Encode(b[i..]) == Chars(Digits(g)) + Encode(b[j..])
            && |Encode(b[i..])| == |g| + 1 + |Encode(b[j..])|
  {
    hide Digits;
    var rest := b[i..];
    if |rest| > 3 {
      assert rest[..3] == b[i..i + 3] && rest[3..] == b[i + 3..];
    } else {
      assert b[|b|..] == [];
    }
  }

  lemma NothingLeft(b: seq<byte>)
    ensures Encode(b[|b|..]) == ""
  {
    assert b[|b|..] == [];
  }

  /** Encodes into a buffer with room for the text and its terminator. */
  method Btoa(b: seq<byte>, a: array<char>) returns (p: nat)
    requires |b| * 4 + 2 < a.Length * 3
    modifies a
    ensures p == |Encode(b)| < a.Length && a[..p] == Encode(b) && a[p] == NUL
  {
    hide Digits, Chars, Encode;
    EncodeLength(b);
    var i := 0;
    p := 0;
    assert b[0..] == b;
    while i < |b|
      invariant 0 <= i <= |b| && p <= a.Length
      invariant p + |Encode(b[i..])| == |Encode(b)| < a.Length
      invariant a[..p] + Encode(b[i..]) == Encode(b)
    {
      EncodeGroup(b, i);
      ghost var before := a[..p];
      var n := WriteGroup(b, i, a, p);
      assert a[..p + n] == before + a[p..p + n];
      p := p + n;
      i := if |b| - i <= 3 then |b| else i + 3;
    }
    NothingLeft(b);
    a[p] := NUL;
  }

  /** The string form: the buffer it allocates is large enough for every input. */
  method BtoaString(b: seq<byte>) returns (s: string)
    ensures s == Encode(b)
  {
    var out := new char[|b| * 4 / 3 + 4];
    var p := Btoa(b, out);
    s := out[..p];
  }

  lemma {:induction false} DecodeLength(a: string, i: nat)
    requires i <= |a|
    ensures |Decode(a, i)| * 4 <= (|a| - i) * 3 + 3
    decreases |a| - i
  {
    ValidInside(a, i);
    if Valid(a, i) == 4 {
      DecodeLength(a, i + 4);
    }
  }

  /** Writes the bytes of a group one by one, as long as there is room. */
  method WriteBytes(g: seq<byte>, b: array<byte>, p: nat) returns (q: nat)
    requires p <= b.Length
    modifies b
    ensures q == Min(p + |g|, b.Length) && b[..p] == old(b[..p]) && b[p..q] == g[..q - p]
  {
    q := p;
    for k := 0 to |g|
      invariant q == Min(p + k, b.Length) && b[..p] == old(b[..p]) && b[p..q] == g[..q - p]
    {
      if q >= b.Length {
        return;
      }
      b[q] := g[k];
      q := q + 1;
      assert b[p..q] == b[p..q - 1] + [g[k]];
    }
  }

  /** Decodes into a buffer, cutting off what does not fit. */
  method Atob(a: string, b: array<byte>) returns (p: nat)
    modifies b
    ensures p == Min(|Decode(a, 0)|, b.Length) && b[..p] == Decode(a, 0)[..p]
  {
    hide Group, Valid, CharAt, From64;
    var i := 0;
    p := 0;
    ghost var all := Decode(a, 0);
    ghost var done: seq<byte> := [];
    while true
      invariant 0 <= i <= |a| && done + Decode(a, i) == all
      invariant p == Min(|done|, b.Length) && b[..p] == done[..p]
      decreases |a| - i
    {
      ValidInside(a, i);
      var n := Valid(a, i);
      var g := Group(a, i, n);
      ghost var before := p;
      p := WriteBytes(g, b, p);
      assert b[..p] == (done + g)[..p] by { Joined(b[..], done, g, before, p); }
      done := done + g;
      if n < 4 || p >= b.Length {
        assert n < 4 ==> done == all;
        return;
      }
      i := i + 4;
    }
  }

  lemma Joined(b: seq<byte>, done: seq<byte>, g: seq<byte>, p: nat, q: nat)
    requires p <= q <= |b| && p == Min(|done|, |b|) && q == Min(p + |g|, |b|)
    requires b[..p] == done[..p] && b[p..q] == g[..q - p]
    ensures q <= |done + g| && b[..q] == (done + g)[..q]
  {
    assert b[..q] == b[..p] + b[p..q];
  }

  /** The string form: the buffer it allocates never cuts anything off. */
  method AtobString(a: string) returns (s: seq<byte>)
    ensures s == Decode(a, 0)
  {
    var out := new byte[|a| * 3 / 4 + 3];
    var p := Atob(a, out);
    DecodeLength(a, 0);
    s := out[..p];
  }

  // ----- Numbers

  /** A number in base 64, the highest digit first. */
  function IntText(v: nat): (s: string)
    ensures s != ""
  {
    if v < 64 then [To64(v)] else IntText(v / 64) + [To64(v % 64)]
  }

  /** The number of the digits of a text; foreign characters are passed over. */
  function IntValue(s: string): nat {
    if s == "" then 0
    else
      var last := |s| - 1;
      var d := From64(s[last]);
      if d == 255 then IntValue(s[..last]) else IntValue(s[..last]) * 64 + d
  }

  /** Some character is a digit. */
  predicate HasDigit(s: string) {
    exists i :: 0 <= i < |s| && From64(s[i]) != 255
  }

  /** Reading undoes writing, for every number. */
  lemma {:induction false} IntRoundTrip(v: nat)
    ensures IntValue(IntText(v)) == v && HasDigit(IntText(v))
  {
    hide To64, From64;
    var s := IntText(v);
    var last := |s| - 1;
    CharRoundTrip(v % 64);
    assert From64(s[last]) == v % 64;
    if v < 64 {
      assert s[..last] == "" && IntValue("") == 0;
    } else {
      IntRoundTrip(v / 64);
      assert s[..last] == IntText(v / 64);
    }
  }

  /** Puts the digits in front of one another, from the lowest up; a negative number leaves the text as it is. */
  method Itoa(val: int, before: string) returns (result: string)
    ensures result == if val < 0 then before else IntText(val)
  {
    if val < 0 {
      return before;
    }
    if val == 0 {
      return "A";
    }
    result := "";
    var rest := val;
    while rest != 0
      invariant rest >= 0
      invariant rest == 0 ==> result == IntText(val)
      invariant rest > 0 ==> IntText(rest) + result == IntText(val)
      decreases rest
    {
      var d := rest % 64;
      assert rest >= 64 ==> IntText(rest) + result == IntText(rest / 64) + ([To64(d)] + result);
      result := [To64(d)] + result;
      rest := rest / 64;
    }
  }

  method Atoi(val: string) returns (res: int)
    ensures res == if HasDigit(val) then IntValue(val) else -1
  {
    hide From64;
    res := 0;
    var valid := 0;
    for pos := 0 to |val|
      invariant valid >= 0 && res == IntValue(val[..pos]) && (valid > 0 <==> HasDigit(val[..pos]))
    {
      assert val[..pos + 1][..pos] == val[..pos];
      ghost var more := val[..pos + 1];
      assert HasDigit(more) <==> HasDigit(val[..pos]) || From64(more[pos]) != 255 by {
        DigitAdded(val[..pos], val[pos]);
        assert more == val[..pos] + [val[pos]];
      }
      var b := From64(val[pos]);
      if b == 255 {
        continue;
      }
      valid := valid + 1;
      res := res * 64 + b;
    }
    assert val[..|val|] == val;
    if valid == 0 {
      return -1;
    }
  }

  lemma DigitAdded(s: string, c: char)
    ensures HasDigit(s + [c]) <==> HasDigit(s) || From64(c) != 255
  {
    hide From64;
    var t := s + [c];
    if HasDigit(s) {
      var i :| 0 <= i < |s| && From64(s[i]) != 255;
      assert t[i] == s[i];
    }
    assert t[|s|] == c;
  }

  // ----- The format itself

  /** The URL alphabet of section 5 of RFC 4648. */
  const ALPHABET := "ABCDEFGHIJKLMNOPQRSTUVWXYZ" + "abcdefghijklmnopqrstuvwxyz" + "0123456789" + "-_"

  lemma AlphabetAt(d: nat)
    requires d < 64
    ensures |ALPHABET| == 64 && To64(d) == ALPHABET[d]
  {
    if d < 26 {
      Capital(d);
    } else if d < 52 {
      Small(d - 26);
    } else if d < 62 {
      assert "0123456789"[d - 52] == (d - 52 + '0' as int) as char;
    }
  }

  lemma Capital(d: nat)
    requires d < 26
    ensures "ABCDEFGHIJKLMNOPQRSTUVWXYZ"[d] == (d + 'A' as int) as char
  {
  }

  lemma Small(d: nat)
    requires d < 26
    ensures "abcdefghijklmnopqrstuvwxyz"[d] == (d + 'a' as int) as char
  {
  }

  lemma ReadAs(d: nat, c: char)
    requires d < 64
    ensures From64(c) == d <==> c == To64(d) || (d == 62 && c == '+') || (d == 63 && c == '/')
  {
  }

  /** Digits are written with the alphabet, and read with it or with the two other characters of section 4. */
  lemma AlphabetIs(d: nat)
    requires d < 64
    ensures |ALPHABET| == 64 && To64(d) == ALPHABET[d]
    ensures forall c: char :: From64(c) == d <==> c == ALPHABET[d] || (d == 62 && c == '+') || (d == 63 && c == '/')
  {
    hide To64, From64;
    AlphabetAt(d);
    forall c: char
      ensures From64(c) == d <==> c == ALPHABET[d] || (d == 62 && c == '+') || (d == 63 && c == '/')
    {
      ReadAs(d, c);
    }
  }

  /** Three bytes are four digits of one number of 24 bits, the highest first; fewer bytes are followed by zero bits. */
  lemma DigitsAre(b: seq<byte>)
    requires 1 <= |b| <= 3
    ensures var d := Digits(b); var x: int := b[0];
            if |b| == 1 then x * 16 == d[0] * 64 + d[1]
            else
              var y: int := b[1];
              if |b| == 2 then (x * 256 + y) * 4 == d[0] * 4096 + d[1] * 64 + d[2]
              else
                var z: int := b[2];
                x * 65536 + y * 256 + z == d[0] * 262144 + d[1] * 4096 + d[2] * 64 + d[3]
  {
  }

  /** The text of a number in base 64, the highest digit first. */
  lemma {:induction false} IntTextIs(v: nat, u: nat, d: nat)
    requires d < 64 && v == 64 * u + d
    ensures IntText(v) == (if u == 0 then "" else IntText(u)) + [ALPHABET[d]]
  {
    assert v / 64 == u && v % 64 == d;
    AlphabetIs(d);
  }

  /** What the characters of a group give: their bits in order; one character alone is read as if it were followed by
      one with all bits set. */
  lemma GroupIs(a: string, i: nat)
    ensures var b, n := Group(a, i, Valid(a, i)), Valid(a, i);
            var d0: int, d1: int, d2: int, d3: int :=
              From64(CharAt(a, i)), From64(CharAt(a, i + 1)), From64(CharAt(a, i + 2)), From64(CharAt(a, i + 3));
            && (n == 1 ==> b == [4 * d0 + 3])
            && (n == 2 ==> b == [(d0 * 64 + d1) / 16])
            && (n == 3 ==> var x: int, y: int := b[0], b[1]; x * 256 + y == (d0 * 4096 + d1 * 64 + d2) / 4)
            && (n == 4 ==> var x: int, y: int, z: int := b[0], b[1], b[2];
                           x * 65536 + y * 256 + z == d0 * 262144 + d1 * 4096 + d2 * 64 + d3)
  {
  }
}
