/** Base32 with lower-case letters and without padding (section 6 of RFC 4648). Text and data are bytes. */
module Base32 {

  /** The character of the lowest five bits of c. */
  function To32(c: bv8): bv8 {
    if c & 31 < 26 then (c & 31) + 97 else (c & 31) - 26 + 50
  }

  /** The five bits of a character, 255 for a foreign one; 8 and 9 are read as 32 and 33. */
  function From32(c: bv8): bv8 {
    if 97 <= c <= 122 then c - 97 else if 50 <= c <= 57 then c - 50 + 26 else 255
  }

  lemma CharRoundTrip(c: bv8)
    ensures From32(To32(c)) == c & 31 && c & 31 != 255
  {
  }

  /** How many characters hold n bytes. */
  function Width(n: nat): (w: nat)
    requires n <= 5
    ensures n <= w <= 8
  {
    if n == 0 then 0 else if n == 1 then 2 else if n == 2 then 4 else if n == 3 then 5 else if n == 4 then 7 else 8
  }

  /** Byte k of a group, zero after its end. */
  function At(b: seq<bv8>, k: nat): bv8 {
    if k < |b| then b[k] else 0
  }

  /** What the characters of a group are made from; only the lowest five bits count. */
  function Digit(b: seq<bv8>, k: nat): bv8
    requires k < 8
  {
    if k == 0 then At(b, 0) >> 3
    else if k == 1 then (At(b, 0) << 2) | (At(b, 1) >> 6)
    else if k == 2 then At(b, 1) >> 1
    else if k == 3 then (At(b, 1) << 4) | (At(b, 2) >> 4)
    else if k == 4 then (At(b, 2) << 1) | (At(b, 3) >> 7)
    else if k == 5 then At(b, 3) >> 2
    else if k == 6 then (At(b, 3) << 3) | (At(b, 4) >> 5)
    else At(b, 4)
  }

  function Five(b: seq<bv8>, k: nat): bv8
    requires k < 8
  {
    Digit(b, k) & 31
  }

  function Head(b: seq<bv8>): (g: seq<bv8>)
    ensures |g| <= 5 && g <= b
  {
    if |b| <= 5 then b else b[..5]
  }

  /** The characters of a group of up to five bytes. */
  function Chars(g: seq<bv8>): (a: seq<bv8>)
    requires |g| <= 5
    ensures |a| == Width(|g|)
  {
    seq(Width(|g|), k requires 0 <= k < Width(|g|) => To32(Digit(g, k)))
  }

  function Encode(b: seq<bv8>): seq<bv8> {
    if b == [] then [] else Chars(Head(b)) + Encode(b[|Head(b)|..])
  }

  /** The bits of character n after i; the terminator after the last character is foreign. */
  function Bits(a: seq<bv8>, i: nat, n: nat): bv8 {
    if i + n < |a| then From32(a[i + n]) else 255
  }

  /** How many of the next characters, up to eight, belong to the text. */
  function Valid(a: seq<bv8>, i: nat, n: nat): (r: nat)
    requires n <= 8
    ensures n <= r <= 8 && (r < 8 ==> Bits(a, i, r) == 255)
    ensures forall k :: n <= k < r ==> Bits(a, i, k) != 255
    decreases 8 - n
  {
    if n == 8 || Bits(a, i, n) == 255 then n else Valid(a, i, n + 1)
  }

  /** How many bytes n characters give. */
  function Bytes(n: nat): (r: nat)
    requires n <= 8
    ensures r <= 5
  {
    if n == 0 then 0 else if n < 4 then 1 else if n < 5 then 2 else if n < 7 then 3 else if n < 8 then 4 else 5
  }

  function Byte0(c0: bv8, c1: bv8): bv8 { (c0 << 3) | ((c1 & 0x1C) >> 2) }
  function Byte1(c1: bv8, c2: bv8, c3: bv8): bv8 { (c1 << 6) | (c2 << 1) | ((c3 & 0x10) >> 4) }
  function Byte2(c3: bv8, c4: bv8): bv8 { (c3 << 4) | ((c4 & 0x1E) >> 1) }
  function Byte3(c4: bv8, c5: bv8, c6: bv8): bv8 { (c4 << 7) | (c5 << 2) | ((c6 & 0x18) >> 3) }
  function Byte4(c6: bv8, c7: bv8): bv8 { (c6 << 5) | c7 }

  /** Byte k of a group of characters. */
  function ByteOf(a: seq<bv8>, i: nat, k: nat): bv8
    requires k < 5
  {
    if k == 0 then Byte0(Bits(a, i, 0), Bits(a, i, 1))
    else if k == 1 then Byte1(Bits(a, i, 1), Bits(a, i, 2), Bits(a, i, 3))
    else if k == 2 then Byte2(Bits(a, i, 3), Bits(a, i, 4))
    else if k == 3 then Byte3(Bits(a, i, 4), Bits(a, i, 5), Bits(a, i, 6))
    else Byte4(Bits(a, i, 6), Bits(a, i, 7))
  }

  function Group(a: seq<bv8>, i: nat, n: nat): (b: seq<bv8>)
    requires n <= 8
    ensures |b| == Bytes(n)
  {
    seq(Bytes(n), k requires 0 <= k < Bytes(n) => ByteOf(a, i, k))
  }

  lemma ValidInside(a: seq<bv8>, i: nat, n: nat)
    requires n <= 8 && i + n <= |a|
    ensures i + Valid(a, i, n) <= |a|
    decreases 8 - n
  {
    if n < 8 && Bits(a, i, n) != 255 {
      ValidInside(a, i, n + 1);
    }
  }

  /** Group after group, until one is cut short. */
  function Decode(a: seq<bv8>, i: nat): seq<bv8>
    requires i <= |a|
    decreases |a| - i
  {
    ValidInside(a, i, 0);
    var n := Valid(a, i, 0);
    if n < 8 then Group(a, i, n) else Group(a, i, n) + Decode(a, i + 8)
  }

  // ----- Decoding undoes encoding

  lemma Back0(g: seq<bv8>)
    ensures Byte0(Five(g, 0), Five(g, 1)) == At(g, 0)
  {
    hide At;
  }

  lemma Back1(g: seq<bv8>)
    ensures Byte1(Five(g, 1), Five(g, 2), Five(g, 3)) == At(g, 1)
  {
    hide At;
  }

  lemma Back2(g: seq<bv8>)
    ensures Byte2(Five(g, 3), Five(g, 4)) == At(g, 2)
  {
    hide At;
  }

  lemma Back3(g: seq<bv8>)
    ensures Byte3(Five(g, 4), Five(g, 5), Five(g, 6)) == At(g, 3)
  {
    hide At;
  }

  lemma Back4(g: seq<bv8>)
    ensures Byte4(Five(g, 6), Five(g, 7)) == At(g, 4)
  {
    hide At;
  }

  /** Text that reads as the digits of a group gives the bytes of the group. */
  lemma ByteBack(a: seq<bv8>, i: nat, g: seq<bv8>, k: nat)
    requires 1 <= |g| <= 5 && k < |g|
    requires forall n :: 0 <= n < Width(|g|) ==> Bits(a, i, n) == Five(g, n)
    ensures ByteOf(a, i, k) == g[k]
  {
    hide Byte0, Byte1, Byte2, Byte3, Byte4, Bits, Five;
    Back0(g);
    Back1(g);
    Back2(g);
    Back3(g);
    Back4(g);
  }

  lemma {:induction false} ValidIs(a: seq<bv8>, i: nat, n: nat, w: nat)
    requires n <= w <= 8 && (forall k :: n <= k < w ==> Bits(a, i, k) != 255) && (w < 8 ==> Bits(a, i, w) == 255)
    ensures Valid(a, i, n) == w
    decreases 8 - n
  {
    hide Bits;
    if n < w {
      ValidIs(a, i, n + 1, w);
    }
  }

  lemma GroupBack(a: seq<bv8>, i: nat, g: seq<bv8>)
    requires 1 <= |g| <= 5
    requires forall n :: 0 <= n < Width(|g|) ==> Bits(a, i, n) == Five(g, n) && Bits(a, i, n) != 255
    requires |g| < 5 ==> Bits(a, i, Width(|g|)) == 255
    ensures Valid(a, i, 0) == Width(|g|) && Group(a, i, Width(|g|)) == g
  {
    hide Bits, Five, ByteOf;
    ValidIs(a, i, 0, Width(|g|));
    forall k | 0 <= k < |g|
      ensures ByteOf(a, i, k) == g[k]
    {
      ByteBack(a, i, g, k);
    }
  }

  lemma CharsBits(a: seq<bv8>, i: nat, g: seq<bv8>)
    requires 1 <= |g| <= 5 && i + Width(|g|) <= |a| && a[i..i + Width(|g|)] == Chars(g)
    ensures forall n :: 0 <= n < Width(|g|) ==> Bits(a, i, n) == Five(g, n) && Bits(a, i, n) != 255
  {
    hide From32, To32, Digit;
    forall n | 0 <= n < Width(|g|)
      ensures Bits(a, i, n) == Five(g, n) && Bits(a, i, n) != 255
    {
      assert a[i + n] == Chars(g)[n];
      CharRoundTrip(Digit(g, n));
    }
  }

  lemma Ends(a: seq<bv8>, i: nat)
    requires i == |a|
    ensures Decode(a, i) == []
  {
  }

  lemma Past(a: seq<bv8>, i: nat, n: nat)
    requires i + n >= |a|
    ensures Bits(a, i, n) == 255
  {
  }

  lemma {:induction false} RoundTripAt(a: seq<bv8>, i: nat, b: seq<bv8>)
    requires i <= |a| && a[i..] == Encode(b)
    ensures Decode(a, i) == b
    decreases |b|
  {
    hide From32, To32, Five, Chars, ByteOf, Bits, Valid, Group;
    if b == [] {
      Ends(a, i);
    } else {
      var g := Head(b);
      var w := Width(|g|);
      var rest := b[|g|..];
      assert a[i..][..w] == Chars(g) && a[i..][w..] == Encode(rest);
      assert a[i..i + w] == Chars(g) && a[i + w..] == Encode(rest);
      CharsBits(a, i, g);
      if |g| < 5 {
        Past(a, i, w);
      }
      GroupBack(a, i, g);
      if |g| == 5 {
        RoundTripAt(a, i + 8, rest);
        assert b == g + rest;
      }
    }
  }

  /** Decoding undoes encoding, for every byte string. */
  lemma RoundTrip(b: seq<bv8>)
    ensures Decode(Encode(b), 0) == b
  {
    assert Encode(b)[0..] == Encode(b);
    RoundTripAt(Encode(b), 0, b);
  }

  lemma {:induction false} EncodeLength(b: seq<bv8>)
    ensures |Encode(b)| == (|b| * 8 + 4) / 5
  {
    if |b| > 5 {
      EncodeLength(b[5..]);
    } else if b != [] {
      assert b[|b|..] == [];
    }
  }

  // ----- The loops over buffers

  /** Writes the characters of a group. */
  method WriteChars(g: seq<bv8>, a: array<bv8>, p: nat)
    requires |g| <= 5 && p + Width(|g|) <= a.Length
    modifies a
    ensures a[..p] == old(a[..p]) && a[p..p + Width(|g|)] == Chars(g)
  {
    hide To32, Digit;
    for k := 0 to Width(|g|)
      invariant a[..p] == old(a[..p]) && a[p..p + k] == Chars(g)[..k]
    {
      a[p + k] := To32(Digit(g, k));
      assert a[p..p + k + 1] == a[p..p + k] + [a[p + k]];
    }
  }

  lemma EncodeStep(b: seq<bv8>)
    requires b != []
    ensures Head(b) != [] && Encode(b) == Chars(Head(b)) + Encode(b[|Head(b)|..])
  {
  }

  method Btoa(b: seq<bv8>, a: array<bv8>) returns (p: nat)
    requires |Encode(b)| < a.Length
    modifies a
    ensures p == |Encode(b)| && a[..p] == Encode(b) && a[p] == 0
  {
    hide Chars, Width, Encode, Head;
    p := 0;
    var rest := b;
    while rest != []
      invariant p + |Encode(rest)| == |Encode(b)| && a[..p] + Encode(rest) == Encode(b)
      decreases |rest|
    {
      EncodeStep(rest);
      var g := Head(rest);
      ghost var tail := Encode(rest[|g|..]);
      ghost var before := a[..p];
      WriteChars(g, a, p);
      var q := p + Width(|g|);
      assert a[..q] == before + Chars(g);
      assert before + Chars(g) + tail == before + (Chars(g) + tail);
      p, rest := q, rest[|g|..];
    }
    EncodeNothing();
    a[p] := 0;
  }

  lemma EncodeNothing()
    ensures Encode([]) == []
  {
  }

  /** Counts the characters of the next group. */
  method CountValid(a: seq<bv8>, i: nat) returns (n: nat)
    ensures n == Valid(a, i, 0)
  {
    hide Bits;
    n := 0;
    while n < 8 && Bits(a, i, n) != 255
      invariant n <= 8 && Valid(a, i, n) == Valid(a, i, 0)
    {
      n := n + 1;
    }
  }

  /** Writes the bytes of a group, as far as the buffer goes. */
  method WriteBytes(g: seq<bv8>, b: array<bv8>, p: nat) returns (q: nat)
    requires p <= b.Length
    modifies b
    ensures p <= q <= b.Length && q == (if p + |g| < b.Length then p + |g| else b.Length)
    ensures b[..p] == old(b[..p]) && b[p..q] == g[..q - p]
  {
    q := p;
    while q < p + |g| && q < b.Length
      invariant p <= q <= b.Length && q <= p + |g| && b[..p] == old(b[..p]) && b[p..q] == g[..q - p]
    {
      b[q] := g[q - p];
      assert b[p..q + 1] == b[p..q] + [b[q]];
      q := q + 1;
    }
  }

  lemma DecodeStep(a: seq<bv8>, i: nat)
    requires i <= |a|
    ensures i + Valid(a, i, 0) <= |a|
    ensures Decode(a, i) == Group(a, i, Valid(a, i, 0)) + (if Valid(a, i, 0) < 8 then [] else Decode(a, i + 8))
  {
    hide Group, Valid;
    ValidInside(a, i, 0);
  }

  /** Decodes into a buffer, as much of the text as it can hold. */
  method Atob(a: seq<bv8>, b: array<bv8>) returns (p: nat)
    modifies b
    ensures p <= |Decode(a, 0)| && (p == |Decode(a, 0)| || p == b.Length) && p <= b.Length &&
            b[..p] == Decode(a, 0)[..p]
  {
    hide Group, Valid, Decode;
    p := 0;
    var i := 0;
    ghost var all := Decode(a, 0);
    while true
      invariant i <= |a| && p <= b.Length && all == b[..p] + Decode(a, i)
      decreases |a| - i
    {
      DecodeStep(a, i);
      var n := CountValid(a, i);
      var g := Group(a, i, n);
      ghost var before := b[..p];
      var q := WriteBytes(g, b, p);
      assert b[..q] == before + g[..q - p];
      if q == b.Length || n < 8 {
        return q;
      }
      p, i := q, i + 8;
    }
  }

  // ----- The format itself

  /** The lower-case alphabet of section 6 of RFC 4648. */
  const ALPHABET := "abcdefghijklmnopqrstuvwxyz" + "234567"

  lemma AlphabetIs(c: bv8, d: nat)
    requires c as int == d < 32
    ensures |ALPHABET| == 32 && To32(c) as int == ALPHABET[d] as int
  {
    hide To32;
    AlphabetAt(d);
    if d < 26 {
      Letter(c, d);
    } else {
      Figure(c, d);
    }
  }

  lemma AlphabetAt(d: nat)
    requires d < 32
    ensures |ALPHABET| == 32 && ALPHABET[d] as int == if d < 26 then 97 + d else 24 + d
  {
    if d < 26 {
      assert ALPHABET[d] == "abcdefghijklmnopqrstuvwxyz"[d];
    } else {
      assert ALPHABET[d] == "234567"[d - 26];
    }
  }

  lemma Letter(c: bv8, d: nat)
    requires c as int == d < 26
    ensures To32(c) as int == 97 + d
  {
    assert c < 26 && c & 31 == c;
  }

  lemma Figure(c: bv8, d: nat)
    requires c as int == d && 26 <= d < 32
    ensures To32(c) as int == 24 + d
  {
    assert 26 <= c < 32 && c & 31 == c;
  }

  /** Five bytes are eight digits of one number of 40 bits, the highest first. */
  lemma DigitsAre(b0: bv40, b1: bv40, b2: bv40, b3: bv40, b4: bv40, g: seq<bv8>)
    requires |g| == 5 && b0 == g[0] as bv40 && b1 == g[1] as bv40 && b2 == g[2] as bv40 && b3 == g[3] as bv40
    requires b4 == g[4] as bv40
    ensures (b0 << 32) | (b1 << 24) | (b2 << 16) | (b3 << 8) | b4
            == (Five(g, 0) as bv40 << 35) | (Five(g, 1) as bv40 << 30) | (Five(g, 2) as bv40 << 25)
             | (Five(g, 3) as bv40 << 20) | (Five(g, 4) as bv40 << 15) | (Five(g, 5) as bv40 << 10)
             | (Five(g, 6) as bv40 << 5) | Five(g, 7) as bv40
  {
  }

  /** Reading: the alphabet, and two figures more. */
  lemma ReadAs(c: bv8)
    ensures From32(c) < 32 <==> (97 <= c <= 122 || 50 <= c <= 55)
    ensures From32(c) < 32 ==> To32(From32(c)) == c
    ensures From32(56) == 32 && From32(57) == 33 && (From32(c) > 33 ==> From32(c) == 255)
  {
  }
}
