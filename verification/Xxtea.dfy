/** The XXTEA block cipher over 32-bit words, in place on arrays of any length. */
module Xxtea {
  import opened Machine

  const DELTA: word := 0x9E3779B9

  function Add(x: word, y: word): word { (x + y) % WORD }
  function Sub(x: word, y: word): word { (x - y) % WORD }

  /** Exclusive or of two numbers below four. */
  function Xor2(a: nat, b: nat): (r: nat)
    requires a < 4 && b < 4
    ensures r < 4
  {
    if a == 0 then b else if b == 0 then a else if a == b then 0 else 6 - a - b
  }

  /** The mixing function, on the bits of the words. */
  function MixBits(sum: bv32, y: bv32, z: bv32, k: bv32): bv32 {
    (((z >> 5) ^ (y << 2)) + ((y >> 3) ^ (z << 4))) ^ ((sum ^ y) + (k ^ z))
  }

  function Mix(sum: word, y: word, z: word, k: word): word {
    MixBits(sum as bv32, y as bv32, z as bv32, k as bv32) as int
  }

  function Mx(sum: word, y: word, z: word, p: nat, e: word, key: seq<word>): word
    requires |key| == 4 && e < 4
  {
    Mix(sum, y, z, key[Xor2(p % 4, e)])
  }

  /** The bytes of x in the opposite order. */
  function Swap(x: word): word {
    x % 256 * 0x1000000 + x / 256 % 256 * 0x10000 + x / 0x10000 % 256 * 256 + x / 0x1000000
  }

  lemma FourBytes(a: int, b: int, c: int, d: int)
    requires 0 <= a < 256 && 0 <= b < 256 && 0 <= c < 256 && 0 <= d < 256
    ensures var y := a * 0x1000000 + b * 0x10000 + c * 256 + d;
            y % 256 == d && y / 256 % 256 == c && y / 0x10000 % 256 == b && y / 0x1000000 == a
  {
    var y := a * 0x1000000 + b * 0x10000 + c * 256 + d;
    assert y / 256 == a * 0x10000 + b * 256 + c;
    assert y / 0x10000 == a * 256 + b;
  }

  lemma SwapTwice(x: word)
    ensures Swap(Swap(x)) == x
  {
    var a, b, c, d := x % 256, x / 256 % 256, x / 0x10000 % 256, x / 0x1000000;
    FourBytes(a, b, c, d);
    Recompose(x);
  }

  lemma Recompose(x: word)
    ensures x == x / 0x1000000 * 0x1000000 + x / 0x10000 % 256 * 0x10000 + x / 256 % 256 * 256 + x % 256
  {
    assert x / 0x10000 == x / 256 / 256 && x / 0x1000000 == x / 0x10000 / 256;
    assert x / 256 == x / 0x10000 * 256 + x / 256 % 256;
    assert x / 0x10000 == x / 0x1000000 * 256 + x / 0x10000 % 256;
  }

  function SwapAll(v: seq<word>): (r: seq<word>)
    ensures |r| == |v|
  {
    seq(|v|, i requires 0 <= i < |v| => Swap(v[i]))
  }

  lemma SwapAllTwice(v: seq<word>)
    ensures SwapAll(SwapAll(v)) == v
  {
    forall i | 0 <= i < |v|
      ensures SwapAll(SwapAll(v))[i] == v[i]
    {
      SwapTwice(v[i]);
    }
  }

  // ----- One word, one round, all rounds

  function Next(p: nat, len: nat): nat { if p + 1 == len then 0 else p + 1 }
  function Prev(p: nat, len: nat): nat
    requires p < len
  {
    if p == 0 then len - 1 else p - 1
  }

  /** What is mixed into word p: it depends on its two neighbours in the ring. */
  function Mixed(v: seq<word>, key: seq<word>, sum: word, p: nat): word
    requires p < |v| && |key| == 4
  {
    Mx(sum, v[Next(p, |v|)], v[Prev(p, |v|)], p, sum / 4 % 4, key)
  }

  function EncStep(v: seq<word>, key: seq<word>, sum: word, p: nat): (r: seq<word>)
    requires p < |v| && |key| == 4
    ensures |r| == |v|
  {
    v[p := Add(v[p], Mixed(v, key, sum, p))]
  }

  function DecStep(v: seq<word>, key: seq<word>, sum: word, p: nat): (r: seq<word>)
    requires p < |v| && |key| == 4
    ensures |r| == |v|
  {
    v[p := Sub(v[p], Mixed(v, key, sum, p))]
  }

  /** Words 0 to k - 1, in this order. */
  function EncUpTo(v: seq<word>, key: seq<word>, sum: word, k: nat): (r: seq<word>)
    requires k <= |v| && |key| == 4
    ensures |r| == |v|
  {
    if k == 0 then v else EncStep(EncUpTo(v, key, sum, k - 1), key, sum, k - 1)
  }

  /** The last word down to word k, in this order. */
  function DecDownTo(v: seq<word>, key: seq<word>, sum: word, k: nat): (r: seq<word>)
    requires k <= |v| && |key| == 4
    ensures |r| == |v|
    decreases |v| - k
  {
    if k == |v| then v else DecStep(DecDownTo(v, key, sum, k + 1), key, sum, k)
  }

  /** The round constant of round r, kept by repeated addition. */
  function SumAt(r: nat): word {
    if r == 0 then 0 else Add(SumAt(r - 1), DELTA)
  }

  function EncRounds(v: seq<word>, key: seq<word>, r: nat): (w: seq<word>)
    requires |key| == 4
    ensures |w| == |v|
    decreases r
  {
    if r == 0 then v else
    var w := EncRounds(v, key, r - 1);
    EncUpTo(w, key, SumAt(r), |w|)
  }

  function DecRounds(v: seq<word>, key: seq<word>, r: nat): (w: seq<word>)
    requires |key| == 4
    ensures |w| == |v|
    decreases r
  {
    if r == 0 then v else DecRounds(DecDownTo(v, key, SumAt(r), 0), key, r - 1)
  }

  function Rounds(len: nat): nat
    requires len > 0
  {
    6 + 52 / len
  }

  /** Taking away what was added restores the word: the neighbours are still the same. */
  lemma StepInverse(v: seq<word>, key: seq<word>, sum: word, p: nat)
    requires p < |v| && 2 <= |v| && |key| == 4
    ensures DecStep(EncStep(v, key, sum, p), key, sum, p) == v
  {
    hide Mx;
    var w := EncStep(v, key, sum, p);
    assert Mixed(w, key, sum, p) == Mixed(v, key, sum, p);
    AddSub(v[p], Mixed(v, key, sum, p));
  }

  lemma AddSub(x: word, m: word)
    ensures Sub(Add(x, m), m) == x
  {
  }

  lemma {:induction false} RoundInverse(v: seq<word>, key: seq<word>, sum: word, k: nat)
    requires k <= |v| && 2 <= |v| && |key| == 4
    ensures DecDownTo(EncUpTo(v, key, sum, |v|), key, sum, k) == EncUpTo(v, key, sum, k)
    decreases |v| - k
  {
    hide EncStep, DecStep;
    if k < |v| {
      RoundInverse(v, key, sum, k + 1);
      StepInverse(EncUpTo(v, key, sum, k), key, sum, k);
    }
  }

  lemma {:induction false} RoundsInverse(v: seq<word>, key: seq<word>, r: nat)
    requires 2 <= |v| && |key| == 4
    ensures DecRounds(EncRounds(v, key, r), key, r) == v
  {
    hide EncUpTo, DecDownTo;
    if r > 0 {
      var w := EncRounds(v, key, r - 1);
      RoundInverse(w, key, SumAt(r), 0);
      FirstIsSame(w, key, SumAt(r));
      RoundsInverse(v, key, r - 1);
    }
  }

  lemma FirstIsSame(v: seq<word>, key: seq<word>, sum: word)
    requires |key| == 4
    ensures EncUpTo(v, key, sum, 0) == v
  {
  }

  // ----- The decryption loop ends on the right round

  const INVERSE := 0x144CBC89

  lemma {:induction false} SumIsProduct(r: nat)
    ensures SumAt(r) == r * DELTA % WORD
  {
    if r > 0 {
      SumIsProduct(r - 1);
      AddMod((r - 1) * DELTA);
    }
  }

  lemma AddMod(x: nat)
    ensures (x % WORD + DELTA) % WORD == (x + DELTA) % WORD
  {
    var q, r := x / WORD, x % WORD;
    assert x + DELTA == r + DELTA + q * WORD;
    if r + DELTA >= WORD {
      assert x + DELTA == r + DELTA - WORD + (q + 1) * WORD;
    }
  }

  /** No positive multiple of DELTA, below 2^32 of them, is zero in 32 bits: DELTA has an inverse. */
  lemma SumZero(r: nat)
    requires r < WORD
    ensures SumAt(r) == 0 <==> r == 0
  {
    hide SumAt;
    SumIsProduct(r);
    if SumAt(r) == 0 {
      var x := r * DELTA;
      assert x == x / WORD * WORD;
      InverseOfDelta();
      Cancel(r, x / WORD, DELTA * INVERSE / WORD);
    }
  }

  lemma InverseOfDelta()
    ensures DELTA * INVERSE == DELTA * INVERSE / WORD * WORD + 1
  {
  }

  lemma Cancel(r: nat, m: int, c: int)
    requires r * DELTA == m * WORD && DELTA * INVERSE == c * WORD + 1 && r < WORD
    ensures r == 0
  {
    calc {
      r * (c * WORD + 1);
      r * (DELTA * INVERSE);
      (r * DELTA) * INVERSE;
      m * WORD * INVERSE;
    }
    var k := m * INVERSE - r * c;
    assert r == k * WORD by {
      assert r * (c * WORD + 1) == (r * c) * WORD + r;
      assert m * WORD * INVERSE == (m * INVERSE) * WORD;
      assert (m * INVERSE) * WORD - (r * c) * WORD == k * WORD;
    }
    Multiple(r, k);
  }

  lemma Multiple(r: nat, k: int)
    requires r == k * WORD && r < WORD
    ensures r == 0
  {
  }

  // ----- The ciphers on values

  /** How words and key are converted around the rounds: words on a big-endian host, the key elsewhere. */
  function Encrypt(v: seq<word>, key: seq<word>, bigEndian: bool, convert: bool): (w: seq<word>)
    requires |v| > 0 && |key| == 4
    ensures |w| == |v|
  {
    if !convert then EncRounds(v, key, Rounds(|v|))
    else if bigEndian then SwapAll(EncRounds(SwapAll(v), key, Rounds(|v|)))
    else EncRounds(v, SwapAll(key), Rounds(|v|))
  }

  function Decrypt(v: seq<word>, key: seq<word>, bigEndian: bool, convert: bool): (w: seq<word>)
    requires |v| > 0 && |key| == 4
    ensures |w| == |v|
  {
    if !convert then DecRounds(v, key, Rounds(|v|))
    else if bigEndian then SwapAll(DecRounds(SwapAll(v), key, Rounds(|v|)))
    else DecRounds(v, SwapAll(key), Rounds(|v|))
  }

  /** Decryption undoes encryption for every key and every block of at least two words, in every mode. */
  lemma Inversion(v: seq<word>, key: seq<word>, bigEndian: bool, convert: bool)
    requires |v| >= 2 && |key| == 4
    ensures Decrypt(Encrypt(v, key, bigEndian, convert), key, bigEndian, convert) == v
  {
    hide EncRounds, DecRounds;
    RoundsInverse(v, key, Rounds(|v|));
    RoundsInverse(v, SwapAll(key), Rounds(|v|));
    RoundsInverse(SwapAll(v), key, Rounds(|v|));
    SwapAllTwice(v);
    SwapAllTwice(EncRounds(SwapAll(v), key, Rounds(|v|)));
  }

  // ----- The ciphers in place

  method SwapInPlace(v: array<word>)
    modifies v
    ensures v[..] == SwapAll(old(v[..]))
  {
    for i := 0 to v.Length
      invariant forall k :: 0 <= k < i ==> v[k] == Swap(old(v[k]))
      invariant forall k :: i <= k < v.Length ==> v[k] == old(v[k])
    {
      v[i] := Swap(v[i]);
    }
  }

  /** One round: each word takes in its neighbours, the previous one already changed. */
  method EncRoundInPlace(v: array<word>, key: array<word>, sum: word, z0: word) returns (z: word)
    requires v.Length >= 1 && key.Length == 4 && v != key && z0 == v[v.Length - 1]
    modifies v
    ensures v[..] == EncUpTo(old(v[..]), key[..], sum, v.Length) && z == v[v.Length - 1]
  {
    hide Mx;
    ghost var was := v[..];
    var n := v.Length - 1;
    var e := sum / 4 % 4;
    z := z0;
    for p := 0 to n
      invariant v[..] == EncUpTo(was, key[..], sum, p) && key[..] == old(key[..])
      invariant z == v[Prev(p, v.Length)]
    {
      var y := v[p + 1];
      z := Add(v[p], Mx(sum, y, z, p, e, key[..]));
      v[p] := z;
    }
    var y := v[0];
    z := Add(v[n], Mx(sum, y, z, n, e, key[..]));
    v[n] := z;
  }

  /** One round backwards. */
  method DecRoundInPlace(v: array<word>, key: array<word>, sum: word, y0: word) returns (y: word)
    requires v.Length >= 1 && key.Length == 4 && v != key && y0 == v[0]
    modifies v
    ensures v[..] == DecDownTo(old(v[..]), key[..], sum, 0) && y == v[0]
  {
    hide Mx;
    ghost var was := v[..];
    var n := v.Length - 1;
    var e := sum / 4 % 4;
    y := y0;
    var p := n;
    while p > 0
      invariant 0 <= p <= n && key[..] == old(key[..])
      invariant v[..] == DecDownTo(was, key[..], sum, p + 1) && y == v[Next(p, v.Length)]
    {
      var z := v[p - 1];
      y := Sub(v[p], Mx(sum, y, z, p, e, key[..]));
      v[p] := y;
      p := p - 1;
    }
    var z := v[n];
    y := Sub(v[0], Mx(sum, y, z, 0, e, key[..]));
    v[0] := y;
  }

  method EncryptRounds(v: array<word>, key: array<word>)
    requires v.Length >= 1 && key.Length == 4 && v != key
    modifies v
    ensures v[..] == EncRounds(old(v[..]), key[..], Rounds(v.Length))
  {
    hide EncUpTo;
    var z := v[v.Length - 1];
    var q := 6 + 52 / v.Length;
    var sum: word := 0;
    for r := 0 to q
      invariant sum == SumAt(r) && z == v[v.Length - 1] && key[..] == old(key[..])
      invariant v[..] == EncRounds(old(v[..]), key[..], r)
    {
      sum := Add(sum, DELTA);
      z := EncRoundInPlace(v, key, sum, z);
    }
  }

  /** Runs until the round constant is zero, which is after as many rounds as encryption made. */
  method DecryptRounds(v: array<word>, key: array<word>)
    requires v.Length >= 1 && key.Length == 4 && v != key
    modifies v
    ensures v[..] == DecRounds(old(v[..]), key[..], Rounds(v.Length))
  {
    hide DecDownTo;
    var y := v[0];
    var q := 6 + 52 / v.Length;
    var sum: word := q * DELTA % WORD;
    SumIsProduct(q);
    ghost var r := q;
    while sum != 0
      invariant 0 <= r <= q && sum == SumAt(r) && y == v[0] && key[..] == old(key[..])
      invariant DecRounds(v[..], key[..], r) == DecRounds(old(v[..]), key[..], q)
      decreases r
    {
      SumZero(r);
      y := DecRoundInPlace(v, key, sum, y);
      sum := Sub(sum, DELTA);
      r := r - 1;
      AddSub(SumAt(r), DELTA);
    }
    SumZero(r);
  }

  method XxteaEncrypt(v: array<word>, key: array<word>, bigEndian: bool, convert: bool)
    requires v.Length >= 1 && key.Length == 4 && v != key
    modifies v, key
    ensures v[..] == Encrypt(old(v[..]), old(key[..]), bigEndian, convert) && key[..] == old(key[..])
  {
    hide EncRounds;
    SwapAllTwice(key[..]);
    if convert {
      if bigEndian { SwapInPlace(v); } else { SwapInPlace(key); }
    }
    EncryptRounds(v, key);
    if convert {
      if bigEndian { SwapInPlace(v); } else { SwapInPlace(key); }
    }
  }

  method XxteaDecrypt(v: array<word>, key: array<word>, bigEndian: bool, convert: bool)
    requires v.Length >= 1 && key.Length == 4 && v != key
    modifies v, key
    ensures v[..] == Decrypt(old(v[..]), old(key[..]), bigEndian, convert) && key[..] == old(key[..])
  {
    hide DecRounds;
    SwapAllTwice(key[..]);
    if convert {
      if bigEndian { SwapInPlace(v); } else { SwapInPlace(key); }
    }
    DecryptRounds(v, key);
    if convert {
      if bigEndian { SwapInPlace(v); } else { SwapInPlace(key); }
    }
  }
}
