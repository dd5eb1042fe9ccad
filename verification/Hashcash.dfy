/** Proof-of-work messages: building them, testing a nonce, and checking a proof. SHA-256 is any function. */
module Hashcash {
  import opened Machine
  import Base64

  const TOKEN_BYTES := 48
  const PREFIX_BYTES := 4
  const REPEAT := 262144
  const BLOCK := 64

  type Bytes = seq<byte>

  /** The first word of the digest, as a number. */
  type Sha = Bytes -> word

  // ----- What a proof is

  /** n bytes of the token, over and over. */
  function Repeated(token: Bytes, n: nat): (r: Bytes)
    requires token != []
    ensures |r| == n
  {
    seq(n, i requires 0 <= i < n => token[i % |token|])
  }

  function Pow2(n: nat): (r: nat)
    ensures r > 0
  {
    if n == 0 then 1 else 2 * Pow2(n - 1)
  }

  /** Mantissa of six bits, exponent of two bits. */
  function Threshold(easiness: byte): int {
    (easiness % 64 * 2 + 1) * Pow2(easiness / 64 * 7 + 3)
  }

  function Message(prefix: Bytes, token: Bytes): Bytes
    requires token != []
  {
    prefix + Repeated(token, REPEAT * TOKEN_BYTES)
  }

  predicate Proves(sha: Sha, token: Bytes, easiness: byte, prefix: Bytes)
    requires token != []
  {
    sha(Message(prefix, token)) <= Threshold(easiness)
  }

  /** A prefix, in Base64, that proves work on a token, in Base64. */
  predicate Accepted(sha: Sha, token: string, easiness: byte, prefix: string) {
    && |Base64.Decode(prefix, 0)| == PREFIX_BYTES
    && |Base64.Decode(token, 0)| == TOKEN_BYTES
    && Proves(sha, Base64.Decode(token, 0), easiness, Base64.Decode(prefix, 0))
  }

  /** A number in network order. */
  function BigEndian(n: word): (b: Bytes)
    ensures |b| == PREFIX_BYTES
  {
    [n / 0x100_0000, n / 0x1_0000 % 256, n / 256 % 256, n % 256]
  }

  /** The threshold is at least 8 and stays below half the range of a word. */
  lemma ThresholdFits(easiness: byte)
    ensures 8 <= Threshold(easiness) < WORD / 2
  {
    hide Pow2;
    Powers();
    var m, k: int := easiness % 64 * 2 + 1, easiness / 64;
    assert 1 <= m <= 127 && (k == 0 || k == 1 || k == 2 || k == 3);
  }

  lemma Powers()
    ensures Pow2(3) == 8 && Pow2(10) == 1024 && Pow2(17) == 131072 && Pow2(24) == 16777216
  {
    PowerStep(3);
    PowerStep(10);
    PowerStep(17);
    assert Pow2(3) == 2 * Pow2(2) == 4 * Pow2(1) == 8 * Pow2(0);
  }

  lemma PowerStep(n: nat)
    ensures Pow2(n + 7) == 128 * Pow2(n)
  {
    assert Pow2(n + 7) == 2 * Pow2(n + 6) == 4 * Pow2(n + 5) == 8 * Pow2(n + 4);
    assert Pow2(n + 4) == 2 * Pow2(n + 3) == 4 * Pow2(n + 2) == 8 * Pow2(n + 1) == 16 * Pow2(n);
  }

  // ----- The message area

  /** memcpy inside one buffer, from its front to a place behind. */
  method CopyWithin(buf: array<byte>, from: nat, to: nat, n: nat)
    requires from + n <= to && to + n <= buf.Length
    modifies buf
    ensures forall i :: 0 <= i < buf.Length ==>
              buf[i] == if to <= i < to + n then old(buf[i - to + from]) else old(buf[i])
  {
    for k := 0 to n
      invariant forall i :: 0 <= i < buf.Length ==>
                buf[i] == if to <= i < to + k then old(buf[i - to + from]) else old(buf[i])
    {
      buf[to + k] := buf[from + k];
    }
  }

  method CopyIn(buf: array<byte>, to: nat, data: Bytes)
    requires to + |data| <= buf.Length
    modifies buf
    ensures forall i :: 0 <= i < buf.Length ==> buf[i] == if to <= i < to + |data| then data[i - to] else old(buf[i])
  {
    for k := 0 to |data|
      invariant forall i :: 0 <= i < buf.Length ==> buf[i] == if to <= i < to + k then data[i - to] else old(buf[i])
    {
      buf[to + k] := data[k];
    }
  }

  /** The part of the buffer that is filled repeats the token. */
  ghost predicate Filled(buf: Bytes, token: Bytes, filled: nat) {
    && token != [] && filled % |token| == 0 && PREFIX_BYTES + filled <= |buf|
    && forall i :: PREFIX_BYTES <= i < PREFIX_BYTES + filled ==> buf[i] == token[(i - PREFIX_BYTES) % |token|]
  }

  lemma FilledMore(old_: Bytes, buf: Bytes, token: Bytes, filled: nat, copy: nat)
    requires Filled(old_, token, filled) && |buf| == |old_| && copy <= filled && PREFIX_BYTES + filled + copy <= |buf|
    requires copy % |token| == 0
    requires forall i :: 0 <= i < PREFIX_BYTES + filled ==> buf[i] == old_[i]
    requires forall i :: PREFIX_BYTES + filled <= i < PREFIX_BYTES + filled + copy ==> buf[i] == old_[i - filled]
    ensures Filled(buf, token, filled + copy)
  {
    var n := |token|;
    ModAdd(filled, copy, n);
    forall i | PREFIX_BYTES <= i < PREFIX_BYTES + filled + copy
      ensures buf[i] == token[(i - PREFIX_BYTES) % n]
    {
      if i < PREFIX_BYTES + filled {
        assert buf[i] == old_[i];
      } else {
        var j := i - filled;
        assert old_[j] == token[(j - PREFIX_BYTES) % n];
        SameByte(token, filled, j - PREFIX_BYTES);
        assert i - PREFIX_BYTES == filled + (j - PREFIX_BYTES);
      }
    }
  }

  lemma SameByte(token: Bytes, filled: nat, k: nat)
    requires token != [] && filled % |token| == 0
    ensures token[(filled + k) % |token|] == token[k % |token|]
  {
    ModAdd(filled, k, |token|);
  }

  lemma ModAdd(a: nat, b: nat, n: nat)
    requires 0 < n && a % n == 0
    ensures (a + b) % n == b % n
  {
    var q, r := a / n, b / n;
    assert a == n * q && b == n * r + b % n;
    assert n * (q + r) == n * q + n * r;
    ModUnique(a + b, n, q + r, b % n);
  }

  lemma ModUnique(x: nat, n: nat, q: nat, r: nat)
    requires 0 < n && r < n && x == n * q + r
    ensures x % n == r
  {
    var q1 := x / n;
    assert x == n * q1 + x % n;
    if q1 < q {
      Monotone(n, q1 + 1, q);
    } else if q1 > q {
      Monotone(n, q + 1, q1);
    }
  }

  /** Fills the area behind the nonce by doubling what is there. */
  method InitTokenArea(token: Bytes, buf: array<byte>)
    requires |token| == TOKEN_BYTES && buf.Length == PREFIX_BYTES + REPEAT * TOKEN_BYTES
    modifies buf
    ensures buf[..PREFIX_BYTES] == old(buf[..PREFIX_BYTES])
    ensures buf[PREFIX_BYTES..] == Repeated(token, REPEAT * TOKEN_BYTES)
  {
    CopyIn(buf, PREFIX_BYTES, token);
    var filled := TOKEN_BYTES;
    assert Filled(buf[..], token, filled);
    while filled < REPEAT * TOKEN_BYTES
      invariant 0 < filled <= REPEAT * TOKEN_BYTES && Filled(buf[..], token, filled)
      invariant buf[..PREFIX_BYTES] == old(buf[..PREFIX_BYTES])
    {
      hide Filled;
      FilledMod(buf[..], token, filled);
      var copy := if filled < REPEAT * TOKEN_BYTES - filled then filled else REPEAT * TOKEN_BYTES - filled;
      ghost var before := buf[..];
      CopyWithin(buf, PREFIX_BYTES, PREFIX_BYTES + filled, copy);
      FilledMore(before, buf[..], token, filled, copy);
      filled := filled + copy;
    }
    assert buf[PREFIX_BYTES..] == Repeated(token, REPEAT * TOKEN_BYTES);
  }

  lemma FilledMod(buf: Bytes, token: Bytes, filled: nat)
    requires Filled(buf, token, filled) && |token| == TOKEN_BYTES && filled <= REPEAT * TOKEN_BYTES
    ensures (REPEAT * TOKEN_BYTES - filled) % TOKEN_BYTES == 0 && filled % TOKEN_BYTES == 0
  {
  }

  // ----- Testing and checking

  /** A running digest. */
  class Hasher {
    const sha: Sha
    var pending: Bytes

    constructor (sha: Sha)
      ensures this.sha == sha && pending == []
    {
      this.sha, pending := sha, [];
    }

    method Restart()
      modifies this
      ensures pending == []
    {
      pending := [];
    }

    method Update(data: Bytes)
      modifies this
      ensures pending == old(pending) + data
    {
      pending := pending + data;
    }

    method FirstWord() returns (w: word)
      modifies this
      ensures w == sha(old(pending)) && pending == []
    {
      w := sha(pending);
      pending := [];
    }
  }

  /** One round of a worker: the nonce and the area behind it, hashed as a block of 64 bytes and the rest. */
  method TryNonce(hasher: Hasher, area: Bytes, token: Bytes, easiness: byte, n: word) returns (hit: bool)
    requires token != [] && |area| == PREFIX_BYTES + REPEAT * TOKEN_BYTES
    requires area[PREFIX_BYTES..] == Repeated(token, REPEAT * TOKEN_BYTES)
    modifies hasher
    ensures hit == Proves(hasher.sha, token, easiness, BigEndian(n))
  {
    hide Threshold, Repeated, BigEndian;
    var block := BigEndian(n) + area[PREFIX_BYTES..BLOCK];
    hasher.Restart();
    hasher.Update(block);
    hasher.Update(area[BLOCK..]);
    assert [] + block + area[BLOCK..] == BigEndian(n) + area[PREFIX_BYTES..];
    var firstWord := hasher.FirstWord();
    hit := firstWord <= Threshold(easiness);
  }

  method GetTokenBin(token: string) returns (ok: bool, bin: Bytes)
    ensures ok == (|Base64.Decode(token, 0)| == TOKEN_BYTES)
    ensures ok ==> bin == Base64.Decode(token, 0)
  {
    bin := Base64.AtobString(token);
    ok := |bin| == TOKEN_BYTES;
  }

  method ValidateHashcash(sha: Sha, token: string, easiness: byte, prefixB64: string) returns (ok: bool)
    ensures ok == Accepted(sha, token, easiness, prefixB64)
  {
    hide Threshold, Repeated, Base64.Decode;
    var prefix := Base64.AtobString(prefixB64);
    if |prefix| != PREFIX_BYTES {
      return false;
    }
    var valid, tokenBin := GetTokenBin(token);
    if !valid {
      return false;
    }
    var buf := new byte[PREFIX_BYTES + REPEAT * TOKEN_BYTES](_ => 0);
    InitTokenArea(tokenBin, buf);
    ghost var area := buf[PREFIX_BYTES..];
    CopyIn(buf, 0, prefix);
    assert buf[..] == prefix + area;
    var word_ := sha(buf[..]);
    ok := word_ <= Threshold(easiness);
  }

  /** A nonce that works is accepted in the form in which it is sent. */
  lemma SentNonceAccepted(sha: Sha, token: string, easiness: byte, n: word)
    requires |Base64.Decode(token, 0)| == TOKEN_BYTES && Proves(sha, Base64.Decode(token, 0), easiness, BigEndian(n))
    ensures Accepted(sha, token, easiness, Base64.Encode(BigEndian(n))) && Base64.Encode(BigEndian(n)) != ""
  {
    Base64.RoundTrip(BigEndian(n));
    Base64.EncodeLength(BigEndian(n));
  }

  /** Different nonces are sent as different texts. */
  lemma SentNonceUnique(m: word, n: word)
    requires Base64.Encode(BigEndian(m)) == Base64.Encode(BigEndian(n))
    ensures m == n
  {
    Base64.RoundTrip(BigEndian(m));
    Base64.RoundTrip(BigEndian(n));
    var a, b := BigEndian(m), BigEndian(n);
    Recompose(m);
    Recompose(n);
    assert a[0] == b[0] && a[1] == b[1] && a[2] == b[2] && a[3] == b[3];
  }

  lemma Recompose(n: word)
    ensures var b := BigEndian(n); var b0: int, b1: int, b2: int, b3: int := b[0], b[1], b[2], b[3];
            n == b0 * 0x100_0000 + b1 * 0x1_0000 + b2 * 256 + b3
  {
    var k: int := n;
    assert k == k / 256 * 256 + k % 256;
    assert k / 0x1_0000 == k / 256 / 256;
    assert k / 0x100_0000 == k / 0x1_0000 / 256;
  }

  // ----- The numbers themselves

  /** Mantissa and exponent: odd numbers up to 127 times 8, 1024, 131072 or 16777216. */
  lemma ThresholdIs(mantissa: nat, exponent: nat)
    requires mantissa < 64 && exponent < 4
    ensures Threshold(64 * exponent + mantissa) == (2 * mantissa + 1) *
              (if exponent == 0 then 8 else if exponent == 1 then 1024 else if exponent == 2 then 131072 else 16777216)
  {
    hide Pow2;
    Powers();
    var e: int := 64 * exponent + mantissa;
    assert e % 64 == mantissa && e / 64 == exponent;
  }

  /** The message for a token of 48 bytes: four bytes of prefix and the token 262144 times. */
  lemma MessageIs(prefix: Bytes, token: Bytes, k: nat, i: nat)
    requires |prefix| == 4 && |token| == 48 && k < 262144 && i < 48
    ensures |Message(prefix, token)| == 12582916 && Message(prefix, token)[..4] == prefix
    ensures Message(prefix, token)[4 + 48 * k + i] == token[i]
  {
    assert (48 * k + i) % 48 == i;
  }

  /** Network order: the highest byte first. */
  lemma BigEndianIs(n: word)
    ensures var b := BigEndian(n); var x: int, y: int, z: int, w: int := b[0], b[1], b[2], b[3];
            n == x * 0x100_0000 + y * 0x1_0000 + z * 256 + w
  {
    assert n / 0x1_0000 == n / 256 / 256 && n / 0x100_0000 == n / 0x1_0000 / 256;
    assert n / 256 == n / 0x1_0000 * 256 + n / 256 % 256;
    assert n / 0x1_0000 == n / 0x100_0000 * 256 + n / 0x1_0000 % 256;
  }

  /** What proves work, in numbers. */
  lemma ProvesIs(sha: Sha, token: Bytes, mantissa: nat, prefix: Bytes)
    requires token != [] && mantissa < 64
    ensures var hash := sha(Message(prefix, token)); var m := 2 * mantissa + 1;
            && (Proves(sha, token, mantissa, prefix) <==> hash <= 8 * m)
            && (Proves(sha, token, 64 + mantissa, prefix) <==> hash <= 1024 * m)
            && (Proves(sha, token, 128 + mantissa, prefix) <==> hash <= 131072 * m)
            && (Proves(sha, token, 192 + mantissa, prefix) <==> hash <= 16777216 * m)
  {
    hide Message, Threshold;
    ThresholdIs(mantissa, 0);
    ThresholdIs(mantissa, 1);
    ThresholdIs(mantissa, 2);
    ThresholdIs(mantissa, 3);
  }
}
