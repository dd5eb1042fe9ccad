/** Media properties packed into eight bytes, enciphered and written as text in a file attribute. */
module MediaAttributes {
  import opened Wrappers
  import opened Machine
  import opened Xxtea
  import Base64

  datatype MediaProperties = MediaProperties(
    shortformat: byte, width: word, height: word, fps: word, playtime: word,
    containerid: word, videocodecid: word, audiocodecid: word)

  /** x with its lowest bit set. */
  function OrOne(x: nat): nat { x / 2 * 2 + 1 }

  // ----- Shrinking a value to its bits: the lowest bit tells whether it was scaled

  function ShrinkSize(w: word): (r: nat)
    ensures r < 32768
  {
    var w1 := w * 2 % WORD;
    var w2 := if w1 >= 32768 then OrOne((w1 - 32768) / 8) else w1;
    if w2 >= 32768 then 32767 else w2
  }

  function ShrinkPlaytime(p: word): (r: nat)
    ensures r < 262144
  {
    var p1 := p * 2 % WORD;
    var p2 := if p1 >= 262144 then OrOne((p1 - 262200) % WORD / 60) else p1;
    if p2 >= 262144 then 262143 else p2
  }

  function ShrinkFps(f: word): (r: nat)
    ensures r < 256
  {
    var f1 := f * 2 % WORD;
    var f2 := if f1 >= 256 then OrOne((f1 - 256) / 8) else f1;
    if f2 >= 256 then 255 else f2
  }

  function ExpandSize(half: nat, scaled: bool): nat { if scaled then half * 8 + 16384 else half }
  function ExpandFps(half: nat, scaled: bool): nat { if scaled then half * 8 + 128 else half }
  function ExpandPlaytime(half: nat, scaled: bool): nat { if scaled then half * 60 + 131100 else half }

  /** What comes back of a width or height. */
  function SizeBack(w: nat): nat {
    if w < 16384 then w else if w < 147456 then w - (w - 16384) % 8 else 147448
  }

  /** What comes back of a frame rate. */
  function FpsBack(f: nat): nat {
    if f < 128 then f else if f < 1152 then f - (f - 128) % 8 else 1144
  }

  /** What comes back of a playtime; just above the exact range the subtraction wraps and saturates. */
  function PlaytimeBack(p: nat): nat {
    if p < 131072 then p else if 131100 <= p < 7995420 then p - (p - 131100) % 60 else 7995360
  }

  const HALF := 0x8000_0000

  /** Doubling drops the top bit: values that differ only in it come back the same. */
  lemma TopBitDropped(w: word)
    ensures ShrinkSize(w) == ShrinkSize(w % HALF) && ShrinkFps(w) == ShrinkFps(w % HALF)
    ensures ShrinkPlaytime(w) == ShrinkPlaytime(w % HALF)
  {
    assert w * 2 % WORD == w % HALF * 2 % WORD;
  }

  lemma SizeRoundTrip(w: word)
    requires w < HALF
    ensures ExpandSize(ShrinkSize(w) / 2, ShrinkSize(w) % 2 == 1) == SizeBack(w)
  {
    assert w * 2 % WORD == w * 2;
    if w >= 16384 {
      Eighth(w - 16384);
    }
  }

  lemma Eighth(d: nat)
    ensures 2 * d / 8 == d / 4 && OrOne(d / 4) / 2 == d / 8 && OrOne(d / 4) % 2 == 1 && d / 8 * 8 == d - d % 8
    ensures forall k: nat :: OrOne(d / 4) >= 2 * k <==> d / 4 >= 2 * k
  {
  }

  lemma FpsRoundTrip(f: word)
    requires f < HALF
    ensures ExpandFps(ShrinkFps(f) / 2, ShrinkFps(f) % 2 == 1) == FpsBack(f)
  {
    assert f * 2 % WORD == f * 2;
    if f >= 128 {
      Eighth(f - 128);
    }
  }

  lemma PlaytimeRoundTrip(p: word)
    requires p < HALF
    ensures ExpandPlaytime(ShrinkPlaytime(p) / 2, ShrinkPlaytime(p) % 2 == 1) == PlaytimeBack(p)
  {
    hide OrOne;
    assert p * 2 % WORD == p * 2;
    if p < 131072 {
      assert ShrinkPlaytime(p) == 2 * p;
    } else if p < 131100 {
      Wrapped(p);
      assert ShrinkPlaytime(p) == 262143;
    } else {
      var d := p - 131100;
      assert (p * 2 - 262200) % WORD == 2 * d;
      Halve(d);
      assert ShrinkPlaytime(p) == if d / 30 >= 262144 then 262143 else OrOne(d / 30);
    }
  }

  lemma Wrapped(p: nat)
    requires 131072 <= p < 131100
    ensures OrOne((p * 2 - 262200) % WORD / 60) >= 262144
  {
    assert (p * 2 - 262200) % WORD == p * 2 - 262200 + WORD;
  }

  lemma Halve(d: nat)
    ensures 2 * d / 60 == d / 30 && OrOne(d / 30) / 2 == d / 60 && OrOne(d / 30) % 2 == 1
    ensures OrOne(d / 30) >= 262144 <==> d / 30 >= 262144
    ensures d / 60 * 60 == d - d % 60
  {
  }

  /** Small values come back exactly, larger ones rounded down by less than one step of the scale, until
      saturation. A playtime does so exactly when it is outside the band that wraps and below saturation. */
  lemma ErrorBounds(w: nat, f: nat, p: nat)
    ensures w < 16384 ==> SizeBack(w) == w
    ensures w < 147456 <==> SizeBack(w) <= w < SizeBack(w) + 8
    ensures f < 128 ==> FpsBack(f) == f
    ensures f < 1152 <==> FpsBack(f) <= f < FpsBack(f) + 8
    ensures p < 131072 ==> PlaytimeBack(p) == p
    ensures (p < 131072 || 131100 <= p < 7995420) <==> PlaytimeBack(p) <= p < PlaytimeBack(p) + 60
  {
  }

  /** A playtime in the band between the exact and the scaled range comes back as the largest one. */
  lemma PlaytimeWraps()
    ensures ShrinkPlaytime(131072) == 262143 && PlaytimeBack(131072) == 7995360
  {
  }

  // ----- Eight bytes

  /** The shrunken values side by side, the lowest bits first. */
  function Pack(width: nat, height: nat, fps: nat, playtime: nat, shortformat: byte): (v: seq<byte>)
    requires width < 32768 && height < 32768 && fps < 256 && playtime < 262144
    ensures |v| == 8
  {
    [width % 256,
     width / 256 % 128 + height % 2 * 128,
     height / 2 % 256,
     fps % 4 * 64 + height / 512 % 64,
     playtime % 4 * 64 + fps / 4,
     playtime / 4 % 256,
     playtime / 1024,
     shortformat]
  }

  function UnpackWidth(v: seq<byte>): (r: nat)
    requires |v| == 8
    ensures r < WORD
  {
    var a: int, b: int := v[0], v[1];
    ExpandSize(a / 2 + b % 128 * 128, a % 2 == 1)
  }

  function UnpackHeight(v: seq<byte>): (r: nat)
    requires |v| == 8
    ensures r < WORD
  {
    var a: int, b: int := v[2], v[3];
    ExpandSize(a + b % 64 * 256, v[1] / 128 == 1)
  }

  function UnpackFps(v: seq<byte>): (r: nat)
    requires |v| == 8
    ensures r < WORD
  {
    var a: int, b: int := v[3], v[4];
    ExpandFps(a / 128 + b % 64 * 2, a / 64 % 2 == 1)
  }

  function UnpackPlaytime(v: seq<byte>): (r: nat)
    requires |v| == 8
    ensures r < WORD
  {
    var a: int, b: int, c: int := v[4], v[5], v[6];
    ExpandPlaytime(a / 128 + b * 2 + c * 512, a / 64 % 2 == 1)
  }

  /** Every field is read from its own bits, whatever the others hold. */
  lemma UnpackPack(width: nat, height: nat, fps: nat, playtime: nat, shortformat: byte)
    requires width < 32768 && height < 32768 && fps < 256 && playtime < 262144
    ensures var v := Pack(width, height, fps, playtime, shortformat);
            && UnpackWidth(v) == ExpandSize(width / 2, width % 2 == 1)
            && UnpackHeight(v) == ExpandSize(height / 2, height % 2 == 1)
            && UnpackFps(v) == ExpandFps(fps / 2, fps % 2 == 1)
            && UnpackPlaytime(v) == ExpandPlaytime(playtime / 2, playtime % 2 == 1)
  {
    hide ExpandSize, ExpandFps, ExpandPlaytime;
    var v := Pack(width, height, fps, playtime, shortformat);
    WidthBits(width, height % 2);
    HeightBits(height, fps % 4, width / 256 % 128);
    FpsBits(fps, playtime % 4, height / 512 % 64);
    PlaytimeBits(playtime, fps / 4);
  }

  lemma WidthBits(w: nat, h: nat)
    requires w < 32768 && h < 2
    ensures w % 256 / 2 + (w / 256 % 128 + h * 128) % 128 * 128 == w / 2 && w % 256 % 2 == w % 2
  {
  }

  lemma HeightBits(h: nat, f: nat, w: nat)
    requires h < 32768 && f < 4 && w < 128
    ensures h / 2 % 256 + (f * 64 + h / 512 % 64) % 64 * 256 == h / 2 && (w + h % 2 * 128) / 128 == h % 2
  {
  }

  lemma FpsBits(f: nat, p: nat, h: nat)
    requires f < 256 && p < 4 && h < 64
    ensures (f % 4 * 64 + h) / 128 + (p * 64 + f / 4) % 64 * 2 == f / 2 && (f % 4 * 64 + h) / 64 % 2 == f % 2
  {
    var q, r := f / 4, f % 4;
    TwoBits(r, h);
    TwoBits(p, q);
    assert f / 2 == 2 * q + r / 2 && f % 2 == r % 2;
  }

  lemma PlaytimeBits(p: nat, f: nat)
    requires p < 262144 && f < 64
    ensures (p % 4 * 64 + f) / 128 + p / 4 % 256 * 2 + p / 1024 * 512 == p / 2 && (p % 4 * 64 + f) / 64 % 2 == p % 2
  {
    var q, r := p / 4, p % 4;
    TwoBits(r, f);
    assert p / 1024 == q / 256;
    assert q == q / 256 * 256 + q % 256;
    assert p / 2 == 2 * q + r / 2 && p % 2 == r % 2;
  }

  /** Two bits above six others. */
  lemma TwoBits(r: nat, f: nat)
    requires r < 4 && f < 64
    ensures (r * 64 + f) / 128 == r / 2 && (r * 64 + f) / 64 % 2 == r % 2 && (r * 64 + f) % 64 == f
  {
    assert r == 0 || r == 1 || r == 2 || r == 3;
  }

  /** The second record: container and codec numbers. */
  function PackIds(container: word, video: word, audio: word): (v: seq<byte>)
    ensures |v| == 8
  {
    [container % 256, video % 256, video / 256 % 16 + audio % 16 * 16, audio / 16 % 256, 0, 0, 0, 0]
  }

  function UnpackVideo(v: seq<byte>): (id: nat)
    requires |v| == 8
    ensures id < 4096
  {
    var a: int, b: int := v[1], v[2];
    a + b % 16 * 256
  }

  function UnpackAudio(v: seq<byte>): (id: nat)
    requires |v| == 8
    ensures id < 4096
  {
    var a: int, b: int := v[2], v[3];
    a / 16 + b * 16
  }

  lemma IdsRoundTrip(container: word, video: word, audio: word)
    ensures var v := PackIds(container, video, audio);
            v[0] == container % 256 && UnpackVideo(v) == video % 4096 && UnpackAudio(v) == audio % 4096
  {
    Low12(video, audio % 16);
    High12(audio, video / 256 % 16);
  }

  lemma Low12(x: nat, y: nat)
    requires y < 16
    ensures x % 256 + (x / 256 % 16 + y * 16) % 16 * 256 == x % 4096
  {
    var q := x / 256;
    var b, c := q % 16, q / 16;
    assert x == 256 * q + x % 256 && q == 16 * c + b;
    assert (b + y * 16) % 16 == b;
    assert x == 4096 * c + (256 * b + x % 256);
  }

  lemma High12(x: nat, y: nat)
    requires y < 16
    ensures (y + x % 16 * 16) / 16 + x / 16 % 256 * 16 == x % 4096
  {
    var q := x / 16;
    var b, c := q % 256, q / 256;
    assert x == 16 * q + x % 16 && q == 256 * c + b;
    assert (y + x % 16 * 16) / 16 == x % 16;
    assert x == 4096 * c + (16 * b + x % 16);
  }

  // ----- Text

  /** Four bytes as the host reads a word. */
  function WordOf(v: seq<byte>, bigEndian: bool): word
    requires |v| == 4
  {
    var a: int, b: int, c: int, d: int := v[0], v[1], v[2], v[3];
    if bigEndian then a * 0x1000000 + b * 0x10000 + c * 256 + d
    else d * 0x1000000 + c * 0x10000 + b * 256 + a
  }

  function BytesOf(x: word, bigEndian: bool): (v: seq<byte>)
    ensures |v| == 4
  {
    if bigEndian then [x / 0x1000000, x / 0x10000 % 256, x / 256 % 256, x % 256]
    else [x % 256, x / 256 % 256, x / 0x10000 % 256, x / 0x1000000]
  }

  lemma BytesOfWord(v: seq<byte>, bigEndian: bool)
    requires |v| == 4
    ensures BytesOf(WordOf(v, bigEndian), bigEndian) == v
  {
    if bigEndian {
      FourBytes(v[0], v[1], v[2], v[3]);
    } else {
      FourBytes(v[3], v[2], v[1], v[0]);
    }
  }

  lemma WordOfBytes(x: word, bigEndian: bool)
    ensures WordOf(BytesOf(x, bigEndian), bigEndian) == x
  {
    assert x / 256 == x / 0x10000 * 256 + x / 256 % 256;
    assert x / 0x10000 == x / 0x1000000 * 256 + x / 0x10000 % 256;
  }

  function Words(v: seq<byte>, bigEndian: bool): (w: seq<word>)
    requires |v| == 8
    ensures |w| == 2
  {
    [WordOf(v[..4], bigEndian), WordOf(v[4..], bigEndian)]
  }

  function Bytes(w: seq<word>, bigEndian: bool): (v: seq<byte>)
    requires |w| == 2
    ensures |v| == 8
  {
    BytesOf(w[0], bigEndian) + BytesOf(w[1], bigEndian)
  }

  /** The enciphered record as text. */
  function Cipher(v: seq<byte>, key: seq<word>, bigEndian: bool): string
    requires |v| == 8 && |key| == 4
  {
    Base64.Encode(Bytes(Encrypt(Words(v, bigEndian), key, bigEndian, true), bigEndian))
  }

  /** The record that eleven characters stand for. Bytes that the text does not supply keep what the
      buffer held before. */
  function Decipher(text: string, key: seq<word>, bigEndian: bool, buffer: seq<byte>): (v: seq<byte>)
    requires |key| == 4 && |buffer| == 8
    ensures |v| == 8
  {
    var binary := Base64.Decode(text, 0);
    var n := Min(8, |binary|);
    Bytes(Decrypt(Words(binary[..n] + buffer[n..], bigEndian), key, bigEndian, true), bigEndian)
  }

  lemma CipherLength(v: seq<byte>, key: seq<word>, bigEndian: bool)
    requires |v| == 8 && |key| == 4
    ensures |Cipher(v, key, bigEndian)| == 11
  {
    hide Encrypt, Words, Bytes;
    Base64.EncodeLength(Bytes(Encrypt(Words(v, bigEndian), key, bigEndian, true), bigEndian));
  }

  /** The record survives the cipher and the text. */
  lemma CipherRoundTrip(v: seq<byte>, key: seq<word>, bigEndian: bool, buffer: seq<byte>)
    requires |v| == 8 && |key| == 4 && |buffer| == 8
    ensures Decipher(Cipher(v, key, bigEndian), key, bigEndian, buffer) == v
  {
    hide Encrypt, Decrypt, Base64.Encode, Base64.Decode, WordOf, BytesOf;
    var w := Words(v, bigEndian);
    var c := Encrypt(w, key, bigEndian, true);
    var b := Bytes(c, bigEndian);
    Base64.RoundTrip(b);
    assert b[..8] + buffer[8..] == b;
    assert b[..4] == BytesOf(c[0], bigEndian) && b[4..] == BytesOf(c[1], bigEndian);
    WordOfBytes(c[0], bigEndian);
    WordOfBytes(c[1], bigEndian);
    assert Words(b, bigEndian) == c;
    Inversion(w, key, bigEndian, true);
    BytesOfWord(v[..4], bigEndian);
    BytesOfWord(v[4..], bigEndian);
    assert v[..4] + v[4..] == v;
  }

  // ----- The attribute string

  /** The first place at or after i where pat stands in s. */
  function Find(s: string, pat: string, i: nat): (r: Option<nat>)
    ensures r.Some? ==> i <= r.value && r.value + |pat| <= |s|
    decreases |s| - i
  {
    if i + |pat| > |s| then None
    else if s[i..i + |pat|] == pat then Some(i)
    else Find(s, pat, i + 1)
  }

  function PackAll(vp: MediaProperties): (v: seq<byte>)
    ensures |v| == 8
  {
    Pack(ShrinkSize(vp.width), ShrinkSize(vp.height), ShrinkFps(vp.fps), ShrinkPlaytime(vp.playtime), vp.shortformat)
  }

  /** The records of the attribute; the second one only for formats without a short number. */
  function EncodeAttributes(vp: MediaProperties, key: seq<word>, bigEndian: bool): string
    requires |key| == 4
  {
    "8*" + Cipher(PackAll(vp), key, bigEndian)
    + if vp.shortformat != 0 then ""
      else "/9*" + Cipher(PackIds(vp.containerid, vp.videocodecid, vp.audiocodecid), key, bigEndian)
  }

  /** The eleven characters after the first occurrence of a tag such as ":8*", when they are there. */
  function Field(attrs: string, tag: string): (r: Option<string>)
    requires |tag| == 3
  {
    var pos := Find(attrs, tag, 0);
    if pos.Some? && pos.value + 3 + 11 <= |attrs| then Some(attrs[pos.value + 3..pos.value + 14]) else None
  }

  const NoIds: seq<byte> := [0, 0, 0, 0, 0, 0, 0, 0]

  /** The properties held by the two records. */
  function Properties(v: seq<byte>, ids: seq<byte>): MediaProperties
    requires |v| == 8 && |ids| == 8
  {
    MediaProperties(v[7], UnpackWidth(v), UnpackHeight(v), UnpackFps(v), UnpackPlaytime(v),
                    ids[0], UnpackVideo(ids), UnpackAudio(ids))
  }

  function DecodeAttributes(attrs: string, key: seq<word>, bigEndian: bool,
                            buffer: seq<byte>): (r: Option<MediaProperties>)
    requires |key| == 4 && |buffer| == 8
  {
    match Field(attrs, ":8*")
    case None => None
    case Some(text) =>
      var v := Decipher(text, key, bigEndian, buffer);
      var ext := if v[7] != 0 then None else Field(attrs, ":9*");
      Some(Properties(v, if ext.None? then NoIds else Decipher(ext.value, key, bigEndian, v)))
  }

  /** What comes back of all properties. */
  function Back(vp: MediaProperties): MediaProperties {
    var exotic := vp.shortformat == 0;
    MediaProperties(vp.shortformat, SizeBack(vp.width % HALF), SizeBack(vp.height % HALF), FpsBack(vp.fps % HALF),
                    PlaytimeBack(vp.playtime % HALF),
                    if exotic then vp.containerid % 256 else 0,
                    if exotic then vp.videocodecid % 4096 else 0,
                    if exotic then vp.audiocodecid % 4096 else 0)
  }

  /** Through packing, cipher and text: the properties come back as Back says, whenever the first fields
      of the attribute string are the records that were written. */
  lemma AttributesRoundTrip(vp: MediaProperties, key: seq<word>, bigEndian: bool, buffer: seq<byte>, attrs: string)
    requires |key| == 4 && |buffer| == 8
    requires Field(attrs, ":8*") == Some(Cipher(PackAll(vp), key, bigEndian))
    requires vp.shortformat == 0 ==>
               Field(attrs, ":9*") ==
                 Some(Cipher(PackIds(vp.containerid, vp.videocodecid, vp.audiocodecid), key, bigEndian))
    ensures DecodeAttributes(attrs, key, bigEndian, buffer) == Some(Back(vp))
  {
    hide Cipher, Decipher, Field, ShrinkSize, ShrinkFps, ShrinkPlaytime, UnpackWidth, UnpackHeight, UnpackFps,
         UnpackPlaytime;
    hide SizeBack, FpsBack, PlaytimeBack, PackIds;
    var v := PackAll(vp);
    CipherRoundTrip(v, key, bigEndian, buffer);
    UnpackPack(ShrinkSize(vp.width), ShrinkSize(vp.height), ShrinkFps(vp.fps), ShrinkPlaytime(vp.playtime),
               vp.shortformat);
    Folded(vp.width);
    Folded(vp.height);
    Folded(vp.fps);
    Folded(vp.playtime);
    IdsRoundTrip(vp.containerid, vp.videocodecid, vp.audiocodecid);
    CipherRoundTrip(PackIds(vp.containerid, vp.videocodecid, vp.audiocodecid), key, bigEndian, v);
  }

  lemma Folded(w: word)
    ensures ExpandSize(ShrinkSize(w) / 2, ShrinkSize(w) % 2 == 1) == SizeBack(w % HALF)
    ensures ExpandFps(ShrinkFps(w) / 2, ShrinkFps(w) % 2 == 1) == FpsBack(w % HALF)
    ensures ExpandPlaytime(ShrinkPlaytime(w) / 2, ShrinkPlaytime(w) % 2 == 1) == PlaytimeBack(w % HALF)
  {
    hide ShrinkSize, ShrinkFps, ShrinkPlaytime, SizeBack, FpsBack, PlaytimeBack, ExpandSize, ExpandFps, ExpandPlaytime;
    TopBitDropped(w);
    SizeRoundTrip(w % HALF);
    FpsRoundTrip(w % HALF);
    PlaytimeRoundTrip(w % HALF);
  }

  // ----- As a server hands it back

  /** The written records with a colon in front of each. */
  function ServerForm(written: string): string {
    var s := ":" + written;
    match Find(s, "/", 0)
    case None => s
    case Some(p) => s[..p] + ":" + s[p + 1..]
  }

  predicate NoMarks(s: string) {
    forall i :: 0 <= i < |s| ==> s[i] != '/' && s[i] != ':'
  }

  lemma CharPlain(d: nat)
    ensures Base64.To64(d) != '/' && Base64.To64(d) != ':'
  {
  }

  lemma {:induction false} EncodePlain(b: seq<byte>)
    ensures NoMarks(Base64.Encode(b))
    decreases |b|
  {
    hide Base64.To64, Base64.Digits;
    if b != [] {
      var head := if |b| <= 3 then b else b[..3];
      var d := Base64.Digits(head);
      forall k | 0 <= k < |d|
        ensures Base64.Chars(d)[k] != '/' && Base64.Chars(d)[k] != ':'
      {
        CharPlain(d[k]);
      }
      if |b| > 3 {
        EncodePlain(b[3..]);
      }
    }
  }

  lemma CipherPlain(v: seq<byte>, key: seq<word>, bigEndian: bool)
    requires |v| == 8 && |key| == 4
    ensures NoMarks(Cipher(v, key, bigEndian)) && |Cipher(v, key, bigEndian)| == 11
  {
    hide Encrypt, NoMarks, Base64.Encode, Words, Bytes;
    EncodePlain(Bytes(Encrypt(Words(v, bigEndian), key, bigEndian, true), bigEndian));
    CipherLength(v, key, bigEndian);
  }

  predicate StandsAt(s: string, pat: string, k: nat) {
    k + |pat| <= |s| && s[k..k + |pat|] == pat
  }

  lemma {:induction false} FindFrom(s: string, pat: string, i: nat, j: nat)
    requires i <= j && StandsAt(s, pat, j) && forall k :: i <= k < j ==> !StandsAt(s, pat, k)
    ensures Find(s, pat, i) == Some(j)
    decreases j - i
  {
    if i < j {
      assert !StandsAt(s, pat, i);
      FindFrom(s, pat, i + 1, j);
    }
  }

  lemma {:induction false} FindNone(s: string, c: char, i: nat)
    requires forall k :: i <= k < |s| ==> s[k] != c
    ensures Find(s, [c], i) == None
    decreases |s| - i
  {
    if i + 1 <= |s| {
      assert s[i..i + 1] == [s[i]];
      FindNone(s, c, i + 1);
    }
  }

  /** The first mark in a text. */
  lemma FindMark(before: string, c: char, after: string)
    requires forall k :: 0 <= k < |before| ==> before[k] != c
    ensures Find(before + [c] + after, [c], 0) == Some(|before|)
  {
    var s := before + [c] + after;
    forall k | 0 <= k < |before|
      ensures !StandsAt(s, [c], k)
    {
      assert s[k..k + 1][0] == before[k];
    }
    assert s[|before|..|before| + 1] == [c];
    FindFrom(s, [c], 0, |before|);
  }

  function Tagged(first: string): string {
    ":8*" + first
  }

  lemma TaggedPlain(first: string)
    requires NoMarks(first)
    ensures forall k :: 0 <= k < |Tagged(first)| ==> Tagged(first)[k] != '/'
  {
    assert forall k :: 3 <= k < |Tagged(first)| ==> Tagged(first)[k] == first[k - 3];
  }

  /** One record: the colon goes in front. */
  lemma ServerFormOne(first: string)
    requires NoMarks(first)
    ensures ServerForm("8*" + first) == Tagged(first)
  {
    assert ":" + ("8*" + first) == Tagged(first);
    TaggedPlain(first);
    FindNone(Tagged(first), '/', 0);
  }

  /** Two records: the slash between them becomes a colon. */
  lemma ServerFormTwo(first: string, second: string)
    requires NoMarks(first)
    ensures ServerForm("8*" + first + "/9*" + second) == Tagged(first) + (":9*" + second)
  {
    hide NoMarks, Find;
    var before, after := Tagged(first), "9*" + second;
    var s := before + "/" + after;
    assert ":" + ("8*" + first + "/9*" + second) == s;
    TaggedPlain(first);
    FindMark(before, '/', after);
    assert s[..|before|] == before && s[|before| + 1..] == after;
    assert before + ":" + after == before + (":9*" + second);
  }

  lemma FirstField(first: string, rest: string)
    requires |first| == 11
    ensures Field(Tagged(first) + rest, ":8*") == Some(first)
  {
    var s := Tagged(first) + rest;
    assert s[0..3] == ":8*";
    FindFrom(s, ":8*", 0, 0);
    assert s[3..14] == first;
  }

  lemma SecondField(first: string, second: string)
    requires |first| == 11 == |second| && NoMarks(first)
    ensures Field(Tagged(first) + (":9*" + second), ":9*") == Some(second)
  {
    hide Find;
    var s := Tagged(first) + (":9*" + second);
    assert forall k :: 3 <= k < 14 ==> s[k] == first[k - 3];
    assert s[14..17] == ":9*";
    forall k | 0 <= k < 14
      ensures !StandsAt(s, ":9*", k)
    {
      assert s[k..k + 3][0] == s[k] && s[k..k + 3][1] == s[k + 1];
      assert s[1] == '8' && s[2] == '*';
    }
    FindFrom(s, ":9*", 0, 14);
    assert s[17..28] == second;
  }

  /** What is written, as the server hands it back, is read as Back says: for all properties and keys. */
  lemma EncodedRoundTrip(vp: MediaProperties, key: seq<word>, bigEndian: bool, buffer: seq<byte>)
    requires |key| == 4 && |buffer| == 8
    ensures DecodeAttributes(ServerForm(EncodeAttributes(vp, key, bigEndian)), key, bigEndian, buffer) == Some(Back(vp))
  {
    hide Cipher, DecodeAttributes, Back, Field, ServerForm, PackAll, PackIds, NoMarks, Tagged;
    var first := Cipher(PackAll(vp), key, bigEndian);
    CipherPlain(PackAll(vp), key, bigEndian);
    var written := EncodeAttributes(vp, key, bigEndian);
    if vp.shortformat != 0 {
      assert written == "8*" + first;
      ServerFormOne(first);
      FirstField(first, "");
      assert Tagged(first) + "" == Tagged(first);
    } else {
      var ids := PackIds(vp.containerid, vp.videocodecid, vp.audiocodecid);
      var second := Cipher(ids, key, bigEndian);
      CipherPlain(ids, key, bigEndian);
      assert written == "8*" + first + "/9*" + second;
      ServerFormTwo(first, second);
      FirstField(first, ":9*" + second);
      SecondField(first, second);
    }
    AttributesRoundTrip(vp, key, bigEndian, buffer, ServerForm(written));
  }

  /** The bounds hold for every word: what is lost above 31 bits is too large to come back near its value. */
  lemma FoldedBounds(w: word, f: word, p: word)
    ensures var w', f', p' := SizeBack(w % HALF), FpsBack(f % HALF), PlaytimeBack(p % HALF);
            && (w < 16384 ==> w' == w)
            && (w < 147456 <==> w' <= w < w' + 8)
            && (f < 128 ==> f' == f)
            && (f < 1152 <==> f' <= f < f' + 8)
            && (p < 131072 ==> p' == p)
            && (p < 131072 || 131100 <= p < 7995420 <==> p' <= p < p' + 60)
  {
    hide SizeBack, FpsBack, PlaytimeBack;
    ErrorBounds(w % HALF, f % HALF, p % HALF);
    Largest(w % HALF, f % HALF, p % HALF);
  }

  lemma Largest(w: nat, f: nat, p: nat)
    ensures SizeBack(w) < 147456 && FpsBack(f) < 1152 && PlaytimeBack(p) < 7995420
  {
  }

  /** What a whole record says once it has been written and read again: the fields within their bounds, exactly then. */
  lemma DecodedBounds(vp: MediaProperties, key: seq<word>, bigEndian: bool, buffer: seq<byte>)
    requires |key| == 4 && |buffer| == 8
    ensures var r := DecodeAttributes(ServerForm(EncodeAttributes(vp, key, bigEndian)), key, bigEndian, buffer);
            && r.Some?
            && (vp.width < 16384 ==> r.value.width == vp.width)
            && (vp.height < 16384 ==> r.value.height == vp.height)
            && (vp.fps < 128 ==> r.value.fps == vp.fps)
            && (vp.playtime < 131072 ==> r.value.playtime == vp.playtime)
            && (vp.width < 147456 <==> r.value.width <= vp.width < r.value.width + 8)
            && (vp.height < 147456 <==> r.value.height <= vp.height < r.value.height + 8)
            && (vp.fps < 1152 <==> r.value.fps <= vp.fps < r.value.fps + 8)
            && (vp.playtime < 131072 || 131100 <= vp.playtime < 7995420
                <==> r.value.playtime <= vp.playtime < r.value.playtime + 60)
  {
    hide DecodeAttributes, ServerForm, EncodeAttributes, SizeBack, FpsBack, PlaytimeBack;
    EncodedRoundTrip(vp, key, bigEndian, buffer);
    FoldedBounds(vp.width, vp.fps, vp.playtime);
    FoldedBounds(vp.height, vp.fps, vp.playtime);
  }

  // ----- The format itself

  /** A number from eight bytes, the lowest first. */
  function FromLow(a: int, b: int, c: int, d: int, e: int, f: int, g: int, h: int): int {
    a + b * 0x100 + c * 0x1_0000 + d * 0x100_0000 + e * 0x1_0000_0000 + f * 0x100_0000_0000 + g * 0x1_0000_0000_0000
    + h * 0x100_0000_0000_0000
  }

  /** The eight bytes are one number: from its lowest bit on 15 bits of width, 15 of height, 8 of rate, 18 of playtime
      and 8 of format. */
  lemma PackIs(width: nat, height: nat, fps: nat, playtime: nat, shortformat: byte)
    requires width < 32768 && height < 32768 && fps < 256 && playtime < 262144
    ensures var v := Pack(width, height, fps, playtime, shortformat);
            FromLow(v[0], v[1], v[2], v[3], v[4], v[5], v[6], v[7])
            == width + height * 0x8000 + fps * 0x4000_0000 + playtime * 0x40_0000_0000
               + shortformat as int * 0x100_0000_0000_0000
  {
    var w, h, p := width / 256, height / 2, playtime / 4;
    assert width == 256 * w + width % 256 && w % 128 == w;
    assert height == 2 * h + height % 2 && height / 512 == h / 256 && h / 256 % 64 == h / 256;
    assert h == h / 256 * 256 + h % 256;
    assert fps == fps / 4 * 4 + fps % 4;
    assert playtime == 4 * p + playtime % 4 && playtime / 1024 == p / 256 && p == p / 256 * 256 + p % 256;
  }

  /** The second record: 8 bits of container, 12 of video codec and 12 of audio codec. */
  lemma PackIdsIs(container: word, video: word, audio: word)
    ensures var v := PackIds(container, video, audio);
            FromLow(v[0], v[1], v[2], v[3], v[4], v[5], v[6], v[7])
            == container % 256 + video % 4096 * 256 + audio % 4096 * 0x10_0000
  {
    Split12(video);
    Split16(audio);
  }

  lemma Split12(x: nat)
    ensures x % 4096 == x % 256 + x / 256 % 16 * 256
  {
    var q := x / 256;
    assert x == 256 * q + x % 256 && q == q / 16 * 16 + q % 16;
    assert x == 4096 * (q / 16) + (256 * (q % 16) + x % 256);
  }

  lemma Split16(x: nat)
    ensures x % 4096 == x % 16 + x / 16 % 256 * 16
  {
    var q := x / 16;
    assert x == 16 * q + x % 16 && q == q / 256 * 256 + q % 256;
    assert x == 4096 * (q / 256) + (16 * (q % 256) + x % 16);
  }

  /** The lowest bit of a shrunken value says whether the others are the value itself or the steps above the range of
      exact values. */
  lemma ShrinkIs(w: nat)
    requires w < HALF
    ensures ShrinkSize(w) == if w < 16384 then 2 * w else if w < 147456 then 2 * ((w - 16384) / 8) + 1 else 32767
    ensures ShrinkFps(w) == if w < 128 then 2 * w else if w < 1152 then 2 * ((w - 128) / 8) + 1 else 255
  {
    assert w * 2 % WORD == w * 2;
    if w >= 16384 {
      Eighth(w - 16384);
    }
    if w >= 128 {
      Eighth(w - 128);
    }
  }

  lemma ShrinkPlaytimeIs(p: nat)
    requires p < HALF
    ensures ShrinkPlaytime(p) == if p < 131072 then 2 * p
                                 else if 131100 <= p < 7995420 then 2 * ((p - 131100) / 60) + 1 else 262143
  {
    hide OrOne;
    assert p * 2 % WORD == p * 2;
    if 131072 <= p < 131100 {
      Wrapped(p);
    } else if p >= 131100 {
      Halve(p - 131100);
      assert (p * 2 - 262200) % WORD == 2 * (p - 131100);
    }
  }
}
