/** Sparse file fingerprints: from a file with random access and from a stream that only moves forward. */
module Fingerprint {
  import opened Machine
  import opened Wrappers

  const MAXFULL := 8192
  const CRC_BYTES := 16
  const LANES := 4
  const BLOCK := 64
  const BLOCKS := 32  // MAXFULL / (BLOCK * LANES)

  /** A 32-bit checksum. */
  type Checksum = seq<byte> -> word

  /** The four bytes a checksum is kept in, the highest first, by a host with the lowest byte first. */
  function Stored(sum: word): (s: seq<byte>)
    ensures |s| == 4
  {
    [sum / 16777216, sum / 65536 % 256, sum / 256 % 256, sum % 256]
  }

  // ----- Where the samples are

  /** The offset of sample k of 128, in 64-bit arithmetic, never past the last block. */
  function SparseOffset(size: nat, k: nat): (offset: nat)
    requires size >= BLOCK
    ensures offset <= size - BLOCK
  {
    Min((size - BLOCK) * k % TWO64 / (LANES * BLOCKS - 1), size - BLOCK)
  }

  /** The largest size for which the 64-bit product cannot wrap: a little over 2^57. */
  const LIMIT := 0x204_0810_2040_8142

  lemma OffsetOf(size: nat, k: nat, product: nat)
    requires size >= BLOCK && product == (size - BLOCK) * k && product < TWO64
    ensures SparseOffset(size, k) == Min(product / 127, size - BLOCK)
  {
    assert product % TWO64 == product;
  }

  /** Up to the limit no product wraps and no offset needs the clamp. */
  lemma NoOverflow(size: nat, k: nat)
    requires BLOCK <= size <= LIMIT && k < LANES * BLOCKS
    ensures (size - BLOCK) * k < TWO64
    ensures SparseOffset(size, k) == (size - BLOCK) * k / 127
  {
    var d := size - BLOCK;
    var product := d * k;
    assert product <= d * 127 by { Monotone(d, k, 127); }
    OffsetOf(size, k, product);
  }

  lemma Gap(d: nat, x: nat)
    requires d >= 127 * BLOCK
    ensures x / 127 + BLOCK <= (x + d) / 127
  {
  }

  /** Up to the limit each sample starts after the end of the one before. */
  lemma SampleGap(size: nat, k: nat)
    requires MAXFULL < size <= LIMIT && k + 1 < LANES * BLOCKS
    ensures SparseOffset(size, k) + BLOCK <= SparseOffset(size, k + 1)
  {
    var d := size - BLOCK;
    var product := d * k;
    assert d * (k + 1) == product + d;
    NoOverflow(size, k);
    NoOverflow(size, k + 1);
    Gap(d, product);
  }

  /** The first sample is at the start of the file and the last one ends exactly at its end. */
  lemma SampleEnds(size: nat)
    requires MAXFULL < size <= LIMIT
    ensures SparseOffset(size, 0) == 0 && SparseOffset(size, 127) + BLOCK == size
  {
    NoOverflow(size, 127);
    assert (size - BLOCK) * 127 / 127 == size - BLOCK;
  }

  /** A forward-only reader can take the samples in their order. */
  ghost predicate SamplesInOrder(size: nat)
    requires size >= BLOCK
  {
    forall k: nat {:trigger SparseOffset(size, k)} ::
      k + 1 < LANES * BLOCKS ==> SparseOffset(size, k) + BLOCK <= SparseOffset(size, k + 1)
  }

  /** Past the limit some product is the first to wrap, and its sample lies before the previous one. */
  lemma SampleGoesBack(size: nat) returns (k: nat)
    requires LIMIT < size < TWO64 / 2
    ensures k + 1 < LANES * BLOCKS && SparseOffset(size, k + 1) < SparseOffset(size, k)
  {
    var d := size - BLOCK;
    k := 126;
    while d * k >= TWO64
      invariant k <= 126 && d * (k + 1) >= TWO64
      decreases k
    {
      assert k > 0;
      k := k - 1;
    }
    var product := d * k;
    assert d * (k + 1) == product + d;
    OffsetOf(size, k, product);
    Wraps(size, k, product);
  }

  lemma Wraps(size: nat, k: nat, product: nat)
    requires LIMIT < size < TWO64 / 2 && product == (size - BLOCK) * k < TWO64 <= product + size - BLOCK
    ensures SparseOffset(size, k + 1) <= (product + size - BLOCK - TWO64) / 127 < Min(product / 127, size - BLOCK)
  {
    var d := size - BLOCK;
    var next := product + d;
    assert d * (k + 1) == next;
    assert next % TWO64 == next - TWO64 && next - TWO64 < d;
  }

  /** The samples are in order exactly up to the limit, among all sizes of more than 8192 bytes that a file can have. */
  lemma InOrderIff(size: nat)
    requires MAXFULL < size < TWO64 / 2
    ensures SamplesInOrder(size) <==> size <= LIMIT
  {
    if size <= LIMIT {
      forall k: nat | k + 1 < LANES * BLOCKS
        ensures SparseOffset(size, k) + BLOCK <= SparseOffset(size, k + 1)
      {
        SampleGap(size, k);
      }
    } else {
      var k := SampleGoesBack(size);
    }
  }

  // ----- Where a stream that only moves forward reads them

  /** Where the code takes the stream to be before sample k. */
  function Position(size: nat, k: nat): nat
    requires size >= BLOCK
  {
    if k == 0 then 0 else SparseOffset(size, k - 1) + BLOCK
  }

  /** Where the stream is before sample k. */
  function StreamAt(size: nat, k: nat): nat
    requires size >= BLOCK
    decreases k, 0
  {
    if k == 0 then 0 else ReadAt(size, k - 1) + BLOCK
  }

  /** Where it reads sample k: further on by the distance the code sees, if that is forward. */
  function ReadAt(size: nat, k: nat): nat
    requires size >= BLOCK
    decreases k, 1
  {
    StreamAt(size, k) + Max(SparseOffset(size, k) - Position(size, k), 0)
  }

  /** No read goes past the end. */
  predicate StreamFits(size: nat)
    requires size >= BLOCK
  {
    ReadAt(size, LANES * BLOCKS - 1) + BLOCK <= size
  }

  lemma {:induction false} ReadAtGrows(size: nat, j: nat, k: nat)
    requires size >= BLOCK && j <= k
    ensures ReadAt(size, j) <= ReadAt(size, k)
    decreases k
  {
    if j < k {
      ReadAtGrows(size, j, k - 1);
    }
  }

  /** The stream is never behind. */
  lemma {:induction false} ReadAtLeast(size: nat, k: nat)
    requires size >= BLOCK
    ensures StreamAt(size, k) >= Position(size, k) && ReadAt(size, k) >= SparseOffset(size, k)
  {
    hide SparseOffset;
    if k > 0 {
      ReadAtLeast(size, k - 1);
    }
  }

  /** Up to the limit it reads every sample where it is. */
  lemma {:induction false} ReadAtIs(size: nat, k: nat)
    requires MAXFULL < size <= LIMIT && k < LANES * BLOCKS
    ensures StreamAt(size, k) == Position(size, k) && ReadAt(size, k) == SparseOffset(size, k)
  {
    hide SparseOffset;
    if k > 0 {
      ReadAtIs(size, k - 1);
      SampleGap(size, k - 1);
    }
  }

  // ----- What the fingerprint is

  function Where(size: nat, stream: bool, k: nat): nat
    requires size >= BLOCK
  {
    if stream then ReadAt(size, k) else SparseOffset(size, k)
  }

  /** Sample k, from the file or as the stream reads it. */
  function Block(content: seq<byte>, stream: bool, k: nat): (b: seq<byte>)
    requires |content| >= BLOCK
  {
    var at := Where(|content|, stream, k);
    if at + BLOCK <= |content| then content[at..at + BLOCK] else []
  }

  /** The first n blocks of lane i, one after the other. */
  function LaneBytes(content: seq<byte>, stream: bool, i: nat, n: nat): seq<byte>
    requires |content| >= BLOCK
  {
    if n == 0 then [] else LaneBytes(content, stream, i, n - 1) + Block(content, stream, i * BLOCKS + n - 1)
  }

  function Quarter(content: seq<byte>, i: nat): seq<byte>
    requires i < LANES
  {
    Bounds(|content|, i);
    content[i * |content| / LANES..(i + 1) * |content| / LANES]
  }

  lemma Bounds(n: nat, i: nat)
    requires i < LANES
    ensures 0 <= i * n / LANES <= (i + 1) * n / LANES <= n
  {
    assert i * n <= (i + 1) * n <= 4 * n by { Monotone(n, i, i + 1); Monotone(n, i + 1, 4); }
  }

  function Padding(n: nat): (z: seq<byte>)
    ensures |z| == n
  {
    seq(n, _ => 0)
  }

  /** The checksums of the first n lanes. */
  function Sums(content: seq<byte>, stream: bool, crc32: Checksum, n: nat): (d: seq<byte>)
    requires n <= LANES && |content| > CRC_BYTES
    ensures |d| == 4 * n
  {
    if n == 0 then []
    else if |content| <= MAXFULL then Sums(content, stream, crc32, n - 1) + Stored(crc32(Quarter(content, n - 1)))
    else Sums(content, stream, crc32, n - 1) + Stored(crc32(LaneBytes(content, stream, n - 1, BLOCKS)))
  }

  /** Tiny files verbatim, small files in four parts, larger files in four lanes of 32 samples. */
  function DigestBy(content: seq<byte>, stream: bool, crc32: Checksum): (d: seq<byte>)
    ensures |d| == CRC_BYTES
  {
    if |content| <= CRC_BYTES then content + Padding(CRC_BYTES - |content|)
    else Sums(content, stream, crc32, LANES)
  }

  function Digest(content: seq<byte>, crc32: Checksum): (d: seq<byte>)
    ensures |d| == CRC_BYTES
  {
    DigestBy(content, false, crc32)
  }

  /** The same from a stream; None when it reads past the end. */
  function StreamDigest(content: seq<byte>, crc32: Checksum): (d: Option<seq<byte>>)
    ensures d.Some? ==> |d.value| == CRC_BYTES
  {
    if |content| <= MAXFULL || StreamFits(|content|) then Some(DigestBy(content, true, crc32)) else None
  }

  // ----- Up to the limit, and only there, the two are the same

  lemma {:induction false} LanesAgree(content: seq<byte>, i: nat, n: nat)
    requires MAXFULL < |content| <= LIMIT && i < LANES && n <= BLOCKS
    ensures LaneBytes(content, true, i, n) == LaneBytes(content, false, i, n)
  {
    hide ReadAt, SparseOffset;
    if n > 0 {
      LanesAgree(content, i, n - 1);
      ReadAtIs(|content|, i * BLOCKS + n - 1);
    }
  }

  lemma {:induction false} SumsAgree(content: seq<byte>, crc32: Checksum, n: nat)
    requires CRC_BYTES < |content| <= LIMIT && n <= LANES
    ensures Sums(content, true, crc32, n) == Sums(content, false, crc32, n)
  {
    hide LaneBytes, Quarter, Stored;
    if n > 0 {
      SumsAgree(content, crc32, n - 1);
      if |content| > MAXFULL {
        LanesAgree(content, n - 1, BLOCKS);
      }
    }
  }

  lemma StreamIsFile(content: seq<byte>, crc32: Checksum)
    requires |content| <= LIMIT
    ensures StreamDigest(content, crc32) == Some(Digest(content, crc32))
  {
    hide Sums, ReadAt, SparseOffset;
    if |content| > CRC_BYTES {
      SumsAgree(content, crc32, LANES);
    }
    if |content| > MAXFULL {
      ReadAtIs(|content|, 127);
      SampleEnds(|content|);
    }
  }

  // ----- What a fingerprint says of a content, in terms of the content alone

  /** The bytes of the texts before the i-th. */
  function Before(texts: seq<seq<byte>>, i: nat): nat
    requires i <= |texts|
  {
    if i == 0 then 0 else Before(texts, i - 1) + |texts[i - 1]|
  }

  /** Four texts that make up the content, the i-th from i quarters of its length on, rounded down. */
  ghost predicate InFour(texts: seq<seq<byte>>, content: seq<byte>) {
    && |texts| == 4 && texts[0] + texts[1] + texts[2] + texts[3] == content
    && forall i :: 0 <= i < 4 ==> 4 * Before(texts, i) <= i * |content| < 4 * Before(texts, i) + 4
  }

  /** The 64 bytes of sample k of 128, which are spread evenly from the first to the last of the content. */
  ghost predicate IsSample(block: seq<byte>, content: seq<byte>, k: nat) {
    exists o: nat :: StandsAt(block, content, o) && 127 * o <= (|content| - 64) * k < 127 * o + 127
  }

  predicate StandsAt(block: seq<byte>, content: seq<byte>, o: nat) {
    o + 64 <= |content| && block == content[o..o + 64]
  }

  /** Four texts of 32 samples each. */
  ghost predicate Sampled(texts: seq<seq<byte>>, content: seq<byte>) {
    && |texts| == 4
    && forall i, j :: 0 <= i < 4 && 0 <= j < 32 ==> HasSample(texts[i], content, i, j)
  }

  ghost predicate HasSample(text: seq<byte>, content: seq<byte>, i: nat, j: nat) {
    |text| == 2048 && j < 32 && IsSample(text[64 * j..64 * j + 64], content, 32 * i + j)
  }

  /** A number from its bytes, the highest first. */
  function FromBytes(a: int, b: int, c: int, d: int): int {
    a * 0x1000000 + b * 0x10000 + c * 256 + d
  }

  /** The fingerprint keeps the checksums of four texts, in their order. */
  ghost predicate Keeps(d: seq<byte>, texts: seq<seq<byte>>, crc32: Checksum) {
    && |d| == 16 && |texts| == 4
    && forall i :: 0 <= i < 4 ==>
         crc32(texts[i]) == FromBytes(d[4 * i], d[4 * i + 1], d[4 * i + 2], d[4 * i + 3])
  }

  ghost predicate Describes(d: seq<byte>, content: seq<byte>, crc32: Checksum) {
    if |content| <= 16 then
      |d| == 16 && d[..|content|] == content && forall i :: |content| <= i < 16 ==> d[i] == 0
    else if |content| <= 8192 then
      exists texts :: Keeps(d, texts, crc32) && InFour(texts, content)
    else
      exists texts :: Keeps(d, texts, crc32) && Sampled(texts, content)
  }

  /** Bytes and sum of a checksum. */
  lemma StoredIs(sum: word)
    ensures var s := Stored(sum); sum == FromBytes(s[0], s[1], s[2], s[3])
  {
    assert sum / 0x10000 == sum / 256 / 256 && sum / 0x1000000 == sum / 0x10000 / 256;
    assert sum / 256 == sum / 0x10000 * 256 + sum / 256 % 256;
    assert sum / 0x10000 == sum / 0x1000000 * 256 + sum / 0x10000 % 256;
  }

  /** What checksum i is taken of. */
  function Text(content: seq<byte>, stream: bool, i: nat): seq<byte>
    requires i < LANES && |content| > CRC_BYTES
  {
    if |content| <= MAXFULL then Quarter(content, i) else LaneBytes(content, stream, i, BLOCKS)
  }

  lemma {:induction false} SumAt(content: seq<byte>, stream: bool, crc32: Checksum, n: nat, i: nat)
    requires i < n <= LANES && |content| > CRC_BYTES
    ensures Sums(content, stream, crc32, n)[4 * i..4 * i + 4] == Stored(crc32(Text(content, stream, i)))
  {
    hide Quarter, LaneBytes, Stored;
    var d, init := Sums(content, stream, crc32, n), Sums(content, stream, crc32, n - 1);
    if i < n - 1 {
      SumAt(content, stream, crc32, n - 1, i);
      assert d[4 * i..4 * i + 4] == init[4 * i..4 * i + 4];
    }
  }

  lemma SumsKeep(content: seq<byte>, crc32: Checksum)
    requires |content| > CRC_BYTES
    ensures Keeps(Sums(content, false, crc32, LANES), seq(4, i requires 0 <= i < 4 => Text(content, false, i)), crc32)
  {
    hide Sums, Text, Stored;
    var d := Sums(content, false, crc32, LANES);
    forall i | 0 <= i < 4
      ensures crc32(Text(content, false, i)) == FromBytes(d[4 * i], d[4 * i + 1], d[4 * i + 2], d[4 * i + 3])
    {
      SumAt(content, false, crc32, LANES, i);
      StoredIs(crc32(Text(content, false, i)));
      var s := d[4 * i..4 * i + 4];
      assert s[0] == d[4 * i] && s[1] == d[4 * i + 1] && s[2] == d[4 * i + 2] && s[3] == d[4 * i + 3];
    }
  }

  /** A content cut in three places. */
  lemma Cut(content: seq<byte>, texts: seq<seq<byte>>, a: nat, b: nat, c: nat)
    requires a <= b <= c <= |content|
    requires texts == [content[..a], content[a..b], content[b..c], content[c..]]
    ensures texts[0] + texts[1] + texts[2] + texts[3] == content
    ensures Before(texts, 0) == 0 && Before(texts, 1) == a && Before(texts, 2) == b && Before(texts, 3) == c
  {
    assert Before(texts, 1) == |texts[0]|;
    assert Before(texts, 2) == Before(texts, 1) + |texts[1]|;
  }

  lemma QuartersInFour(content: seq<byte>)
    requires CRC_BYTES < |content| <= MAXFULL
    ensures InFour(seq(4, i requires 0 <= i < 4 => Text(content, false, i)), content)
  {
    hide Before;
    var n := |content|;
    var texts := seq(4, i requires 0 <= i < 4 => Text(content, false, i));
    var a, b, c := n / 4, 2 * n / 4, 3 * n / 4;
    assert Quarter(content, 0) == content[..a] && Quarter(content, 1) == content[a..b];
    assert Quarter(content, 2) == content[b..c] && Quarter(content, 3) == content[c..];
    assert texts == [content[..a], content[a..b], content[b..c], content[c..]];
    Cut(content, texts, a, b, c);
  }

  lemma BlockSamples(content: seq<byte>, k: nat)
    requires MAXFULL < |content| <= LIMIT && k < LANES * BLOCKS
    ensures IsSample(Block(content, false, k), content, k)
  {
    var d := |content| - BLOCK;
    var product := d * k;
    NoOverflow(|content|, k);
    var o := product / 127;
    assert 127 * o <= product < 127 * o + 127;
    assert StandsAt(Block(content, false, k), content, o);
  }

  lemma {:induction false} LaneBlock(content: seq<byte>, i: nat, n: nat, j: nat)
    requires |content| >= BLOCK && i < LANES && j < n <= BLOCKS
    ensures |LaneBytes(content, false, i, n)| == BLOCK * n
    ensures LaneBytes(content, false, i, n)[BLOCK * j..BLOCK * j + BLOCK] == Block(content, false, i * BLOCKS + j)
  {
    hide Block, StreamFits;
    LaneLength(content, false, i, n);
    LaneLength(content, false, i, n - 1);
    BlockFits(content, false, i * BLOCKS + j);
    var all, init := LaneBytes(content, false, i, n), LaneBytes(content, false, i, n - 1);
    if j < n - 1 {
      LaneBlock(content, i, n - 1, j);
      assert all[BLOCK * j..BLOCK * j + BLOCK] == init[BLOCK * j..BLOCK * j + BLOCK];
    }
  }

  lemma LanesSampled(content: seq<byte>)
    requires MAXFULL < |content| <= LIMIT
    ensures Sampled(seq(4, i requires 0 <= i < 4 => Text(content, false, i)), content)
  {
    hide LaneBytes, Block, IsSample;
    forall i, j | 0 <= i < 4 && 0 <= j < 32
      ensures HasSample(Text(content, false, i), content, i, j)
    {
      LaneBlock(content, i, BLOCKS, j);
      BlockSamples(content, i * BLOCKS + j);
    }
  }

  /** Up to the limit the digest describes the content. */
  lemma DigestDescribes(content: seq<byte>, crc32: Checksum)
    requires |content| <= LIMIT
    ensures Describes(Digest(content, crc32), content, crc32)
  {
    hide Keeps, InFour, Sampled, Sums, Text;
    if |content| > CRC_BYTES {
      SumsKeep(content, crc32);
      if |content| <= MAXFULL {
        QuartersInFour(content);
      } else {
        LanesSampled(content);
      }
    }
  }

  /** Every block of a lane is whole, so that block j starts at 64 * j. */
  lemma {:induction false} LaneAt(content: seq<byte>, stream: bool, i: nat, n: nat, j: nat)
    requires |content| >= BLOCK && i < LANES && j < n <= BLOCKS && (stream ==> StreamFits(|content|))
    ensures |LaneBytes(content, stream, i, n)| == BLOCK * n
    ensures |Block(content, stream, i * BLOCKS + j)| == BLOCK
    ensures LaneBytes(content, stream, i, n)[BLOCK * j] == Block(content, stream, i * BLOCKS + j)[0]
  {
    hide Block, StreamFits;
    LaneLength(content, stream, i, n);
    LaneLength(content, stream, i, n - 1);
    BlockFits(content, stream, i * BLOCKS + j);
    if j < n - 1 {
      LaneAt(content, stream, i, n - 1, j);
    }
  }

  lemma BlockFits(content: seq<byte>, stream: bool, k: nat)
    requires |content| >= BLOCK && k < LANES * BLOCKS && (stream ==> StreamFits(|content|))
    ensures Where(|content|, stream, k) + BLOCK <= |content| && |Block(content, stream, k)| == BLOCK
    ensures Block(content, stream, k)[0] == content[Where(|content|, stream, k)]
  {
    hide SparseOffset;
    if stream {
      ReadAtGrows(|content|, k, LANES * BLOCKS - 1);
    }
  }

  lemma {:induction false} LaneLength(content: seq<byte>, stream: bool, i: nat, n: nat)
    requires |content| >= BLOCK && i < LANES && n <= BLOCKS && (stream ==> StreamFits(|content|))
    ensures |LaneBytes(content, stream, i, n)| == BLOCK * n
  {
    hide Block, StreamFits;
    if n > 0 {
      LaneLength(content, stream, i, n - 1);
      BlockFits(content, stream, i * BLOCKS + n - 1);
    }
  }

  /** All bytes are zero but one. */
  function Mark(size: nat, at: nat): (content: seq<byte>)
    ensures |content| == size && forall x :: 0 <= x < size ==> content[x] == if x == at then 1 else 0
  {
    seq(size, x => if x == at then 1 else 0)
  }

  /** Past the limit the stream reads past the end, or a sample of some content is read elsewhere and some checksum
      tells. */
  lemma StreamDiffers(size: nat) returns (content: seq<byte>, crc32: Checksum)
    requires LIMIT < size < TWO64 / 2
    ensures |content| == size && StreamDigest(content, crc32) != Some(Digest(content, crc32))
  {
    hide SparseOffset, ReadAt, StreamAt, LaneBytes, Sums, Stored, Block;
    var k := SampleGoesBack(size);
    var n := k + 1;
    var i, j := n / BLOCKS, n % BLOCKS;
    assert n == i * BLOCKS + j;
    content := Mark(size, SparseOffset(size, n));
    var file := LaneBytes(content, false, i, BLOCKS);
    crc32 := (s: seq<byte>) => if s == file then 1 else 0;
    if StreamFits(size) {
      ReadElsewhere(size, k);
      LaneAt(content, false, i, BLOCKS, j);
      LaneAt(content, true, i, BLOCKS, j);
      BlockFits(content, false, n);
      BlockFits(content, true, n);
      assert LaneBytes(content, true, i, BLOCKS) != file;
      SumAt(content, false, crc32, LANES, i);
      SumAt(content, true, crc32, LANES, i);
      StoredDiffers();
    }
  }

  lemma StoredDiffers()
    ensures Stored(1) != Stored(0)
  {
    assert Stored(1)[3] == 1 && Stored(0)[3] == 0;
  }

  lemma ReadElsewhere(size: nat, k: nat)
    requires size >= BLOCK && SparseOffset(size, k + 1) < SparseOffset(size, k)
    ensures ReadAt(size, k + 1) > SparseOffset(size, k + 1)
  {
    hide SparseOffset;
    ReadAtLeast(size, k);
    assert StreamAt(size, k + 1) == ReadAt(size, k) + BLOCK;
  }

  /** Both overloads agree on all contents of a size, for all checksums. */
  ghost predicate Agree(size: nat) {
    forall content: seq<byte>, crc32: Checksum :: |content| == size ==>
      StreamDigest(content, crc32) == Some(Digest(content, crc32))
  }

  /** The limit is exact for the fingerprints too, among all sizes that a file can have. */
  lemma AgreeIff(size: nat)
    requires size < TWO64 / 2
    ensures Agree(size) <==> size <= LIMIT
  {
    hide StreamDigest, Digest;
    if size <= LIMIT {
      forall content: seq<byte>, crc32: Checksum | |content| == size
        ensures StreamDigest(content, crc32) == Some(Digest(content, crc32))
      {
        StreamIsFile(content, crc32);
      }
    } else {
      var content, crc32 := StreamDiffers(size);
    }
  }

  // ----- Where the bytes come from

  /** A running checksum; taking the result starts it afresh. */
  class HashCRC32 {
    const crc32: Checksum
    var pending: seq<byte>

    constructor (crc32: Checksum)
      ensures this.crc32 == crc32 && pending == []
    {
      this.crc32, pending := crc32, [];
    }

    method Add(data: seq<byte>)
      modifies this
      ensures pending == old(pending) + data
    {
      pending := pending + data;
    }

    method Get() returns (sum: seq<byte>)
      modifies this
      ensures sum == Stored(crc32(old(pending))) && pending == []
    {
      sum := Stored(crc32(pending));
      pending := [];
    }
  }

  /** A file that can be read anywhere. The calls numbered by `broken` fail. */
  class FileAccess {
    const content: seq<byte>
    const mtime: int
    const broken: nat -> bool
    var calls: nat
    ghost var failed: bool

    /** A recorded failure is one that `broken` asked for. */
    ghost predicate Valid()
      reads this
    {
      failed ==> exists k: nat :: k < calls && broken(k)
    }

    constructor (content: seq<byte>, mtime: int, broken: nat -> bool)
      ensures this.content == content && this.mtime == mtime && this.broken == broken && calls == 0 && !failed &&
              Valid()
    {
      this.content, this.mtime, this.broken, calls, failed := content, mtime, broken, 0, false;
    }

    method Open() returns (ok: bool)
      requires Valid()
      modifies this
      ensures Valid() && ok == !broken(old(calls)) && calls == old(calls) + 1 && failed == (old(failed) || !ok)
    {
      ok := !broken(calls);
      calls, failed := calls + 1, failed || !ok;
    }

    method RawRead(n: nat, offset: nat) returns (ok: bool, data: seq<byte>)
      requires Valid()
      modifies this
      ensures Valid() && ok == (!broken(old(calls)) && offset + n <= |content|)
      ensures calls == old(calls) + 1 && failed == (old(failed) || broken(old(calls)))
      ensures ok ==> data == content[offset..offset + n]
    {
      ok := !broken(calls) && offset + n <= |content|;
      data := if ok then content[offset..offset + n] else [];
      calls, failed := calls + 1, failed || broken(calls);
    }
  }

  /** A stream that reads on or skips on from where it is. Its size may be unknown. */
  class InputStream {
    const content: seq<byte>
    const known: bool
    const broken: nat -> bool
    var offset: nat
    var calls: nat
    ghost var failed: bool

    /** A recorded failure is one that `broken` asked for. */
    ghost predicate Valid()
      reads this
    {
      failed ==> exists k: nat :: k < calls && broken(k)
    }

    constructor (content: seq<byte>, known: bool, broken: nat -> bool)
      ensures this.content == content && this.known == known && this.broken == broken && offset == 0 && calls == 0 &&
              !failed && Valid()
    {
      this.content, this.known, this.broken, offset, calls, failed := content, known, broken, 0, 0, false;
    }

    function Size(): int {
      if known then |content| else -1
    }

    method Read(n: nat) returns (ok: bool, data: seq<byte>)
      requires Valid()
      modifies this
      ensures Valid() && ok == (!broken(old(calls)) && old(offset) + n <= |content|)
      ensures calls == old(calls) + 1 && failed == (old(failed) || broken(old(calls)))
      ensures ok ==> data == content[old(offset)..old(offset) + n] && offset == old(offset) + n
    {
      ok := !broken(calls) && offset + n <= |content|;
      data := if ok then content[offset..offset + n] else [];
      offset := if ok then offset + n else offset;
      calls, failed := calls + 1, failed || broken(calls);
    }

    /** Skips any distance in steps that fit 32 bits; a distance that is not positive skips nothing. */
    method Seek(distance: int) returns (ok: bool)
      requires Valid()
      modifies this
      ensures Valid() && (old(failed) ==> failed)
      ensures ok ==> failed == old(failed) && offset == old(offset) + Max(distance, 0)
      ensures !ok ==> failed || old(offset) + Max(distance, 0) > |content|
      ensures ok && distance > 0 ==> offset <= |content|
    {
      var fullstep := distance;
      ok := true;
      while fullstep > 0
        invariant Valid() && fullstep <= distance && failed == old(failed)
        invariant offset + Max(fullstep, 0) == old(offset) + Max(distance, 0)
        invariant fullstep < distance ==> offset <= |content|
      {
        var step := if fullstep > WORD - 1 then WORD - 1 else fullstep;
        ok := Skip(step);
        if !ok {
          return;
        }
        fullstep := fullstep - step;
      }
    }

    method Skip(n: nat) returns (ok: bool)
      requires Valid()
      modifies this
      ensures Valid() && ok == (!broken(old(calls)) && old(offset) + n <= |content|)
      ensures calls == old(calls) + 1 && failed == (old(failed) || broken(old(calls)))
      ensures ok ==> offset == old(offset) + n
    {
      ok := !broken(calls) && offset + n <= |content|;
      offset := if ok then offset + n else offset;
      calls, failed := calls + 1, failed || broken(calls);
    }
  }

  // ----- The two ways to take a fingerprint

  /** The four checksums of a small file. */
  method FullSums(content: seq<byte>, crc32: Checksum) returns (sums: seq<byte>)
    requires CRC_BYTES < |content| <= MAXFULL
    ensures sums == Sums(content, false, crc32, LANES) == Sums(content, true, crc32, LANES)
  {
    var hash := new HashCRC32(crc32);
    sums := [];
    for i := 0 to LANES
      invariant hash.pending == [] && sums == Sums(content, false, crc32, i) == Sums(content, true, crc32, i)
    {
      Bounds(|content|, i);
      var begin, end := i * |content| / LANES, (i + 1) * |content| / LANES;
      hash.Add(content[begin..end]);
      assert hash.pending == Quarter(content, i);
      var sum := hash.Get();
      sums := sums + sum;
    }
  }

  class FileFingerprint {
    var size: int
    var mtime: int
    var crc: seq<byte>
    var isvalid: bool

    constructor ()
      ensures size == -1 && mtime == 0 && crc == Padding(CRC_BYTES) && !isvalid
    {
      size, mtime, crc, isvalid := -1, 0, Padding(CRC_BYTES), false;
    }

    /** What both overloads leave behind when every read works. */
    twostate predicate Taken(newSize: nat, time: int, digest: seq<byte>, ignoremtime: bool, changed: bool)
      reads this
    {
      && size == newSize && mtime == time && crc == digest && isvalid
      && changed == ((old(mtime) != time && !ignoremtime) || old(size) != size || old(crc) != crc || !old(isvalid))
    }

    /** What both overloads leave behind when a read fails. */
    twostate predicate Failed(time: int, changed: bool)
      reads this
    {
      size == -1 && mtime == time && crc == old(crc) && isvalid == old(isvalid) && changed
    }

    /** Notes a new time and size. */
    method Note(newTime: int, newSize: int, ignoremtime: bool) returns (changed: bool)
      modifies this
      ensures size == newSize && mtime == newTime && crc == old(crc) && isvalid == old(isvalid)
      ensures changed == ((old(mtime) != newTime && !ignoremtime) || old(size) != newSize)
    {
      changed := false;
      if mtime != newTime {
        mtime := newTime;
        changed := !ignoremtime;
      }
      if size != newSize {
        size := newSize;
        changed := true;
      }
    }

    /** Stores new checksums. */
    method Store(newcrc: seq<byte>, noted: bool) returns (changed: bool)
      modifies this
      ensures size == old(size) && mtime == old(mtime) && crc == newcrc && isvalid
      ensures changed == (noted || old(crc) != newcrc || !old(isvalid))
    {
      changed := noted;
      if crc != newcrc {
        crc := newcrc;
        changed := true;
      }
      if !isvalid {
        isvalid := true;
        changed := true;
      }
    }

    method FromFile(fa: FileAccess, crc32: Checksum, ignoremtime: bool) returns (changed: bool)
      requires fa.Valid() && !fa.failed
      modifies this, fa
      ensures fa.Valid() && (fa.failed ==> Failed(fa.mtime, changed))
      ensures !fa.failed ==> Taken(|fa.content|, fa.mtime, Digest(fa.content, crc32), ignoremtime, changed)
      ensures !fa.failed && |fa.content| <= LIMIT ==> Describes(crc, fa.content, crc32)
    {
      hide Sums, SparseOffset, Describes;
      if |fa.content| <= LIMIT {
        DigestDescribes(fa.content, crc32);
      }
      changed := Note(fa.mtime, |fa.content|, ignoremtime);
      var ok := fa.Open();
      if !ok {
        size := -1;
        return true;
      }
      var newcrc: seq<byte>;
      if size <= CRC_BYTES {
        ok, newcrc := fa.RawRead(size, 0);
        if !ok {
          size := -1;
          return true;
        }
        newcrc := newcrc + Padding(CRC_BYTES - size);
      } else if size <= MAXFULL {
        ok, newcrc := fa.RawRead(size, 0);
        if !ok {
          size := -1;
          return true;
        }
        assert newcrc == fa.content;
        newcrc := FullSums(newcrc, crc32);
      } else {
        ok, newcrc := SparseFromFile(fa, crc32);
        if !ok {
          size := -1;
          return true;
        }
      }
      changed := Store(newcrc, changed);
    }

    method FromStream(src: InputStream, cmtime: int, crc32: Checksum, ignoremtime: bool) returns (changed: bool)
      requires src.Valid() && src.offset == 0 && !src.failed
      modifies this, src
      ensures src.Valid()
      ensures !src.known || src.failed || StreamDigest(src.content, crc32).None? ==> Failed(cmtime, changed)
      ensures src.known && !src.failed && StreamDigest(src.content, crc32).Some? ==>
                Taken(|src.content|, cmtime, StreamDigest(src.content, crc32).value, ignoremtime, changed)
      ensures src.known && !src.failed && |src.content| <= LIMIT ==> Describes(crc, src.content, crc32)
    {
      hide Sums, SparseOffset, StreamFits, Describes;
      if |src.content| <= LIMIT {
        DigestDescribes(src.content, crc32);
        StreamIsFile(src.content, crc32);
      }
      changed := Note(cmtime, src.Size(), ignoremtime);
      if size < 0 {
        size := -1;
        return true;
      }
      var ok: bool, newcrc: seq<byte>;
      if size <= CRC_BYTES {
        ok, newcrc := src.Read(size);
        if !ok {
          size := -1;
          return true;
        }
        newcrc := newcrc + Padding(CRC_BYTES - size);
      } else if size <= MAXFULL {
        ok, newcrc := src.Read(size);
        if !ok {
          size := -1;
          return true;
        }
        assert newcrc == src.content;
        newcrc := FullSums(newcrc, crc32);
      } else {
        ok, newcrc := SparseFromStream(src, crc32);
        if !ok {
          size := -1;
          return true;
        }
      }
      changed := Store(newcrc, changed);
    }
  }

  lemma LaneStep(content: seq<byte>, stream: bool, i: nat, j: nat)
    requires |content| >= BLOCK
    ensures LaneBytes(content, stream, i, 0) == []
    ensures LaneBytes(content, stream, i, j + 1)
            == LaneBytes(content, stream, i, j) + Block(content, stream, i * BLOCKS + j)
  {
  }

  lemma SumsStep(content: seq<byte>, stream: bool, crc32: Checksum, n: nat)
    requires n < LANES && |content| > MAXFULL
    ensures Sums(content, stream, crc32, 0) == []
    ensures Sums(content, stream, crc32, n + 1)
         == Sums(content, stream, crc32, n) + Stored(crc32(LaneBytes(content, stream, n, BLOCKS)))
  {
  }

  method LaneFromFile(fa: FileAccess, hash: HashCRC32, i: nat) returns (ok: bool)
    requires fa.Valid() && |fa.content| > MAXFULL && hash.pending == [] && i < LANES
    modifies fa, hash
    ensures fa.Valid() && fa.failed == (old(fa.failed) || !ok)
    ensures ok ==> hash.pending == LaneBytes(fa.content, false, i, BLOCKS)
  {
    hide LaneBytes, SparseOffset, ReadAt;
    ok := true;
    LaneStep(fa.content, false, i, 0);
    for j := 0 to BLOCKS
      invariant hash.pending == LaneBytes(fa.content, false, i, j) && fa.Valid() && fa.failed == old(fa.failed)
    {
      LaneStep(fa.content, false, i, j);
      var offset := SparseOffset(|fa.content|, i * BLOCKS + j);
      var data;
      ok, data := fa.RawRead(BLOCK, offset);
      if !ok {
        return;
      }
      hash.Add(data);
    }
  }

  method SparseFromFile(fa: FileAccess, crc32: Checksum) returns (ok: bool, sums: seq<byte>)
    requires fa.Valid() && |fa.content| > MAXFULL
    modifies fa
    ensures fa.Valid() && fa.failed == (old(fa.failed) || !ok)
    ensures ok ==> sums == Sums(fa.content, false, crc32, LANES)
  {
    hide Sums, LaneBytes, SparseOffset;
    var hash := new HashCRC32(crc32);
    ok, sums := true, [];
    SumsStep(fa.content, false, crc32, 0);
    for i := 0 to LANES
      invariant hash.pending == [] && sums == Sums(fa.content, false, crc32, i) && fa.Valid() &&
                fa.failed == old(fa.failed)
    {
      SumsStep(fa.content, false, crc32, i);
      ok := LaneFromFile(fa, hash, i);
      if !ok {
        return;
      }
      var sum := hash.Get();
      sums := sums + sum;
    }
  }

  lemma NextSample(size: nat, k: nat)
    requires size >= BLOCK
    ensures Position(size, k + 1) == SparseOffset(size, k) + BLOCK && StreamAt(size, k + 1) == ReadAt(size, k) + BLOCK
    ensures ReadAt(size, k) == StreamAt(size, k) + Max(SparseOffset(size, k) - Position(size, k), 0)
    ensures Position(size, 0) == StreamAt(size, 0) == 0
  {
  }

  lemma BlockRead(content: seq<byte>, k: nat)
    requires |content| >= BLOCK && ReadAt(|content|, k) + BLOCK <= |content|
    ensures Block(content, true, k) == content[ReadAt(|content|, k)..ReadAt(|content|, k) + BLOCK]
  {
    hide ReadAt, SparseOffset;
  }

  lemma NotFitting(size: nat, k: nat)
    requires size >= BLOCK && k < LANES * BLOCKS && ReadAt(size, k) + BLOCK > size
    ensures !StreamFits(size)
  {
    ReadAtGrows(size, k, LANES * BLOCKS - 1);
  }

  /** Every block is looked for from where the code takes the stream to be. */
  method LaneFromStream(src: InputStream, hash: HashCRC32, i: nat, start: nat) returns (ok: bool, current: nat)
    requires src.Valid() && MAXFULL < |src.content| && hash.pending == [] && i < LANES
    requires start == Position(|src.content|, i * BLOCKS) && src.offset == StreamAt(|src.content|, i * BLOCKS)
    modifies src, hash
    ensures src.Valid() && (old(src.failed) ==> src.failed) && (ok ==> src.failed == old(src.failed))
    ensures !ok ==> src.failed || !StreamFits(|src.content|)
    ensures ok ==> hash.pending == LaneBytes(src.content, true, i, BLOCKS)
    ensures ok ==> current == Position(|src.content|, (i + 1) * BLOCKS) &&
                    src.offset == StreamAt(|src.content|, (i + 1) * BLOCKS)
    ensures ok ==> src.offset <= |src.content|
  {
    hide LaneBytes, SparseOffset, Position, StreamAt, ReadAt, StreamFits, Block;
    ok, current := true, start;
    LaneStep(src.content, true, i, 0);
    for j := 0 to BLOCKS
      invariant hash.pending == LaneBytes(src.content, true, i, j) && src.Valid() && src.failed == old(src.failed)
      invariant current == Position(|src.content|, i * BLOCKS + j) &&
                src.offset == StreamAt(|src.content|, i * BLOCKS + j)
      invariant j > 0 ==> src.offset <= |src.content|
    {
      ghost var k := i * BLOCKS + j;
      LaneStep(src.content, true, i, j);
      NextSample(|src.content|, k);
      if ReadAt(|src.content|, k) + BLOCK > |src.content| {
        NotFitting(|src.content|, k);
      } else {
        BlockRead(src.content, k);
      }
      var offset := SparseOffset(|src.content|, i * BLOCKS + j);
      ok := src.Seek(offset - current);
      if !ok {
        return;
      }
      current := current + (offset - current);
      var data;
      ok, data := src.Read(BLOCK);
      if !ok {
        return;
      }
      current := current + BLOCK;
      hash.Add(data);
    }
  }

  method SparseFromStream(src: InputStream, crc32: Checksum) returns (ok: bool, sums: seq<byte>)
    requires src.Valid() && MAXFULL < |src.content| && src.offset == 0
    modifies src
    ensures src.Valid() && (old(src.failed) ==> src.failed)
    ensures ok ==> src.failed == old(src.failed) && StreamFits(|src.content|) &&
                    sums == Sums(src.content, true, crc32, LANES)
    ensures !ok ==> src.failed || !StreamFits(|src.content|)
  {
    hide Sums, LaneBytes, SparseOffset, Position, StreamAt, ReadAt;
    var hash := new HashCRC32(crc32);
    ok, sums := true, [];
    var current := 0;
    SumsStep(src.content, true, crc32, 0);
    NextSample(|src.content|, LANES * BLOCKS - 1);
    for i := 0 to LANES
      invariant hash.pending == [] && sums == Sums(src.content, true, crc32, i) && src.Valid() &&
                src.failed == old(src.failed)
      invariant current == Position(|src.content|, i * BLOCKS) && src.offset == StreamAt(|src.content|, i * BLOCKS)
      invariant src.offset <= |src.content|
    {
      SumsStep(src.content, true, crc32, i);
      ok, current := LaneFromStream(src, hash, i, current);
      if !ok {
        return;
      }
      var sum := hash.Get();
      sums := sums + sum;
    }
  }

  /** Both overloads, on the same bytes and with no failing read, take the same fingerprint. */
  method StreamEqualsRandomAccess(content: seq<byte>, mtime: int, crc32: Checksum)
      returns (a: FileFingerprint, b: FileFingerprint)
    requires |content| <= LIMIT
    ensures a.size == b.size == |content| && a.mtime == b.mtime == mtime && a.crc == b.crc && a.isvalid && b.isvalid
  {
    hide Digest, StreamDigest;
    StreamIsFile(content, crc32);
    var fa := new FileAccess(content, mtime, _ => false);
    var src := new InputStream(content, true, _ => false);
    a := new FileFingerprint();
    b := new FileFingerprint();
    var changed := a.FromFile(fa, crc32, false);
    changed := b.FromStream(src, mtime, crc32, false);
  }
}
