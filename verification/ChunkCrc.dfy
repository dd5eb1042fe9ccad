/** The 12-byte XOR checksum of an upload, taken four bytes at a time. */
module ChunkCrc {
  const CRCSIZE := 12

  function Xor(a: bv8, b: bv8): bv8 {
    a ^ b
  }

  // ----- What the checksum is

  /** A byte at a position of the upload, as lane j sees it. */
  function Seen(position: nat, j: nat, b: bv8): bv8 {
    if position % CRCSIZE == j then b else 0
  }

  /** The XOR of the bytes whose position in the upload is j modulo 12, for data that starts at `offset`. */
  function Lane(data: seq<bv8>, offset: nat, j: nat): bv8 {
    if data == [] then 0
    else
      var last := |data| - 1;
      Xor(Lane(data[..last], offset, j), Seen(offset + last, j, data[last]))
  }

  lemma {:induction false} LaneConcat(a: seq<bv8>, b: seq<bv8>, offset: nat, j: nat)
    ensures Lane(a + b, offset, j) == Xor(Lane(a, offset, j), Lane(b, offset + |a|, j))
  {
    hide Seen, Xor;
    if b == [] {
      assert a + b == a;
      XorZero(Lane(a, offset, j));
    } else {
      var last := |b| - 1;
      LaneConcat(a, b[..last], offset, j);
      assert (a + b)[..|a| + last] == a + b[..last];
      XorAssociates(Lane(a, offset, j), Lane(b[..last], offset + |a|, j), Seen(offset + |a| + last, j, b[last]));
    }
  }

  lemma XorAssociates(a: bv8, b: bv8, c: bv8)
    ensures Xor(Xor(a, b), c) == Xor(a, Xor(b, c))
  {
  }

  /** Up to 12 bytes within one row of the checksum: each lane holds one byte at most. */
  lemma {:induction false} LaneShort(data: seq<bv8>, offset: nat, start: nat, j: nat)
    requires offset % CRCSIZE == start && start + |data| <= CRCSIZE && j < CRCSIZE
    ensures Lane(data, offset, j) == if start <= j < start + |data| then data[j - start] else 0
  {
    if data != [] {
      var last := |data| - 1;
      LaneShort(data[..last], offset, start, j);
      assert (offset + last) % CRCSIZE == start + last by { Row(offset, last, start); }
    }
  }

  lemma Row(offset: nat, k: nat, start: nat)
    requires offset % CRCSIZE == start && start + k < CRCSIZE
    ensures (offset + k) % CRCSIZE == start + k
  {
  }

  /** The checksum `crc` with the data added. */
  ghost predicate Adds(crc: seq<bv8>, data: seq<bv8>, offset: nat, result: seq<bv8>) {
    && |crc| == |result| == CRCSIZE
    && forall j :: 0 <= j < CRCSIZE ==> result[j] == Xor(crc[j], Lane(data, offset, j))
  }

  lemma AddsConcat(crc: seq<bv8>, a: seq<bv8>, b: seq<bv8>, offset: nat, mid: seq<bv8>, result: seq<bv8>)
    requires Adds(crc, a, offset, mid) && Adds(mid, b, offset + |a|, result)
    ensures Adds(crc, a + b, offset, result)
  {
    hide Xor, Lane;
    forall j | 0 <= j < CRCSIZE
      ensures result[j] == Xor(crc[j], Lane(a + b, offset, j))
    {
      LaneConcat(a, b, offset, j);
      XorAssociates(crc[j], Lane(a, offset, j), Lane(b, offset + |a|, j));
    }
  }

  /** The same two pieces added in the other order. */
  lemma AddsBehind(crc: seq<bv8>, a: seq<bv8>, b: seq<bv8>, offset: nat, mid: seq<bv8>, result: seq<bv8>)
    requires Adds(crc, b, offset + |a|, mid) && Adds(mid, a, offset, result)
    ensures Adds(crc, a + b, offset, result)
  {
    hide Xor, Lane;
    forall j | 0 <= j < CRCSIZE
      ensures result[j] == Xor(crc[j], Lane(a + b, offset, j))
    {
      LaneConcat(a, b, offset, j);
      XorSwaps(crc[j], Lane(a, offset, j), Lane(b, offset + |a|, j));
    }
  }

  lemma XorSwaps(c: bv8, a: bv8, b: bv8)
    ensures Xor(Xor(c, b), a) == Xor(c, Xor(a, b))
  {
  }

  // ----- Words

  function Word(s: seq<bv8>): bv32
    requires |s| == 4
  {
    s[0] as bv32 | (s[1] as bv32 << 8) | (s[2] as bv32 << 16) | (s[3] as bv32 << 24)
  }

  function Bytes(w: bv32): (s: seq<bv8>)
    ensures |s| == 4
  {
    [(w & 0xFF) as bv8, ((w >> 8) & 0xFF) as bv8, ((w >> 16) & 0xFF) as bv8, ((w >> 24) & 0xFF) as bv8]
  }

  /** One word XORed with another, in memory. */
  function WordXor(a: seq<bv8>, b: seq<bv8>): (r: seq<bv8>)
    requires |a| == |b| == 4
    ensures |r| == 4
  {
    Bytes(Word(a) ^ Word(b))
  }

  /** XOR of words is XOR of their bytes. */
  lemma WordXorIsBytewise(a: seq<bv8>, b: seq<bv8>)
    requires |a| == |b| == 4
    ensures WordXor(a, b) == [Xor(a[0], b[0]), Xor(a[1], b[1]), Xor(a[2], b[2]), Xor(a[3], b[3])]
  {
  }

  // ----- The loops

  /** One word of the checksum takes in one word of data. */
  method XorWord(crc: array<bv8>, at: nat, data: seq<bv8>, from: nat)
    requires at + 4 <= crc.Length && from + 4 <= |data|
    modifies crc
    ensures forall k :: 0 <= k < crc.Length ==>
              crc[k] == if at <= k < at + 4 then Xor(old(crc[k]), data[from + k - at]) else old(crc[k])
  {
    hide WordXor, Xor;
    var b := WordXor(crc[at..at + 4], data[from..from + 4]);
    WordXorIsBytewise(crc[at..at + 4], data[from..from + 4]);
    crc[at], crc[at + 1], crc[at + 2], crc[at + 3] := b[0], b[1], b[2], b[3];
  }

  /** A row of 12 bytes as three words. */
  method XorRow(crc: array<bv8>, data: seq<bv8>, from: nat, offset: nat)
    requires crc.Length == CRCSIZE && from + CRCSIZE <= |data| && offset % CRCSIZE == 0
    modifies crc
    ensures Adds(old(crc[..]), data[from..from + CRCSIZE], offset, crc[..])
  {
    hide Xor, Lane;
    ghost var row := data[from..from + CRCSIZE];
    XorWord(crc, 0, data, from);
    XorWord(crc, 4, data, from + 4);
    XorWord(crc, 8, data, from + 8);
    forall j | 0 <= j < CRCSIZE
      ensures crc[j] == Xor(old(crc[j]), Lane(row, offset, j))
    {
      LaneShort(row, offset, 0, j);
    }
  }

  /** The first bytes, up to the end of the row they start in. */
  method XorHead(crc: array<bv8>, data: seq<bv8>, n: nat, offset: nat)
    requires crc.Length == CRCSIZE && n <= |data| && offset % CRCSIZE + n <= CRCSIZE
    modifies crc
    ensures Adds(old(crc[..]), data[..n], offset, crc[..])
  {
    hide Xor, Lane;
    var start := offset % CRCSIZE;
    for i := 0 to n
      invariant forall k :: 0 <= k < CRCSIZE ==>
                  crc[k] == if start <= k < start + i then Xor(old(crc[k]), data[k - start]) else old(crc[k])
    {
      crc[start + i] := Xor(crc[start + i], data[i]);
    }
    forall j | 0 <= j < CRCSIZE
      ensures crc[j] == Xor(old(crc[j]), Lane(data[..n], offset, j))
    {
      LaneShort(data[..n], offset, start, j);
      XorZero(old(crc[j]));
    }
  }

  /** The last bytes, less than a row, from the last to the first. */
  method XorTail(crc: array<bv8>, data: seq<bv8>, offset: nat)
    requires crc.Length == CRCSIZE && |data| < CRCSIZE && offset % CRCSIZE == 0
    modifies crc
    ensures Adds(old(crc[..]), data, offset, crc[..])
  {
    hide Xor, Lane;
    var ll := |data|;
    while ll > 0
      invariant 0 <= ll <= |data|
      invariant forall k :: 0 <= k < CRCSIZE ==>
                  crc[k] == if ll <= k < |data| then Xor(old(crc[k]), data[k]) else old(crc[k])
    {
      ll := ll - 1;
      crc[ll] := Xor(crc[ll], data[ll]);
    }
    forall j | 0 <= j < CRCSIZE
      ensures crc[j] == Xor(old(crc[j]), Lane(data, offset, j))
    {
      LaneShort(data, offset, 0, j);
      XorZero(old(crc[j]));
    }
  }

  lemma XorZero(a: bv8)
    ensures Xor(a, 0) == a
  {
  }

  lemma AddsNothing(crc: seq<bv8>, offset: nat)
    requires |crc| == CRCSIZE
    ensures Adds(crc, [], offset, crc)
  {
    hide Xor;
    forall j | 0 <= j < CRCSIZE
      ensures crc[j] == Xor(crc[j], Lane([], offset, j))
    {
      XorZero(crc[j]);
    }
  }

  lemma NextRow(offset: nat)
    ensures (offset + (CRCSIZE - offset % CRCSIZE)) % CRCSIZE == 0
  {
  }

  lemma RowStarts(offset: nat, l: nat)
    requires offset % CRCSIZE == 0
    ensures (offset + CRCSIZE * l) % CRCSIZE == 0
  {
  }

  /** The whole rows, from the last to the first. */
  method XorRows(crc: array<bv8>, data: seq<bv8>, offset: nat)
    requires crc.Length == CRCSIZE && |data| % CRCSIZE == 0 && offset % CRCSIZE == 0
    modifies crc
    ensures Adds(old(crc[..]), data, offset, crc[..])
  {
    hide Adds;
    var l := |data| / CRCSIZE;
    AddsNothing(crc[..], offset + CRCSIZE * l);
    assert data[CRCSIZE * l..] == [];
    while l > 0
      invariant 0 <= CRCSIZE * l <= |data|
      invariant Adds(old(crc[..]), data[CRCSIZE * l..], offset + CRCSIZE * l, crc[..])
    {
      l := l - 1;
      ghost var mid := crc[..];
      RowStarts(offset, l);
      XorRow(crc, data, CRCSIZE * l, offset + CRCSIZE * l);
      ghost var row := data[CRCSIZE * l..CRCSIZE * l + CRCSIZE];
      AddsBehind(old(crc[..]), row, data[CRCSIZE * l + CRCSIZE..], offset + CRCSIZE * l, mid, crc[..]);
      assert row + data[CRCSIZE * l + CRCSIZE..] == data[CRCSIZE * l..];
    }
    assert data[0..] == data;
  }

  class EncryptByChunks {
    const crc: array<bv8>

    constructor ()
      ensures fresh(crc) && crc.Length == CRCSIZE && crc[..] == seq(CRCSIZE, _ => 0)
    {
      crc := new bv8[CRCSIZE](_ => 0);
    }

    method UpdateCrc(data: seq<bv8>, offset: nat)
      requires crc.Length == CRCSIZE
      modifies crc
      ensures Adds(old(crc[..]), data, offset, crc[..])
    {
      hide Adds;
      var ol := offset % CRCSIZE;
      if ol == 0 {
        UpdateRows(data, offset);
        return;
      }
      var ll := CRCSIZE - ol;
      if ll > |data| {
        ll := |data|;
      }
      XorHead(crc, data, ll, offset);
      if ll == |data| {
        assert data[..ll] == data;
        return;
      }
      ghost var mid := crc[..];
      NextRow(offset);
      UpdateRows(data[ll..], offset + ll);
      AddsConcat(old(crc[..]), data[..ll], data[ll..], offset, mid, crc[..]);
      assert data[..ll] + data[ll..] == data;
    }

    /** Data that starts at the beginning of a row: the whole rows, then the rest. */
    method UpdateRows(data: seq<bv8>, offset: nat)
      requires crc.Length == CRCSIZE && offset % CRCSIZE == 0
      modifies crc
      ensures Adds(old(crc[..]), data, offset, crc[..])
    {
      hide Adds;
      var ll := |data| % CRCSIZE;
      RowStarts(offset, |data| / CRCSIZE);
      var rows, tail := data[..|data| - ll], data[|data| - ll..];
      XorRows(crc, rows, offset);
      ghost var mid := crc[..];
      XorTail(crc, tail, offset + |rows|);
      AddsConcat(old(crc[..]), rows, tail, offset, mid, crc[..]);
      assert rows + tail == data;
    }

    /** Takes in the pieces of an upload, each at its own offset. */
    method Encrypt(pieces: seq<seq<bv8>>)
      requires crc.Length == CRCSIZE
      modifies crc
      ensures Adds(old(crc[..]), Concat(pieces), 0, crc[..])
    {
      hide Adds;
      var position := 0;
      AddsNothing(crc[..], 0);
      for i := 0 to |pieces|
        invariant position == |Concat(pieces[..i])|
        invariant Adds(old(crc[..]), Concat(pieces[..i]), 0, crc[..])
      {
        ghost var mid := crc[..];
        UpdateCrc(pieces[i], position);
        AddsConcat(old(crc[..]), Concat(pieces[..i]), pieces[i], 0, mid, crc[..]);
        assert pieces[..i + 1][..i] == pieces[..i];
        position := position + |pieces[i]|;
      }
      assert pieces[..|pieces|] == pieces;
    }
  }

  function Concat(pieces: seq<seq<bv8>>): seq<bv8> {
    if pieces == [] then [] else Concat(pieces[..|pieces| - 1]) + pieces[|pieces| - 1]
  }

  /** The cut into pieces does not matter. */
  method SameForEveryPartition(a: seq<seq<bv8>>, b: seq<seq<bv8>>) returns (x: EncryptByChunks, y: EncryptByChunks)
    requires Concat(a) == Concat(b)
    ensures x.crc[..] == y.crc[..]
  {
    x := new EncryptByChunks();
    x.Encrypt(a);
    y := new EncryptByChunks();
    y.Encrypt(b);
  }

  /** A lane depends on exactly the bytes at its own positions: flipping bits of one byte flips those bits of one
      lane. */
  lemma {:induction false} LaneFlips(data: seq<bv8>, i: nat, flip: bv8, j: nat)
    requires i < |data|
    ensures Lane(data[i := Xor(data[i], flip)], 0, j) == Xor(Lane(data, 0, j), Seen(i, j, flip))
  {
    hide Xor, Seen;
    var last := |data| - 1;
    var other := data[i := Xor(data[i], flip)];
    if i == last {
      assert other[..last] == data[..last];
      SeenXor(last, j, data[last], flip);
      XorAssociates(Lane(data[..last], 0, j), Seen(last, j, data[last]), Seen(last, j, flip));
    } else {
      assert other[..last] == data[..last][i := Xor(data[i], flip)];
      LaneFlips(data[..last], i, flip, j);
      XorSwaps(Lane(data[..last], 0, j), Seen(last, j, data[last]), Seen(i, j, flip));
      XorAssociates(Lane(data[..last], 0, j), Seen(last, j, data[last]), Seen(i, j, flip));
    }
  }

  lemma SeenXor(position: nat, j: nat, a: bv8, b: bv8)
    ensures Seen(position, j, Xor(a, b)) == Xor(Seen(position, j, a), Seen(position, j, b))
  {
  }
}
