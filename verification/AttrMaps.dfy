/** Node attributes: a map from name numbers to byte strings, written as JSON members or in binary. */
module AttrMaps {
  import opened Wrappers
  import opened JsonScan
  import opened JsonStrings
  import opened JsonReader

  type attr_map = map<nat, seq<byte>>

  // ----- Names and numbers

  /** id shifted right by j bytes. */
  function ShiftRight(id: nat, j: nat): nat {
    if j == 0 then id else ShiftRight(id, j - 1) / 256
  }

  /** The non-zero bytes among the lowest n bytes of id, highest first. */
  function NameBytes(id: nat, n: nat): (s: seq<byte>)
    ensures |s| <= n
  {
    if n == 0 then []
    else NameBytes(id / 256, n - 1) + if id % 256 == 0 then [] else [(id % 256) as char]
  }

  function NameOf(id: nat): (s: seq<byte>)
    ensures |s| <= 8
  {
    NameBytes(id, 8)
  }

  method NameIdToString(id: nat) returns (s: seq<byte>)
    ensures s == NameOf(id)
  {
    s := [];
    var j := 8;
    while j > 0
      invariant 0 <= j <= 8
      invariant s == NameBytes(ShiftRight(id, j), 8 - j)
    {
      j := j - 1;
      var b := ShiftRight(id, j) % 256;
      if b != 0 {
        s := s + [b as char];
      }
    }
  }

  predicate NoZero(name: seq<byte>) {
    forall k :: 0 <= k < |name| ==> 0 < name[k] as int < 256
  }

  /** One to eight bytes, none of them zero. */
  predicate IsName(name: seq<byte>) {
    1 <= |name| <= 8 && NoZero(name)
  }

  /** A name that can stand in JSON text: ASCII, without a quote. */
  predicate IsJsonName(name: seq<byte>) {
    IsName(name) && QUOTE !in name && forall k :: 0 <= k < |name| ==> name[k] as int < 128
  }

  function Number(name: seq<byte>): nat {
    if name == [] then 0 else Number(name[..|name| - 1]) * 256 + name[|name| - 1] as int
  }

  function Pow256(n: nat): nat {
    if n == 0 then 1 else 256 * Pow256(n - 1)
  }

  lemma {:induction false} NumberBound(name: seq<byte>)
    requires forall k :: 0 <= k < |name| ==> name[k] as int < 256
    ensures Number(name) < Pow256(|name|)
  {
    if name != [] {
      NumberBound(name[..|name| - 1]);
    }
  }

  lemma NumberFits(name: seq<byte>)
    requires |name| <= 8 && forall k :: 0 <= k < |name| ==> name[k] as int < 256
    ensures Number(name) < TWO64
  {
    NumberBound(name);
    PowMonotone(|name|, 8);
    assert Pow256(8) == TWO64 by {
      assert Pow256(2) == 0x10000;
      assert Pow256(4) == 0x1_0000_0000;
      assert Pow256(6) == 0x1_0000_0000_0000;
    }
  }

  lemma {:induction false} PowMonotone(m: nat, n: nat)
    requires m <= n
    ensures 1 <= Pow256(m) <= Pow256(n)
    decreases n
  {
    if m < n {
      PowMonotone(m, n - 1);
    } else if m > 0 {
      PowMonotone(m - 1, n - 1);
    }
  }

  /** A name is recovered from its number. */
  lemma {:induction false} NameOfNumber(name: seq<byte>, n: nat)
    requires |name| <= n && NoZero(name)
    ensures NameBytes(Number(name), n) == name
    decreases n
  {
    if name != [] {
      var init, last := name[..|name| - 1], name[|name| - 1] as int;
      assert last != 0;
      assert Number(name) / 256 == Number(init) && Number(name) % 256 == last;
      NameOfNumber(init, n - 1);
      assert name == init + [name[|name| - 1]];
    } else if n > 0 {
      NameOfNumber(name, n - 1);
    }
  }

  lemma NumberPositive(name: seq<byte>)
    requires name != [] && NoZero(name)
    ensures Number(name) > 0
  {
    assert name[|name| - 1] in name;
  }

  /** The 64-bit number that the reader computes is the number of the name. */
  lemma {:induction false} ReadNumber(name: seq<byte>)
    requires |name| <= 8 && forall k :: 0 <= k < |name| ==> name[k] as int < 128
    ensures NameNumber(name) == Number(name)
  {
    if name != [] {
      ReadNumber(name[..|name| - 1]);
      NumberFits(name);
    }
  }

  /** Every key of m is the number of a name. */
  ghost predicate Named(m: attr_map) {
    forall id :: id in m ==> IsName(NameOf(id)) && Number(NameOf(id)) == id
  }

  ghost predicate JsonNamed(m: attr_map) {
    forall id :: id in m ==> IsJsonName(NameOf(id)) && Number(NameOf(id)) == id
  }

  // ----- The order of a map

  predicate IsLeast(k: nat, keys: set<nat>) {
    k in keys && forall j :: j in keys ==> k <= j
  }

  lemma {:induction false} LeastExists(keys: set<nat>)
    requires keys != {}
    ensures exists k :: IsLeast(k, keys)
    decreases |keys|
  {
    var x :| x in keys;
    if keys == {x} {
      assert IsLeast(x, keys);
    } else {
      LeastExists(keys - {x});
      var y :| IsLeast(y, keys - {x});
      assert forall j :: j in keys ==> j == x || j in keys - {x};
      assert IsLeast(if x < y then x else y, keys);
    }
  }

  ghost function Least(keys: set<nat>): (k: nat)
    requires keys != {}
    ensures IsLeast(k, keys)
  {
    LeastExists(keys);
    var k :| IsLeast(k, keys);
    k
  }

  lemma LeastUnique(keys: set<nat>, k: nat)
    requires IsLeast(k, keys)
    ensures Least(keys) == k
  {
  }

  // ----- JSON members

  /** One member. The number zero, which no name has, is not written out. */
  function Entry(id: nat, value: seq<byte>): seq<byte> {
    if id == 0 then "\"" else "\"" + NameOf(id) + "\":\"" + Escape(value) + "\""
  }

  /** The members with the given keys, in the order of the keys. */
  ghost function JsonText(m: attr_map, keys: set<nat>): seq<byte>
    requires keys <= m.Keys
    decreases |keys|
  {
    if keys == {} then [] else
    var k := Least(keys);
    Entry(k, m[k]) + (if keys == {k} then [] else "," + JsonText(m, keys - {k}))
  }

  /** The loop that reads members into a map; None when the text breaks off inside a name. */
  function ReadMembers(text: seq<byte>, pos: nat, m: attr_map): (r: Option<attr_map>)
    requires pos <= |text|
    decreases |text| - pos
  {
    match GetName(text, pos)
    case None => None
    case Some(name) =>
      if name.0 == 0 then Some(m) else
      var touched := if name.0 in m then m else m[name.0 := []];
      var r := Store(text, name.1);
      if !r.ok then Some(touched) else ReadMembers(text, r.pos, touched[name.0 := Unescape(r.stored)])
  }

  /** m without the keys outside the given set. */
  function Restrict(m: attr_map, keys: set<nat>): attr_map {
    map id | id in m && id in keys :: m[id]
  }

  lemma {:induction false} QuoteAfterName(text: string, i: nat, name: string)
    requires Here(text, i, name) && i + |name| < |text| && QUOTE !in name && text[i + |name|] == QUOTE
    ensures RawQuote(text, i) == i + |name|
    decreases |name|
  {
    if name != "" {
      assert name == [name[0]] + name[1..] && name[0] in name;
      HereParts(text, i, [name[0]], name[1..]);
      HereChar(text, i, name[0]);
      assert forall c :: c in name[1..] ==> c in name;
      QuoteAfterName(text, i + 1, name[1..]);
    }
  }

  lemma EntryParts(id: nat, value: seq<byte>)
    requires id != 0
    ensures Entry(id, value) == "\"" + (NameOf(id) + ("\"" + (":" + ("\"" + Escape(value) + "\""))))
  {
    hide NameOf, Escape;
  }

  /** Where the parts of an entry stand. */
  lemma EntryLayout(text: seq<byte>, i: nat, id: nat, value: seq<byte>)
    requires Here(text, i, Entry(id, value)) && id != 0
    ensures var n := |NameOf(id)|;
            && i + n + 4 < |text| && text[i] == QUOTE && Here(text, i + 1, NameOf(id))
            && text[i + 1 + n] == QUOTE && text[i + 2 + n] == ':' && text[i + 3 + n] == QUOTE
            && Here(text, i + n + 3, "\"" + Escape(value) + "\"")
            && |Entry(id, value)| == n + 5 + |Escape(value)|
  {
    hide NameOf, Escape, Here, Entry;
    EntryParts(id, value);
    var name, quoted := NameOf(id), "\"" + Escape(value) + "\"";
    var n := |name|;
    HereParts(text, i, "\"", name + ("\"" + (":" + quoted)));
    HereParts(text, i + 1, name, "\"" + (":" + quoted));
    HereParts(text, i + 1 + n, "\"", ":" + quoted);
    HereParts(text, i + 2 + n, ":", quoted);
    HereChar(text, i, QUOTE);
    HereChar(text, i + 1 + n, QUOTE);
    HereChar(text, i + 2 + n, ':');
    QuotedHere(text, i + 3 + n, Escape(value));
  }

  lemma QuotedHere(text: seq<byte>, at: nat, s: seq<byte>)
    requires Here(text, at, "\"" + s + "\"")
    ensures at + 1 < |text| && text[at] == QUOTE
  {
    assert text[at..at + |s| + 2][0] == QUOTE;
  }

  /** The name of an entry, after an optional comma, is read as its number. */
  lemma EntryName(text: seq<byte>, pos: nat, i: nat, id: nat, value: seq<byte>)
    requires IsJsonName(NameOf(id)) && Number(NameOf(id)) == id && Here(text, i, Entry(id, value))
    requires i == pos || (i == pos + 1 && text[pos] == ',')
    ensures pos <= |text| && GetName(text, pos) == Some((id, i + |NameOf(id)| + 3))
  {
    hide NameOf, Entry, Number, NameNumber, RawQuote, SkipNull, Here, Escape;
    var name := NameOf(id);
    NumberPositive(name);
    EntryLayout(text, i, id, value);
    HereInside(text, i + 1, name);
    QuoteAfterName(text, i + 1, name);
    ReadNumber(name);
    NotNull(text, i + |name| + 3);
  }

  lemma NotNull(text: seq<byte>, pos: nat)
    requires pos < |text| && text[pos] == QUOTE
    ensures SkipNull(text, pos) == (false, pos)
  {
  }

  /** The value of an entry is taken and decoded. */
  lemma EntryValue(text: seq<byte>, i: nat, id: nat, value: seq<byte>)
    requires Here(text, i, Entry(id, value)) && id != 0
    ensures i + |Entry(id, value)| <= |text|
    ensures Store(text, i + |NameOf(id)| + 3) == StoreResult(true, Escape(value), i + |Entry(id, value)|)
    ensures Unescape(Escape(value)) == value
  {
    hide NameOf, Escape, Store, Unescape, Entry;
    EntryLayout(text, i, id, value);
    var at := i + |NameOf(id)| + 3;
    var quoted := "\"" + Escape(value) + "\"";
    HereSplit(text, at, quoted);
    var after := text[at + |quoted|..];
    assert text == text[..at] + "\"" + Escape(value) + "\"" + after;
    StoredRoundTrip(value, text[..at], after);
  }

  /** What follows the first member. */
  ghost function JsonTail(m: attr_map, keys: set<nat>): seq<byte>
    requires keys <= m.Keys && keys != {}
  {
    var k := Least(keys);
    if keys == {k} then [] else "," + JsonText(m, keys - {k})
  }

  /** Reading one member. */
  lemma ReadEntry(text: seq<byte>, pos: nat, i: nat, id: nat, value: seq<byte>, acc: attr_map)
    requires IsJsonName(NameOf(id)) && Number(NameOf(id)) == id && Here(text, i, Entry(id, value))
    requires i == pos || (i == pos + 1 && text[pos] == ',')
    ensures pos <= i + |Entry(id, value)| <= |text|
    ensures ReadMembers(text, pos, acc) == ReadMembers(text, i + |Entry(id, value)|, acc[id := value])
  {
    hide Entry, Escape, Unescape, Store, GetName, NameOf, Here;
    EntryName(text, pos, i, id, value);
    NumberPositive(NameOf(id));
    EntryValue(text, i, id, value);
    var touched := if id in acc then acc else acc[id := []];
    assert touched[id := value] == acc[id := value];
  }

  /** Reading the members that were written adds exactly those entries. */
  lemma {:induction false} ReadWritten(m: attr_map, keys: set<nat>, text: seq<byte>, pos: nat, i: nat, acc: attr_map)
    requires keys <= m.Keys && JsonNamed(m) && keys != {}
    requires Here(text, i, JsonText(m, keys)) && i + |JsonText(m, keys)| == |text|
    requires i == pos || (i == pos + 1 && text[pos] == ',')
    ensures ReadMembers(text, pos, acc) == Some(acc + Restrict(m, keys))
    decreases |keys|
  {
    hide Entry, NameOf, ReadMembers, Here, IsJsonName, Number;
    var k := Least(keys);
    HereParts(text, i, Entry(k, m[k]), JsonTail(m, keys));
    ReadEntry(text, pos, i, k, m[k], acc);
    var next := i + |Entry(k, m[k])|;
    if keys == {k} {
      NoName(text, acc[k := m[k]]);
      assert acc[k := m[k]] == acc + Restrict(m, keys);
    } else {
      HereParts(text, next, ",", JsonText(m, keys - {k}));
      HereChar(text, next, ',');
      ReadWritten(m, keys - {k}, text, next, next + 1, acc[k := m[k]]);
      assert acc[k := m[k]] + Restrict(m, keys - {k}) == acc + Restrict(m, keys);
    }
  }

  lemma NoName(text: seq<byte>, acc: attr_map)
    ensures ReadMembers(text, |text|, acc) == Some(acc)
  {
  }

  /** Writing a map as JSON and reading it back rebuilds the map, for arbitrary byte values. */
  lemma JsonRoundTrip(m: attr_map)
    requires JsonNamed(m)
    ensures ReadMembers(JsonText(m, m.Keys), 0, map[]) == Some(m)
  {
    hide ReadMembers, JsonNamed;
    var text := JsonText(m, m.Keys);
    if m.Keys == {} {
      assert m == map[];
      NoName(text, map[]);
    } else {
      assert Here(text, 0, text);
      ReadWritten(m, m.Keys, text, 0, 0, map[]);
      assert map[] + Restrict(m, m.Keys) == m;
    }
  }

  // ----- Binary form

  /** Two bytes, lowest first. */
  function Short(n: nat): (s: seq<byte>)
    requires n < 65536
    ensures |s| == 2
  {
    [(n % 256) as char, (n / 256) as char]
  }

  /** The part of a value that its 16-bit length reaches. */
  function Stored(value: seq<byte>): seq<byte> {
    value[..|value| % 65536]
  }

  function Record(id: nat, value: seq<byte>): seq<byte> {
    var name := NameOf(id);
    if name == [] then [] else [|name| as char] + name + Short(|value| % 65536) + Stored(value)
  }

  ghost function Binary(m: attr_map, keys: set<nat>): seq<byte>
    requires keys <= m.Keys
    decreases |keys|
  {
    if keys == {} then [NUL] else
    var k := Least(keys);
    Record(k, m[k]) + Binary(m, keys - {k})
  }

  /** Bytes shifted in from the left, in 64 bits. */
  function Shifted(name: seq<byte>): (id: nat)
    ensures id < TWO64
  {
    if name == [] then 0 else (Shifted(name[..|name| - 1]) * 256 + name[|name| - 1] as int) % TWO64
  }

  /** The record at pos: name number, value and the position after it; None when the text is too short. */
  function ReadRecord(text: seq<byte>, pos: nat): (r: Option<(nat, seq<byte>, nat)>)
    requires pos < |text|
    ensures r.Some? ==> pos < r.value.2 <= |text|
  {
    var start := pos + 1;
    var l := text[pos] as int;
    if start + l + 2 > |text| then None else
    var ll := text[start + l] as int + text[start + l + 1] as int * 256;
    var data := start + l + 2;
    if data + ll > |text| then None else Some((Shifted(text[start..start + l]), text[data..data + ll], data + ll))
  }

  /** The loop that reads records: where it ends, None when a record does not fit the text, and the map by then. */
  function ReadRecords(text: seq<byte>, pos: nat, m: attr_map): (r: (Option<nat>, attr_map))
    requires pos <= |text|
    decreases |text| - pos
  {
    if pos == |text| then (Some(pos), m)
    else if text[pos] == NUL then (Some(pos + 1), m)
    else
      match ReadRecord(text, pos)
      case None => (None, m)
      case Some(r) => ReadRecords(text, r.2, m[r.0 := r.1])
  }

  lemma {:induction false} ShiftedIsNumber(name: seq<byte>)
    requires |name| <= 8 && NoZero(name)
    ensures Shifted(name) == Number(name)
  {
    if name != [] {
      ShiftedIsNumber(name[..|name| - 1]);
      NumberFits(name);
    }
  }

  lemma RecordParts(id: nat, value: seq<byte>)
    requires NameOf(id) != []
    ensures var n := |value| % 65536;
            Record(id, value)
            == [|NameOf(id)| as char] + (NameOf(id) + ([(n % 256) as char] + ([(n / 256) as char] + Stored(value))))
  {
    hide NameOf, Stored;
  }

  /** Where the parts of a record stand. */
  lemma RecordLayout(text: seq<byte>, pos: nat, id: nat, value: seq<byte>)
    requires IsName(NameOf(id)) && Here(text, pos, Record(id, value))
    ensures var l, n := |NameOf(id)|, |value| % 65536;
            && |Record(id, value)| == l + 3 + n && pos + l + 3 + n <= |text|
            && text[pos] as int == l && Here(text, pos + 1, NameOf(id))
            && text[pos + 1 + l] as int == n % 256 && text[pos + 2 + l] as int == n / 256
            && Here(text, pos + 3 + l, Stored(value)) && |Stored(value)| == n
  {
    hide NameOf, Record, Here;
    var name, n, data := NameOf(id), |value| % 65536, Stored(value);
    var lo, hi := (n % 256) as char, (n / 256) as char;
    RecordParts(id, value);
    HereParts(text, pos, [|name| as char], name + ([lo] + ([hi] + data)));
    HereParts(text, pos + 1, name, [lo] + ([hi] + data));
    HereParts(text, pos + 1 + |name|, [lo], [hi] + data);
    HereParts(text, pos + 2 + |name|, [hi], data);
    HereChar(text, pos, |name| as char);
    HereChar(text, pos + 1 + |name|, lo);
    HereChar(text, pos + 2 + |name|, hi);
    HereInside(text, pos + 3 + |name|, data);
  }

  /** One record is read as its entry. */
  lemma RecordRead(text: seq<byte>, pos: nat, id: nat, value: seq<byte>, acc: attr_map)
    requires IsName(NameOf(id)) && Number(NameOf(id)) == id && Here(text, pos, Record(id, value))
    ensures pos + |Record(id, value)| <= |text|
    ensures ReadRecords(text, pos, acc) == ReadRecords(text, pos + |Record(id, value)|, acc[id := Stored(value)])
  {
    hide NameOf, Record, Stored, Shifted;
    RecordLayout(text, pos, id, value);
    ShiftedIsNumber(NameOf(id));
    var n := |value| % 65536;
    assert n % 256 + n / 256 * 256 == n;
  }

  /** m with every value cut to what its 16-bit length reaches. */
  function Clipped(m: attr_map, keys: set<nat>): attr_map {
    map id | id in m && id in keys :: Stored(m[id])
  }

  lemma {:induction false} ReadBinary(m: attr_map, keys: set<nat>, text: seq<byte>, pos: nat, acc: attr_map)
    requires keys <= m.Keys && Named(m) && Here(text, pos, Binary(m, keys))
    ensures ReadRecords(text, pos, acc) == (Some(pos + |Binary(m, keys)|), acc + Clipped(m, keys))
    decreases |keys|
  {
    hide Record, NameOf, Stored, ReadRecords, IsName, Number, Here;
    if keys == {} {
      ReadEnd(text, pos, acc);
      assert acc + Clipped(m, keys) == acc;
    } else {
      var k := Least(keys);
      HereParts(text, pos, Record(k, m[k]), Binary(m, keys - {k}));
      RecordRead(text, pos, k, m[k], acc);
      ReadBinary(m, keys - {k}, text, pos + |Record(k, m[k])|, acc[k := Stored(m[k])]);
      assert acc[k := Stored(m[k])] + Clipped(m, keys - {k}) == acc + Clipped(m, keys);
    }
  }

  lemma ReadEnd(text: seq<byte>, pos: nat, acc: attr_map)
    requires Here(text, pos, [NUL])
    ensures ReadRecords(text, pos, acc) == (Some(pos + 1), acc)
  {
    TokenRest(text, pos, [NUL]);
  }

  lemma ClippedSame(m: attr_map)
    ensures Clipped(m, m.Keys) == m <==> forall id :: id in m ==> |m[id]| <= 65535
  {
    var r := Clipped(m, m.Keys);
    assert forall id :: id in m ==> id in r && (Stored(m[id]) == m[id] <==> |m[id]| <= 65535);
    if r == m {
      forall id | id in m
        ensures |m[id]| <= 65535
      {
        assert r[id] == Stored(m[id]);
      }
    }
  }

  /** Reading the binary form stops right after its terminator, whatever follows, and rebuilds the map
      exactly when every value is at most 65535 bytes long. */
  lemma BinaryRoundTrip(m: attr_map, rest: seq<byte>)
    requires Named(m)
    ensures var r := ReadRecords(Binary(m, m.Keys) + rest, 0, map[]);
            && r.0 == Some(|Binary(m, m.Keys)|)
            && (r.1 == m <==> forall id :: id in m ==> |m[id]| <= 65535)
  {
    hide ReadRecords, Clipped, Binary, Named;
    var text := Binary(m, m.Keys) + rest;
    assert Here(text, 0, Binary(m, m.Keys));
    ReadBinary(m, m.Keys, text, 0, map[]);
    ClippedSame(m);
    assert map[] + Clipped(m, m.Keys) == Clipped(m, m.Keys);
  }

  // ----- The object

  predicate NeedsEscape(b: byte) {
    b < ' ' || b == QUOTE || b == BACKSLASH
  }

  lemma {:induction false} PlainIsEscaped(s: seq<byte>)
    requires forall k :: 0 <= k < |s| ==> !NeedsEscape(s[k])
    ensures Escape(s) == s
  {
    if s != [] {
      PlainIsEscaped(s[1..]);
    }
  }

  /** Copies runs of plain bytes at once and escapes the bytes between them. */
  method AppendEscaped(s: seq<byte>, value: seq<byte>) returns (r: seq<byte>)
    ensures r == s + Escape(value)
  {
    hide EscapeByte, Escape, NeedsEscape;
    assert Escape(value[..0]) == [] by { EscapeNothing(); }
    r := s;
    var run := 0;
    for i := 0 to |value|
      invariant run <= i
      invariant r == s + Escape(value[..run])
      invariant forall k :: run <= k < i ==> !NeedsEscape(value[k])
    {
      if NeedsEscape(value[i]) {
        RunThenByte(value, run, i);
        r := r + value[run..i];
        r := r + EscapeByte(value[i]);
        run := i + 1;
      }
    }
    PlainIsEscaped(value[run..]);
    EscapeConcat(value[..run], value[run..]);
    assert value[..run] + value[run..] == value;
    r := r + value[run..];
  }

  lemma RunThenByte(value: seq<byte>, run: nat, i: nat)
    requires run <= i < |value| && forall k :: run <= k < i ==> !NeedsEscape(value[k])
    ensures Escape(value[..i + 1]) == Escape(value[..run]) + value[run..i] + EscapeByte(value[i])
  {
    hide EscapeByte;
    assert value[..i + 1] == value[..run] + (value[run..i] + [value[i]]);
    EscapeConcat(value[..run], value[run..i] + [value[i]]);
    EscapeConcat(value[run..i], [value[i]]);
    PlainIsEscaped(value[run..i]);
    assert Escape([value[i]]) == EscapeByte(value[i]) + Escape([value[i]][1..]);
  }

  function Separator(between: bool): seq<byte> {
    if between then "," else []
  }

  lemma JsonTextEmpty(m: attr_map)
    ensures JsonText(m, {}) == []
  {
  }

  lemma JsonTextNext(m: attr_map, keys: set<nat>)
    requires keys <= m.Keys && keys != {}
    ensures Least(keys) in keys
    ensures var k := Least(keys);
            JsonText(m, keys) == Entry(k, m[k]) + Separator(keys - {k} != {}) + JsonText(m, keys - {k})
  {
    hide Entry, Least;
    var k := Least(keys);
    if keys - {k} == {} {
      assert keys == {k};
    }
  }

  class AttrMap {
    var attrs: attr_map

    constructor (m: attr_map)
      ensures attrs == m
    {
      attrs := m;
    }

    /** The members in the order of their numbers, separated by commas. */
    method GetJson() returns (s: seq<byte>)
      ensures s == JsonText(attrs, attrs.Keys)
    {
      hide Entry, JsonText, Least;
      s := [];
      var rest := attrs.Keys;
      JsonTextEmpty(attrs);
      while rest != {}
        invariant rest <= attrs.Keys && (s == [] ==> rest == attrs.Keys)
        invariant JsonText(attrs, attrs.Keys) == s + Separator(s != [] && rest != {}) + JsonText(attrs, rest)
        decreases |rest|
      {
        LeastExists(rest);
        var k :| IsLeast(k, rest);
        LeastUnique(rest, k);
        JsonTextNext(attrs, rest);
        var entry := WriteEntry(k, attrs[k]);
        ghost var tail := JsonText(attrs, rest - {k});
        ghost var more := rest - {k} != {};
        assert s + Separator(s != []) + (entry + Separator(more) + tail)
            == s + Separator(s != []) + entry + Separator(more) + tail;
        s := s + Separator(s != []) + entry;
        rest := rest - {k};
      }
    }

    static method WriteEntry(id: nat, value: seq<byte>) returns (s: seq<byte>)
      ensures s == Entry(id, value) && s != []
    {
      s := "\"";
      if id != 0 {
        var name := NameIdToString(id);
        s := AppendEscaped(s + name + "\":\"", value);
        s := s + "\"";
      }
    }

    /** Adds the members that the text holds. */
    method FromJson(text: seq<byte>) returns (ok: bool)
      modifies this
      ensures var r := ReadMembers(text, 0, old(attrs));
              if ok then r == Some(attrs) else r == None
    {
      hide GetName, Store, Unescape;
      var json := new JSON(text);
      while true
        invariant fresh(json) && json.text == text && json.pos <= |text|
        invariant ReadMembers(text, json.pos, attrs) == ReadMembers(text, 0, old(attrs))
        decreases |text| - json.pos
      {
        var name := json.GetNameId();
        if name.None? {
          return false;
        }
        if name.value == 0 {
          return true;
        }
        if name.value !in attrs {
          attrs := attrs[name.value := []];
        }
        var stored, value := json.StoreObject();
        if !stored {
          return true;
        }
        value := UnescapeInPlace(value);
        attrs := attrs[name.value := value];
      }
    }

    /** One record per attribute, in the order of their numbers, then a zero byte. */
    method Serialize() returns (d: seq<byte>)
      ensures d == Binary(attrs, attrs.Keys)
    {
      hide Record;
      d := [];
      var rest := attrs.Keys;
      while rest != {}
        invariant rest <= attrs.Keys
        invariant Binary(attrs, attrs.Keys) == d + Binary(attrs, rest)
        decreases |rest|
      {
        LeastExists(rest);
        var k :| IsLeast(k, rest);
        LeastUnique(rest, k);
        var record := WriteRecord(k, attrs[k]);
        d := d + record;
        rest := rest - {k};
      }
      d := d + [NUL];
    }

    static method WriteRecord(id: nat, value: seq<byte>) returns (d: seq<byte>)
      ensures d == Record(id, value)
    {
      var name := NameIdToString(id);
      if name == [] {
        return [];
      }
      var ll := |value| % 65536;
      return [|name| as char] + name + Short(ll) + value[..ll];
    }

    /** Adds the records found from the start of the text; answers the position after the terminator. */
    method Unserialize(text: seq<byte>) returns (end: Option<nat>)
      modifies this
      ensures (end, attrs) == ReadRecords(text, 0, old(attrs))
    {
      hide ReadRecord;
      var ptr := 0;
      while ptr < |text| && text[ptr] != NUL
        invariant 0 <= ptr <= |text|
        invariant ReadRecords(text, ptr, attrs) == ReadRecords(text, 0, old(attrs))
      {
        var r := TakeRecord(text, ptr);
        if r.None? {
          return None;
        }
        attrs := attrs[r.value.0 := r.value.1];
        ptr := r.value.2;
      }
      return Some(if ptr < |text| then ptr + 1 else ptr);
    }

    static method TakeRecord(text: seq<byte>, ptr: nat) returns (r: Option<(nat, seq<byte>, nat)>)
      requires ptr < |text|
      ensures r == ReadRecord(text, ptr)
    {
      hide Shifted;
      var l := text[ptr] as int;
      var start := ptr + 1;
      if start + l + 2 > |text| {
        return None;
      }
      var id := ShiftBytes(text[start..start + l]);
      var ll := text[start + l] as int + text[start + l + 1] as int * 256;
      var data := start + l + 2;
      if data + ll > |text| {
        return None;
      }
      return Some((id, text[data..data + ll], data + ll));
    }

    static method ShiftBytes(name: seq<byte>) returns (id: nat)
      ensures id == Shifted(name)
    {
      id := 0;
      for i := 0 to |name|
        invariant id == Shifted(name[..i])
      {
        assert name[..i + 1][..i] == name[..i];
        id := (id * 256 + name[i] as int) % TWO64;
      }
      assert name[..|name|] == name;
    }
  }

  // ----- The formats themselves

  /** The bytes of a record: the length of the name, the name, two bytes of length, the lower first, and the value. */
  lemma RecordIs(id: nat, value: seq<byte>)
    requires NameOf(id) != []
    ensures var r, n := Record(id, value), |NameOf(id)|;
            && |r| == 1 + n + 2 + |value| % 65536 && r[0] as int == n && r[1..1 + n] == NameOf(id)
            && r[1 + n] as int + 256 * r[2 + n] as int == |value| % 65536 && r[3 + n..] == value[..|value| % 65536]
  {
    hide NameOf;
  }

  /** The first character of a name is the highest byte of its number. */
  lemma {:induction false} NumberIs(c: byte, rest: seq<byte>)
    ensures Number([c] + rest) == c as int * Pow256(|rest|) + Number(rest)
  {
    var name := [c] + rest;
    if rest == [] {
      assert name[..0] == [];
    } else {
      var init := rest[..|rest| - 1];
      assert name[..|name| - 1] == [c] + init;
      NumberIs(c, init);
      assert c as int * Pow256(|rest|) == c as int * Pow256(|init|) * 256;
    }
  }
}
