/** Timestamps in file names: six groups of digits, an optional fraction of a second and an optional time zone. */
module Timestamps {
  import opened Wrappers
  import opened Machine
  import opened Decimals
  import opened Calendar

  // ----- Reading

  /** The next digit at or after pos. */
  function SkipTo(s: string, pos: nat): (p: nat)
    requires pos <= |s|
    ensures pos <= p <= |s| && (p < |s| ==> IsDigit(s[p])) && forall i :: pos <= i < p ==> !IsDigit(s[i])
    decreases |s| - pos
  {
    if pos < |s| && !IsDigit(s[pos]) then SkipTo(s, pos + 1) else pos
  }

  /** The number of n digits in a row, after anything that is no digit, and the position after them. */
  function ReadDigits(s: string, pos: nat, n: nat): (r: Option<(nat, nat)>)
    requires pos <= |s|
    ensures r.Some? ==> pos <= r.value.1 <= |s|
  {
    var p := SkipTo(s, pos);
    if p + n <= |s| && AllDigits(s[p..p + n]) then Some((Value(s[p..p + n]), p + n)) else None
  }

  /** Numbers of the given widths, one after the other. */
  function ReadGroups(s: string, pos: nat, widths: seq<nat>): (r: Option<(seq<nat>, nat)>)
    requires pos <= |s|
    ensures r.Some? ==> |r.value.0| == |widths| && pos <= r.value.1 <= |s|
    decreases |widths|
  {
    if widths == [] then Some(([], pos))
    else
      match ReadDigits(s, pos, widths[0])
      case None => None
      case Some(first) =>
        match ReadGroups(s, first.1, widths[1..])
        case None => None
        case Some(rest) => Some(([first.0] + rest.0, rest.1))
  }

  const WIDTHS: seq<nat> := [4, 2, 2, 2, 2, 2]

  /** The end of the digits that start at i. */
  function DigitsEnd(s: string, i: nat): (e: nat)
    requires i <= |s|
    ensures i <= e <= |s| && AllDigits(s[i..e]) && (e < |s| ==> !IsDigit(s[e]))
    decreases |s| - i
  {
    if i < |s| && IsDigit(s[i]) then
      var e := DigitsEnd(s, i + 1);
      assert s[i..e] == [s[i]] + s[i + 1..e];
      e
    else i
  }

  /** Up to three digits as thousandths. */
  function Thousandths(digits: string): (ms: nat)
    requires AllDigits(digits) && |digits| <= 3
  {
    Value(digits) * (if |digits| == 0 then 1000 else if |digits| == 1 then 100 else if |digits| == 2 then 10 else 1)
  }

  /** Milliseconds of a fraction at i, and the position after it. */
  function Fraction(s: string, i: nat): (r: (nat, nat))
    requires i <= |s|
    ensures i <= r.1 <= |s|
  {
    if i + 1 < |s| && (s[i] == '.' || s[i] == '_') && IsDigit(s[i + 1]) then
      var e := DigitsEnd(s, i + 1);
      var n := Min(e - (i + 1), 3);
      FirstDigits(s, i + 1, e, n);
      (Thousandths(s[i + 1..i + 1 + n]), e)
    else (0, i)
  }

  /** An offset in minutes: quarters of an hour, up to 14 hours. */
  predicate IsZone(tz: int) {
    -840 <= tz <= 840 && tz % 15 == 0
  }

  /** Minutes of a zone of the form HHMM. */
  function ZoneMinutes(hhmm: nat): (m: Option<nat>)
    ensures m.Some? ==> m.value <= 840 && m.value % 15 == 0
  {
    var hh, mm := hhmm / 100, hhmm % 100;
    if hh > 14 || (mm != 0 && mm != 15 && mm != 30 && mm != 45) || (hh == 14 && mm != 0) then None
    else Some(hh * 60 + mm)
  }

  /** The offset of the zone whose sign is at i; 0 when it is none. */
  function ZoneAt(s: string, i: nat): (tz: int)
    requires i < |s|
    ensures IsZone(tz)
  {
    if i + 5 > |s| || !AllDigits(s[i + 1..i + 5]) then 0
    else
      match ZoneMinutes(Value(s[i + 1..i + 5]))
      case None => 0
      case Some(m) => if s[i] == '-' then 0 - m as int else m
  }

  /** The offset of the first sign before the limit. */
  function Zone(s: string, i: nat, limit: nat): (tz: int)
    requires i <= limit <= |s|
    ensures IsZone(tz)
    decreases limit - i
  {
    if i == limit then 0
    else if s[i] == '+' || s[i] == '-' then ZoneAt(s, i)
    else Zone(s, i + 1, limit)
  }

  function TimeOf(v: seq<nat>, ms: nat): Time
    requires |v| == 6
  {
    Time(Date(v[0], v[1], v[2]), v[3], v[4], v[5], ms)
  }

  predicate InRange(t: Time) {
    ValidTime(t) && t.date.y <= 9999
  }

  /** Milliseconds since 1970 in a zone; 0 stands for no result. */
  function Adjusted(t: Time, tz: int): nat
    requires ValidTime(t)
  {
    var utc := Millis(t);
    if utc == 0 || utc - tz * 60000 <= 0 then 0 else utc - tz * 60000
  }

  /** The timestamp of a name without its extension; 0 when it has none. */
  function Extract(stem: string): nat {
    if |stem| < 14 then 0
    else
      match ReadGroups(stem, 0, WIDTHS)
      case None => 0
      case Some(r) =>
        if !InRange(TimeOf(r.0, 0)) then 0
        else
          var (ms, i) := Fraction(stem, r.1);
          FractionRange(stem, r.1);
          Adjusted(TimeOf(r.0, ms), Zone(stem, i, Min(i + 6, |stem|)))
  }

  lemma ThousandthsRange(digits: string)
    requires AllDigits(digits) && 0 < |digits| <= 3
    ensures Thousandths(digits) <= 999
  {
    ValueBelow(digits);
    assert Tens(1) == 10 && Tens(2) == 100 && Tens(3) == 1000;
  }

  function Tens(n: nat): nat {
    if n == 0 then 1 else 10 * Tens(n - 1)
  }

  lemma {:induction false} ValueBelow(s: string)
    requires AllDigits(s)
    ensures Value(s) < Tens(|s|)
  {
    if s != "" {
      ValueBelow(s[..|s| - 1]);
    }
  }

  lemma FractionRange(s: string, i: nat)
    requires i <= |s|
    ensures Fraction(s, i).0 <= 999
  {
    if i + 1 < |s| && (s[i] == '.' || s[i] == '_') && IsDigit(s[i + 1]) {
      var e := DigitsEnd(s, i + 1);
      var n := Min(e - (i + 1), 3);
      FirstDigits(s, i + 1, e, n);
      ThousandthsRange(s[i + 1..i + 1 + n]);
    }
  }

  /** Every answer but 0 is the time of a valid date in a zone of up to 14 hours. */
  lemma ExtractMeans(stem: string)
    ensures Extract(stem) > 0 ==>
              exists t: Time, tz: int :: InRange(t) && IsZone(tz) && Extract(stem) == Millis(t) - tz * 60000
  {
    hide Zone, Fraction, ReadGroups, Millis;
    if Extract(stem) > 0 {
      var r := ReadGroups(stem, 0, WIDTHS).value;
      var (ms, i) := Fraction(stem, r.1);
      FractionRange(stem, r.1);
      var t, tz := TimeOf(r.0, ms), Zone(stem, i, Min(i + 6, |stem|));
      assert InRange(t) && IsZone(tz) && Extract(stem) == Millis(t) - tz * 60000;
    }
  }

  // ----- The loops

  lemma ValueGrows(s: string, p: nat, i: nat)
    requires p + i < |s| && AllDigits(s[p..p + i]) && IsDigit(s[p + i])
    ensures AllDigits(s[p..p + i + 1]) && Value(s[p..p + i + 1]) == 10 * Value(s[p..p + i]) + (s[p + i] - '0') as nat
  {
    var t := s[p..p + i + 1];
    assert t[..|t| - 1] == s[p..p + i];
  }

  /** Exactly n digits at p as a number. */
  method GetNumber(s: string, p: nat, n: nat) returns (r: Option<nat>)
    requires p + n <= |s|
    ensures r == if AllDigits(s[p..p + n]) then Some(Value(s[p..p + n])) else None
  {
    var val := 0;
    for i := 0 to n
      invariant AllDigits(s[p..p + i]) && val == Value(s[p..p + i])
    {
      if !IsDigit(s[p + i]) {
        assert !IsDigit(s[p..p + n][i]);
        return None;
      }
      ValueGrows(s, p, i);
      val := 10 * val + (s[p + i] - '0') as nat;
    }
    return Some(val);
  }

  method GetDigits(s: string, start: nat, n: nat) returns (r: Option<nat>, pos: nat)
    requires start <= |s|
    ensures start <= pos <= |s|
    ensures (if r.Some? then Some((r.value, pos)) else None) == ReadDigits(s, start, n)
  {
    pos := start;
    while pos < |s| && !IsDigit(s[pos])
      invariant start <= pos <= |s| && SkipTo(s, start) == SkipTo(s, pos)
    {
      pos := pos + 1;
    }
    if pos + n > |s| {
      return None, pos;
    }
    r := GetNumber(s, pos, n);
    if r.Some? {
      pos := pos + n;
    }
  }

  method GetGroups(s: string) returns (r: Option<seq<nat>>, pos: nat)
    ensures pos <= |s|
    ensures (if r.Some? then Some((r.value, pos)) else None) == ReadGroups(s, 0, WIDTHS)
  {
    hide ReadDigits;
    var v: seq<nat> := [];
    pos := 0;
    assert WIDTHS[0..] == WIDTHS;
    PrependNone(ReadGroups(s, 0, WIDTHS));
    for k := 0 to |WIDTHS|
      invariant |v| == k && pos <= |s|
      invariant ReadGroups(s, 0, WIDTHS) == Prepend(v, ReadGroups(s, pos, WIDTHS[k..]))
    {
      var n: Option<nat>;
      n, pos := GetDigits(s, pos, WIDTHS[k]);
      assert WIDTHS[k..][0] == WIDTHS[k] && WIDTHS[k..][1..] == WIDTHS[k + 1..];
      if n.None? {
        return None, pos;
      }
      PrependMore(v, n.value, ReadGroups(s, pos, WIDTHS[k + 1..]));
      v := v + [n.value];
    }
    assert WIDTHS[|WIDTHS|..] == [] && v + [] == v;
    return Some(v), pos;
  }

  function Prepend(v: seq<nat>, r: Option<(seq<nat>, nat)>): Option<(seq<nat>, nat)> {
    match r
    case None => None
    case Some(p) => Some((v + p.0, p.1))
  }

  lemma PrependNone(r: Option<(seq<nat>, nat)>)
    ensures Prepend([], r) == r
  {
    if r.Some? {
      assert [] + r.value.0 == r.value.0;
    }
  }

  lemma PrependMore(v: seq<nat>, n: nat, r: Option<(seq<nat>, nat)>)
    ensures Prepend(v + [n], r) == Prepend(v, Prepend([n], r))
  {
    if r.Some? {
      assert v + [n] + r.value.0 == v + ([n] + r.value.0);
    }
  }

  /** Up to three digits at p, padded to thousandths. */
  method GetThousandths(s: string, p: nat, n: nat) returns (ms: nat)
    requires 0 < n <= 3 && p + n <= |s| && AllDigits(s[p..p + n])
    ensures ms == Thousandths(s[p..p + n])
  {
    var number := GetNumber(s, p, n);
    ms := number.value;
    for f := n to 3
      invariant ms == number.value * Pads(f - n)
    {
      ms := 10 * ms;
    }
  }

  function Pads(n: nat): nat {
    if n == 0 then 1 else if n == 1 then 10 else 100
  }

  method GetFraction(s: string, i: nat) returns (ms: nat, pos: nat)
    requires i <= |s|
    ensures (ms, pos) == Fraction(s, i)
  {
    hide Thousandths, AllDigits;
    ms, pos := 0, i;
    if i + 1 < |s| && (s[i] == '.' || s[i] == '_') && IsDigit(s[i + 1]) {
      pos := i + 1;
      while pos < |s| && IsDigit(s[pos])
        invariant i + 1 <= pos <= |s| && DigitsEnd(s, i + 1) == DigitsEnd(s, pos)
      {
        pos := pos + 1;
      }
      var n := Min(pos - (i + 1), 3);
      FirstDigits(s, i + 1, pos, n);
      ms := GetThousandths(s, i + 1, n);
    }
  }

  lemma FirstDigits(s: string, p: nat, e: nat, n: nat)
    requires p + n <= e <= |s| && AllDigits(s[p..e])
    ensures AllDigits(s[p..p + n])
  {
    var front, all := s[p..p + n], s[p..e];
    assert forall k :: 0 <= k < |front| ==> front[k] == all[k];
  }

  method GetZone(s: string, start: nat) returns (tz: int)
    requires start <= |s|
    ensures tz == Zone(s, start, Min(start + 6, |s|))
  {
    var limit := Min(start + 6, |s|);
    var i := start;
    while i < limit
      invariant start <= i <= limit && Zone(s, start, limit) == Zone(s, i, limit)
    {
      if s[i] == '+' || s[i] == '-' {
        if i + 5 > |s| {
          return 0;
        }
        var hhmm := GetNumber(s, i + 1, 4);
        if hhmm.None? || ZoneMinutes(hhmm.value).None? {
          return 0;
        }
        tz := ZoneMinutes(hhmm.value).value;
        return if s[i] == '-' then -tz else tz;
      }
      i := i + 1;
    }
    return 0;
  }

  /** The extraction as the code runs it. */
  method ExtractTs(stem: string) returns (ts: nat)
    ensures ts == Extract(stem)
  {
    hide ReadGroups, Fraction, Zone, Millis;
    if |stem| < 14 {
      return 0;
    }
    var v, end := GetGroups(stem);
    if v.None? || !InRange(TimeOf(v.value, 0)) {
      return 0;
    }
    FractionRange(stem, end);
    var ms, i := GetFraction(stem, end);
    var tz := GetZone(stem, i);
    var utc := ToEpochMs(TimeOf(v.value, ms));
    if utc == 0 || utc - tz * 60000 <= 0 {
      return 0;
    }
    return utc - tz * 60000;
  }

  // ----- Every printed time is found

  /** A number with leading zeros. */
  function Padded(n: nat, width: nat): (s: string)
    ensures |s| == width && AllDigits(s)
  {
    if width == 0 then "" else Padded(n / 10, width - 1) + ['0' + (n % 10) as char]
  }

  lemma {:induction false} PaddedValue(n: nat, width: nat)
    requires n < Tens(width)
    ensures Value(Padded(n, width)) == n
  {
    if width > 0 {
      PaddedValue(n / 10, width - 1);
      var s := Padded(n, width);
      assert s[..width - 1] == Padded(n / 10, width - 1);
    }
  }

  predicate NoDigits(s: string) {
    forall i :: 0 <= i < |s| ==> !IsDigit(s[i])
  }

  /** Numbers of the given widths, each behind a separator. */
  function PrintGroups(seps: seq<string>, v: seq<nat>, widths: seq<nat>): string
    requires |seps| == |v| == |widths|
  {
    if v == [] then "" else seps[0] + Padded(v[0], widths[0]) + PrintGroups(seps[1..], v[1..], widths[1..])
  }

  ghost predicate Printable(seps: seq<string>, v: seq<nat>, widths: seq<nat>) {
    && |seps| == |v| == |widths|
    && forall i :: 0 <= i < |v| ==> NoDigits(seps[i]) && widths[i] > 0 && v[i] < Tens(widths[i])
  }

  /** t stands in s at pos. */
  predicate StandsAt(s: string, pos: nat, t: string) {
    pos + |t| <= |s| && s[pos..pos + |t|] == t
  }

  lemma StandsParts(s: string, pos: nat, a: string, b: string)
    requires StandsAt(s, pos, a + b)
    ensures StandsAt(s, pos, a) && StandsAt(s, pos + |a|, b)
  {
    assert s[pos..pos + |a|] == s[pos..pos + |a + b|][..|a|];
    assert s[pos + |a|..pos + |a + b|] == s[pos..pos + |a + b|][|a|..];
  }

  lemma {:induction false} SkipToIs(s: string, pos: nat, p: nat)
    requires pos <= p < |s| && IsDigit(s[p]) && forall i :: pos <= i < p ==> !IsDigit(s[i])
    ensures SkipTo(s, pos) == p
    decreases p - pos
  {
    if pos < p {
      SkipToIs(s, pos + 1, p);
    }
  }

  lemma ReadPadded(s: string, pos: nat, sep: string, n: nat, width: nat)
    requires NoDigits(sep) && width > 0 && n < Tens(width)
    requires StandsAt(s, pos, sep) && StandsAt(s, pos + |sep|, Padded(n, width))
    ensures ReadDigits(s, pos, width) == Some((n, pos + |sep| + width))
  {
    hide Padded;
    var p := pos + |sep|;
    var digits := Padded(n, width);
    assert forall i :: pos <= i < p ==> s[i] == s[pos..p][i - pos];
    assert s[p] == s[p..p + width][0];
    SkipToIs(s, pos, p);
    PaddedValue(n, width);
  }

  lemma {:induction false} ReadPrinted(s: string, pos: nat, seps: seq<string>, v: seq<nat>, widths: seq<nat>)
    requires Printable(seps, v, widths) && StandsAt(s, pos, PrintGroups(seps, v, widths))
    ensures ReadGroups(s, pos, widths) == Some((v, pos + |PrintGroups(seps, v, widths)|))
    decreases |v|
  {
    hide ReadDigits, Padded, StandsAt, NoDigits, Tens;
    StandsInside(s, pos, PrintGroups(seps, v, widths));
    if v != [] {
      var rest := PrintGroups(seps[1..], v[1..], widths[1..]);
      var digits := Padded(v[0], widths[0]);
      StandsParts(s, pos, seps[0] + digits, rest);
      StandsParts(s, pos, seps[0], digits);
      ReadPadded(s, pos, seps[0], v[0], widths[0]);
      ReadPrinted(s, pos + |seps[0]| + widths[0], seps[1..], v[1..], widths[1..]);
      assert [v[0]] + v[1..] == v;
    }
  }

  lemma StandsInside(s: string, pos: nat, t: string)
    requires StandsAt(s, pos, t)
    ensures pos + |t| <= |s|
  {
  }

  /** The fields of a time, before its milliseconds. */
  function FieldsOf(t: Time): seq<nat>
    requires ValidTime(t)
  {
    [t.date.y, t.date.mo, t.date.d, t.h, t.mi, t.sec]
  }

  function ZoneText(tz: int): string
    requires IsZone(tz)
  {
    var m := if tz < 0 then -tz else tz;
    [if tz < 0 then '-' else '+'] + Padded(m / 60 * 100 + m % 60, 4)
  }

  /** A time as names have it: the fields with any separators, the milliseconds behind a dot, and a zone if there is
      one. */
  function Stem(seps: seq<string>, t: Time, zone: Option<int>): string
    requires |seps| == 6 && ValidTime(t) && (zone.Some? ==> IsZone(zone.value))
  {
    PrintGroups(seps, FieldsOf(t), WIDTHS) + ("." + Padded(t.ms, 3) + Suffix(zone))
  }

  function Suffix(zone: Option<int>): string
    requires zone.Some? ==> IsZone(zone.value)
  {
    match zone
    case None => ""
    case Some(tz) => ZoneText(tz)
  }

  function Offset(zone: Option<int>): int {
    match zone
    case None => 0
    case Some(tz) => tz
  }

  lemma FieldsPrintable(seps: seq<string>, t: Time)
    requires |seps| == 6 && InRange(t) && forall i :: 0 <= i < 6 ==> NoDigits(seps[i])
    ensures Printable(seps, FieldsOf(t), WIDTHS)
  {
    assert Tens(2) == 100 && Tens(4) == 100 * Tens(2);
  }

  lemma {:induction false} DigitsEndIs(s: string, i: nat, e: nat)
    requires i <= e <= |s| && (forall k :: i <= k < e ==> IsDigit(s[k])) && (e < |s| ==> !IsDigit(s[e]))
    ensures DigitsEnd(s, i) == e
    decreases e - i
  {
    if i < e {
      DigitsEndIs(s, i + 1, e);
    }
  }

  lemma FractionPrinted(s: string, i: nat, ms: nat, suffix: string)
    requires i <= |s| && s[i..] == "." + Padded(ms, 3) + suffix && ms <= 999 && (suffix != "" ==> !IsDigit(suffix[0]))
    ensures Fraction(s, i) == (ms, i + 4) && i + 4 <= |s| && s[i + 4..] == suffix
  {
    hide Padded;
    var digits := Padded(ms, 3);
    var rest := s[i..];
    assert rest[0] == '.' && rest[1..4] == digits && rest[4..] == suffix;
    assert s[i + 1..i + 4] == digits && s[i + 4..] == suffix;
    assert forall k :: i + 1 <= k < i + 4 ==> s[k] == digits[k - i - 1];
    DigitsEndIs(s, i + 1, i + 4);
    assert Tens(3) == 1000;
    PaddedValue(ms, 3);
  }

  lemma ZonePrinted(s: string, i: nat, zone: Option<int>)
    requires (zone.Some? ==> IsZone(zone.value)) && i <= |s| && s[i..] == Suffix(zone)
    ensures Zone(s, i, Min(i + 6, |s|)) == Offset(zone)
  {
    hide Padded;
    if zone.Some? {
      var tz := zone.value;
      var m := if tz < 0 then -tz else tz;
      var hhmm := m / 60 * 100 + m % 60;
      assert s[i..][0] == s[i] && s[i..][1..] == s[i + 1..i + 5];
      ZoneBack(m);
      PaddedValue(hhmm, 4);
    }
  }

  lemma ZoneBack(m: nat)
    requires m <= 840 && m % 15 == 0
    ensures var hhmm := m / 60 * 100 + m % 60; hhmm < Tens(4) && ZoneMinutes(hhmm) == Some(m)
  {
    var h, r := m / 60, m % 60;
    assert m == 60 * h + r && (r == 0 || r == 15 || r == 30 || r == 45) by { Quarters(m, h, r); }
    assert (h * 100 + r) / 100 == h && (h * 100 + r) % 100 == r;
    assert Tens(2) == 100 && Tens(4) == 100 * Tens(2);
  }

  lemma Quarters(m: nat, h: nat, r: nat)
    requires m % 15 == 0 && h == m / 60 && r == m % 60
    ensures r == 0 || r == 15 || r == 30 || r == 45
  {
    var q := m / 15;
    assert m == 15 * q && m == 60 * h + r;
    assert r == 15 * (q - 4 * h);
  }

  /** Every time from 1970 to 9999, printed with any separators and any zone, is found in its name. */
  lemma PrintedExtracted(seps: seq<string>, t: Time, zone: Option<int>)
    requires |seps| == 6 && InRange(t) && (zone.Some? ==> IsZone(zone.value))
    requires forall i :: 0 <= i < 6 ==> NoDigits(seps[i])
    ensures Extract(Stem(seps, t, zone)) == Adjusted(t, Offset(zone))
  {
    hide ReadGroups, PrintGroups, Fraction, Zone, Padded, Adjusted, Suffix, NoDigits;
    var v := FieldsOf(t);
    var front := PrintGroups(seps, v, WIDTHS);
    var back := "." + Padded(t.ms, 3) + Suffix(zone);
    var s := Stem(seps, t, zone);
    FieldsPrintable(seps, t);
    assert s[0..|front|] == front && s[|front|..] == back;
    ReadPrinted(s, 0, seps, v, WIDTHS);
    LongEnough(seps, v);
    SuffixStart(zone);
    FractionPrinted(s, |front|, t.ms, Suffix(zone));
    ZonePrinted(s, |front| + 4, zone);
    assert TimeOf(v, t.ms) == t && TimeOf(v, 0) == t.(ms := 0);
  }

  lemma SuffixStart(zone: Option<int>)
    requires zone.Some? ==> IsZone(zone.value)
    ensures Suffix(zone) != "" ==> !IsDigit(Suffix(zone)[0])
  {
  }

  lemma LongEnough(seps: seq<string>, v: seq<nat>)
    requires |seps| == 6 == |v|
    ensures |PrintGroups(seps, v, WIDTHS)| >= 14
  {
    hide Padded;
    GroupsLength(seps, v, WIDTHS);
    assert Total(WIDTHS) == 14 by {
      assert WIDTHS[1..] == [2, 2, 2, 2, 2] && WIDTHS[1..][1..] == [2, 2, 2, 2];
      assert Total([2, 2, 2, 2]) == 8;
    }
  }

  function Total(widths: seq<nat>): nat {
    if widths == [] then 0 else widths[0] + Total(widths[1..])
  }

  lemma {:induction false} GroupsLength(seps: seq<string>, v: seq<nat>, widths: seq<nat>)
    requires |seps| == |v| == |widths|
    ensures |PrintGroups(seps, v, widths)| >= Total(widths)
    decreases |v|
  {
    hide Padded;
    if v != [] {
      GroupsLength(seps[1..], v[1..], widths[1..]);
    }
  }

  // ----- Any fraction, and the window for a zone

  lemma ValueLast(d: string)
    requires AllDigits(d) && d != ""
    ensures AllDigits(d[..|d| - 1]) && Value(d) == 10 * Value(d[..|d| - 1]) + (d[|d| - 1] - '0') as nat
  {
  }

  lemma Carry(a: nat, t: nat, b: nat, x: nat)
    ensures 10 * (a * t + b) + x == a * (10 * t) + (10 * b + x)
  {
    assert a * (10 * t) == 10 * (a * t);
  }

  lemma {:induction false} ValueSplit(d: string, k: nat)
    requires AllDigits(d) && k <= |d|
    ensures AllDigits(d[..k]) && AllDigits(d[k..]) && Value(d) == Value(d[..k]) * Tens(|d| - k) + Value(d[k..])
    decreases |d| - k
  {
    hide Value;
    if k == |d| {
      assert d[..k] == d && d[k..] == "";
      assert Value("") == 0 by { ValueNone(); }
    } else {
      var n := |d| - 1;
      var init, tail := d[..n], d[k..];
      ValueLast(d);
      ValueSplit(init, k);
      assert init[..k] == d[..k] && tail[..n - k] == init[k..] && tail[|tail| - 1] == d[n];
      ValueLast(tail);
      Carry(Value(d[..k]), Tens(n - k), Value(init[k..]), (d[n] - '0') as nat);
    }
  }

  lemma ValueNone()
    ensures Value("") == 0
  {
  }

  /** ms thousandths are the fraction that the digits are of one, rounded down. */
  predicate IsThousandths(digits: string, ms: nat)
    requires AllDigits(digits)
  {
    ms * Tens(|digits|) <= 1000 * Value(digits) < (ms + 1) * Tens(|digits|)
  }

  lemma ThousandthsIs(d: string)
    requires AllDigits(d) && d != ""
    ensures AllDigits(d[..Min(|d|, 3)]) && IsThousandths(d, Thousandths(d[..Min(|d|, 3)]))
  {
    hide Value;
    var n := Min(|d|, 3);
    var front, back := d[..n], d[n..];
    var ms, t := Thousandths(front), Tens(|d| - n);
    assert Tens(1) == 10 && Tens(2) == 100 && Tens(3) == 1000;
    ValueSplit(d, n);
    ValueBelow(back);
    if |d| <= 3 {
      assert front == d;
    } else {
      TensSum(3, |d| - 3);
      Between(ms, Value(back), t);
    }
  }

  lemma {:induction false} TensSum(a: nat, b: nat)
    ensures Tens(a + b) == Tens(a) * Tens(b)
    decreases b
  {
    if b > 0 {
      TensSum(a, b - 1);
    }
  }

  lemma Between(ms: nat, rest: nat, t: nat)
    requires rest < t
    ensures ms * (1000 * t) <= 1000 * (ms * t + rest) < (ms + 1) * (1000 * t)
  {
    assert ms * (1000 * t) == 1000 * (ms * t);
    assert (ms + 1) * (1000 * t) == 1000 * (ms * t) + 1000 * t;
  }

  /** A fraction is a dot or an underscore with digits behind it; all its digits are passed, and nothing else is. */
  lemma FractionIs(s: string, i: nat, e: nat)
    requires i < e <= |s| && AllDigits(s[i + 1..e]) && (e < |s| ==> !IsDigit(s[e]))
    ensures (s[i] == '.' || s[i] == '_') && e > i + 1 ==>
              Fraction(s, i).1 == e && IsThousandths(s[i + 1..e], Fraction(s, i).0)
    ensures !((s[i] == '.' || s[i] == '_') && e > i + 1) ==> Fraction(s, i) == (0, i)
  {
    hide IsThousandths, Thousandths, Value;
    if (s[i] == '.' || s[i] == '_') && e > i + 1 {
      var d := s[i + 1..e];
      assert forall k :: i + 1 <= k < e ==> s[k] == d[k - i - 1];
      DigitsEndIs(s, i + 1, e);
      ThousandthsIs(d);
      assert s[i + 1..i + 1 + Min(|d|, 3)] == d[..Min(|d|, 3)];
    }
  }

  predicate IsSign(c: char) { c == '+' || c == '-' }

  /** The first sign counts, if it is among the next six characters. */
  lemma {:induction false} ZoneFound(s: string, i: nat, limit: nat, p: nat)
    requires i <= p < |s| && i <= limit <= |s| && IsSign(s[p]) && forall k :: i <= k < p ==> !IsSign(s[k])
    ensures Zone(s, i, limit) == if p < limit then ZoneAt(s, p) else 0
    decreases limit - i
  {
    hide ZoneAt;
    if i < p && i < limit {
      ZoneFound(s, i + 1, limit, p);
    }
  }

  lemma ZoneWindow(s: string, i: nat, p: nat)
    requires i <= p < |s| && IsSign(s[p]) && forall k :: i <= k < p ==> !IsSign(s[k])
    ensures Zone(s, i, Min(i + 6, |s|)) == if p - i < 6 then ZoneAt(s, p) else 0
  {
    ZoneFound(s, i, Min(i + 6, |s|), p);
  }
}
