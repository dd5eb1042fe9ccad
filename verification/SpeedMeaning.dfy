/** What the numbers of the speed meter mean: bytes a second over a stretch of time, and bytes of the pieces of time. */
module SpeedMeaning {
  import opened Machine
  import opened SpeedSpec
  import opened SpeedRuns

  // ----- Speeds

  /** The bytes a second, rounded down, of some bytes in a time of deciseconds. */
  predicate IsRate(bytes: int, time: int, rate: int) {
    time > 0 && time * rate <= 10 * bytes < time * (rate + 1)
  }

  /** The time that n slots cover: all that has elapsed, or after n - 1 seconds these and the current second so far. */
  predicate IsCovered(elapsed: nat, n: nat, time: int) {
    if elapsed == 0 then time == 1
    else if elapsed < (n - 1) * 10 then time == elapsed
    else (n - 1) * 10 <= time < n * 10 && (elapsed - time) % 10 == 0
  }

  /** The speed over the time that the slots cover. */
  ghost predicate IsSpeed(elapsed: nat, n: nat, sum: int, speed: int) {
    exists time :: IsCovered(elapsed, n, time) && IsRate(sum, time, speed)
  }

  /** The covered time, and with it the speed, is determined. */
  lemma SpeedUnique(elapsed: nat, n: nat, sum: int, speed: int, speed': int)
    requires n >= 2 && IsSpeed(elapsed, n, sum, speed) && IsSpeed(elapsed, n, sum, speed')
    ensures speed == speed'
  {
    var t :| IsCovered(elapsed, n, t) && IsRate(sum, t, speed);
    var t' :| IsCovered(elapsed, n, t') && IsRate(sum, t', speed');
    CoveredUnique(elapsed, n, t, t');
    RateUnique(sum, t, speed, speed');
  }

  lemma CoveredUnique(elapsed: nat, n: nat, t: int, t': int)
    requires n >= 2 && IsCovered(elapsed, n, t) && IsCovered(elapsed, n, t')
    ensures t == t'
  {
  }

  lemma RateUnique(bytes: int, time: int, rate: int, rate': int)
    requires IsRate(bytes, time, rate) && IsRate(bytes, time, rate')
    ensures rate == rate'
  {
    if rate < rate' {
      Monotone(time, rate + 1, rate');
    } else if rate' < rate {
      Monotone(time, rate' + 1, rate);
    }
  }

  lemma ShareRate(time: nat, bytes: nat)
    requires time > 0
    ensures IsRate(bytes, time, Share(SECOND, time, bytes))
  {
    var rate := Share(SECOND, time, bytes);
    ShareBounds(SECOND, time, bytes);
    assert time * (rate + 1) == time * rate + time;
  }

  lemma CoveredTime(s: State)
    requires Shaped(s)
    ensures IsCovered(s.time - s.initial, |s.buf|, CircularTime(s))
  {
    var n, e := |s.buf|, s.time - s.initial;
    assert (n - 1) * 10 >= 10;
    if e >= (n - 1) * 10 {
      var t := CircularTime(s);
      assert t == (n - 1) * 10 + e % 10;
      assert e - t == (e / 10 - (n - 1)) * 10;
      Tens(e / 10 - (n - 1));
    }
  }

  lemma Tens(x: int)
    ensures x * 10 % 10 == 0
  {
  }

  /** The circular mean is the speed over the covered time. */
  lemma CircularMeanIs(s: State)
    requires Shaped(s) && s.sum >= 0
    ensures IsSpeed(s.time - s.initial, |s.buf|, s.sum, CircularMean(s))
  {
    hide Share, CircularTime, IsCovered;
    CoveredTime(s);
    ShareRate(CircularTime(s), s.sum);
    if s.sum == 0 {
      assert IsRate(0, CircularTime(s), 0);
    }
  }

  /** The mean of a request is its speed since it started. */
  lemma RequestMeanIs(s: State)
    requires s.pos >= 0 && s.start <= s.updated
    ensures IsRate(s.pos, if s.updated == s.start then 1 else s.updated - s.start, RequestMean(s))
  {
    ShareRate(Max(1, s.updated - s.start), s.pos);
  }

  /** The mean that a report leaves is the speed since the beginning. */
  lemma MeanIs(s: State, now: nat, delta: nat)
    requires Shaped(s) && s.time <= now && s.total >= 0
    ensures var r := Measured(s, now, delta);
            IsRate(r.total, if now == r.initial then 1 else now - r.initial, r.mean)
  {
    hide Share, Counted, Updated;
    UpdatedStart(s, now, delta);
    ShareRate(Max(1, now - s.initial), s.total + Counted(s, now, delta));
  }

  lemma UpdatedStart(s: State, now: nat, delta: nat)
    requires Shaped(s) && s.time <= now
    ensures Updated(s, now, delta).initial == s.initial
  {
    hide Share;
  }

  // ----- Slots

  /** The part of some bytes that falls on a period out of a whole, rounded down. */
  predicate IsShare(period: int, whole: int, bytes: int, part: int) {
    whole * part <= period * bytes < whole * part + whole
  }

  /** The number of a slot further on. */
  function Slot(s: State, j: nat): nat
    requires |s.buf| > 0
  {
    (s.index + j) % |s.buf|
  }

  lemma ModNext(a: nat, n: nat)
    requires n > 0
    ensures (a % n + 1) % n == (a + 1) % n
  {
    var q, r := a / n, a % n;
    assert a + 1 == q * n + (r + 1);
    if r + 1 < n {
      DivMod(a + 1, n, q, r + 1);
    } else {
      assert a + 1 == (q + 1) * n + 0;
      DivMod(a + 1, n, q + 1, 0);
    }
  }

  lemma DivMod(x: nat, n: nat, q: nat, r: nat)
    requires x == q * n + r && r < n
    ensures x % n == r
  {
    var d, m := x / n, x % n;
    assert x == d * n + m;
    if d < q {
      Monotone(n, d + 1, q);
    } else if q < d {
      Monotone(n, q + 1, d);
    }
  }

  lemma SlotsDiffer(a: nat, b: nat, n: nat)
    requires a < b < a + n
    ensures a % n != b % n
  {
    if a % n == b % n {
      var p, q := a / n, b / n;
      assert a == p * n + a % n && b == q * n + b % n;
      assert b - a == (q - p) * n;
      if q - p >= 1 {
        Monotone(n, 1, q - p);
      } else {
        Monotone(n, q - p, 0);
      }
    }
  }

  /** Advancing n times takes over the next n slots; one that comes round again is taken over again. */
  lemma {:induction false} AdvancedSlots(s: State, n: nat, value: nat)
    requires Shaped(s)
    ensures AdvanceBy(s, n, value).index == Slot(s, n)
    ensures forall j :: 1 <= j <= n && n - j < |s.buf| ==> AdvanceBy(s, n, value).buf[Slot(s, j)] == value
    ensures n < |s.buf| ==> AdvanceBy(s, n, value).buf[s.index] == s.buf[s.index]
  {
    hide Slot;
    SlotHere(s);
    if n > 0 {
      AdvancedSlots(s, n - 1, value);
      var r, t := AdvanceBy(s, n - 1, value), AdvanceBy(s, n, value);
      NextSlot(s, n - 1);
      forall j | 1 <= j <= n && n - j < |s.buf|
        ensures t.buf[Slot(s, j)] == value
      {
        if j < n {
          SlotsApart(s, j, n);
        }
      }
      if n < |s.buf| {
        SlotsApart(s, 0, n);
      }
    }
  }

  lemma SlotHere(s: State)
    requires Shaped(s)
    ensures Slot(s, 0) == s.index && forall j: nat :: Slot(s, j) < |s.buf|
  {
  }

  lemma NextSlot(s: State, j: nat)
    requires |s.buf| > 0
    ensures (Slot(s, j) + 1) % |s.buf| == Slot(s, j + 1)
  {
    ModNext(s.index + j, |s.buf|);
  }

  lemma SlotsApart(s: State, j: nat, k: nat)
    requires j < k < j + |s.buf|
    ensures Slot(s, j) != Slot(s, k)
  {
    SlotsDiffer(s.index + j, s.index + k, |s.buf|);
  }

  /** The slots after the current one that an update reaches; `edge` is the end of the current second. */
  function Reach(edge: nat, now: nat): nat {
    if now <= edge then 0 else (now - edge) / 10 + 1
  }

  /** The time from `from` to `now` that lies in the j-th second after the current one, which ends at `edge`. */
  function Overlap(from: nat, now: nat, edge: nat, j: nat): int {
    Min(now, edge + 10 * j) - Max(from, edge + 10 * (j - 1))
  }

  lemma Edge(s: State, now: nat, edge: nat)
    requires Shaped(s) && s.time < now && s.time <= edge < s.time + 10 && (edge - s.initial) % 10 == 0
    ensures edge == s.time + ToSecond(s)
    ensures CurrentPiece(s, now) == Overlap(s.time, now, edge, 0)
    ensures (CurrentPiece(s, now) == now - s.time) <==> Reach(edge, now) == 0
    ensures now > edge ==> WholeSeconds(s, now) + 1 == Reach(edge, now)
  {
    var e := s.time - s.initial;
    EdgeIs(e, edge - s.initial);
  }

  lemma EdgeIs(e: nat, edge: nat)
    requires e <= edge < e + 10 && edge % 10 == 0
    ensures edge == e + (10 - e % 10) % 10
  {
  }

  /** The slots after an update that leaves the current second. */
  lemma FarSlots(s: State, first: State, m: nat, value: nat, last: nat, j: nat)
    requires Shaped(s) && Shaped(first) && s.index == first.index && |s.buf| == |first.buf|
    requires j <= m + 1 < j + |s.buf|
    ensures var r := Advance(AdvanceBy(first, m, value), last);
            && r.index == Slot(s, m + 1)
            && r.buf[Slot(s, j)] == if j == 0 then first.buf[s.index] else if j <= m then value else last
  {
    hide Slot;
    SlotHere(s);
    SameSlots(s, first);
    AdvancedSlots(first, m, value);
    NextSlot(s, m);
    if j <= m {
      SlotsApart(s, j, m + 1);
    }
  }

  lemma WithinSlot(s: State, now: nat, delta: nat, edge: nat, j: nat)
    requires Shaped(s) && s.time < now && s.time <= edge < s.time + 10 && (edge - s.initial) % 10 == 0
    requires j <= Reach(edge, now) < j + |s.buf|
    ensures var r := Within(s, now, delta);
            && r.index == Slot(s, Reach(edge, now)) && Overlap(s.time, now, edge, j) >= 0
            && r.buf[Slot(s, j)]
               == (if j == 0 then s.buf[s.index] else 0) + Share(Overlap(s.time, now, edge, j), now - s.time, delta)
  {
    hide Share, Slot, CurrentPiece, WholeSeconds, Reach, Overlap, Advance, AdvanceBy, ToSecond;
    var dt := now - s.time;
    var first := s.(buf := s.buf[s.index := s.buf[s.index] + Share(CurrentPiece(s, now), dt, delta)], time := now);
    Edge(s, now, edge);
    SlotHere(s);
    if Reach(edge, now) > 0 {
      ReachFar(edge, now);
      LastPiece(s, now, edge, j);
      FarSlots(s, first, WholeSeconds(s, now), Share(SECOND, dt, delta), Share(Offset(first), dt, delta), j);
    }
  }

  lemma ReachFar(edge: nat, now: nat)
    ensures Reach(edge, now) > 0 <==> now > edge
  {
  }

  /** An update within the limit: the slot of every second that it reaches and does not come round to again holds the
      share of the time in that second; the slot of the current second takes it in addition. */
  lemma WithinWrites(s: State, now: nat, delta: nat, edge: nat, j: nat)
    requires Shaped(s) && s.time < now && s.time <= edge < s.time + 10 && (edge - s.initial) % 10 == 0
    requires j <= Reach(edge, now) < j + |s.buf|
    ensures var r := Within(s, now, delta);
            && r.index == Slot(s, Reach(edge, now))
            && IsShare(Overlap(s.time, now, edge, j), now - s.time, delta,
                       r.buf[Slot(s, j)] - if j == 0 then s.buf[s.index] else 0)
  {
    hide Share, Slot, IsShare, Reach, Overlap, Within;
    WithinSlot(s, now, delta, edge, j);
    PieceShare(Overlap(s.time, now, edge, j), now - s.time, delta);
  }

  lemma SameSlots(s: State, first: State)
    requires s.index == first.index && |s.buf| == |first.buf| > 0
    ensures forall j: nat :: Slot(first, j) == Slot(s, j)
  {
  }

  lemma PieceShare(period: nat, whole: nat, bytes: nat)
    requires whole > 0
    ensures IsShare(period, whole, bytes, Share(period, whole, bytes))
  {
    ShareBounds(period, whole, bytes);
  }

  /** The pieces after the current second: whole seconds, then the rest. */
  lemma LastPiece(s: State, now: nat, edge: nat, j: nat)
    requires Shaped(s) && s.time <= edge < now && (edge - s.initial) % 10 == 0 && j <= Reach(edge, now)
    ensures 0 < j < Reach(edge, now) ==> Overlap(s.time, now, edge, j) == SECOND
    ensures 0 < j == Reach(edge, now) ==> Overlap(s.time, now, edge, j) == Offset(s.(time := now))
  {
    var d := now - edge;
    assert d == d / 10 * 10 + d % 10;
    RestIs(edge - s.initial, d);
  }

  lemma RestIs(e: nat, d: nat)
    requires e % 10 == 0
    ensures (e + d) % 10 == d % 10
  {
  }

  /** An update after a long silence: every slot holds the mean of a second over the silence, and that of the current
      second the part of it that has passed; what is counted is what the slots hold. */
  lemma ExceedingWrites(s: State, now: nat, delta: nat) returns (each: nat)
    requires Shaped(s) && s.time < now
    ensures IsRate(delta, now - s.time, each)
    ensures var r := Exceeding(s, now, delta);
            && (forall i :: 0 <= i < |r.buf| && i != r.index ==> r.buf[i] == each)
            && IsShare((now - s.initial) % 10, 10, each, r.buf[r.index])
            && Averaged(s, now, delta) == each * (|r.buf| - 1) + r.buf[r.index]
  {
    hide Share, IsRate, IsShare;
    each := Share(SECOND, now - s.time, delta);
    ShareRate(now - s.time, delta);
    PieceShare((now - s.initial) % SECOND, SECOND, each);
  }

  /** What a report adds to the total: its bytes, or after a silence of more seconds than there are slots what the slots
      then hold, which is also the running sum. */
  lemma TotalIs(s: State, now: nat, delta: nat)
    requires Shaped(s) && s.time <= now && s.total >= 0
    ensures var r := Measured(s, now, delta);
            if now - s.time < 10 * (|s.buf| + 1) then r.total == s.total + delta
            else r.total == s.total + r.sum && r.sum == Slots(r.buf)
  {
    hide Share, Within, Exceeding, Averaged, Slots;
    Silence(now - s.time, |s.buf|);
    if now - s.time >= 10 * (|s.buf| + 1) {
      ExceedingSlots(s, now, delta);
      ExceedingFrame(s, now, delta);
    }
  }

  lemma Silence(dt: nat, n: nat)
    ensures dt / 10 <= n <==> dt < 10 * (n + 1)
  {
  }
}
