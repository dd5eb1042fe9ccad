/** What every run of the speed meter keeps. */
module SpeedRuns {
  import opened Machine
  import opened SpeedSpec

  // ----- The slots

  function Slots(buf: seq<int>): int {
    if buf == [] then 0 else Slots(buf[..|buf| - 1]) + buf[|buf| - 1]
  }

  lemma {:induction false} SlotsUpdate(buf: seq<int>, i: nat, v: int)
    requires i < |buf|
    ensures Slots(buf[i := v]) == Slots(buf) - buf[i] + v
  {
    var last := |buf| - 1;
    var b := buf[i := v];
    if i == last {
      assert b[..last] == buf[..last];
    } else {
      assert b[..last] == buf[..last][i := v];
      SlotsUpdate(buf[..last], i, v);
    }
  }

  predicate NonNegative(buf: seq<int>) {
    forall i :: 0 <= i < |buf| ==> buf[i] >= 0
  }

  lemma {:induction false} SlotsNonNegative(buf: seq<int>)
    requires NonNegative(buf)
    ensures Slots(buf) >= 0
  {
    if buf != [] {
      SlotsNonNegative(buf[..|buf| - 1]);
    }
  }

  lemma {:induction false} SlotsUniform(buf: seq<int>, v: int)
    requires forall i :: 0 <= i < |buf| ==> buf[i] == v
    ensures Slots(buf) == v * |buf|
  {
    if buf != [] {
      SlotsUniform(buf[..|buf| - 1], v);
      assert v * (|buf| - 1) + v == v * |buf|;
    }
  }

  /** By how much the running sum overstates the slots. */
  function Excess(s: State): int {
    s.sum - Slots(s.buf)
  }

  // ----- The time of a within-limit update

  /** The pieces of time of an update: the rest of the current second, whole seconds, the start of the newest second. */
  lemma PiecesAddUp(s: State, now: nat)
    requires Shaped(s) && s.time < now
    ensures CurrentPiece(s, now) == now - s.time ==> WholeSeconds(s, now) == 0
    ensures CurrentPiece(s, now) != now - s.time ==>
              CurrentPiece(s, now) + SECOND * WholeSeconds(s, now) + Offset(s.(time := now)) == now - s.time
  {
    var elapsed := s.time - s.initial;
    var dt := now - s.time;
    var rest := ToSecond(s);
    if CurrentPiece(s, now) != dt {
      Remainders(elapsed, dt, rest);
    }
  }

  lemma Remainders(elapsed: nat, dt: nat, rest: nat)
    requires rest == (10 - elapsed % 10) % 10 && rest < dt
    ensures (elapsed + dt) % 10 == (dt - rest) % 10
  {
  }

  // ----- The bytes of a within-limit update

  /** The bytes an update writes to slots. */
  function Written(s: State, now: nat, delta: nat): int
    requires Shaped(s) && s.time < now
  {
    var dt := now - s.time;
    var first := Share(CurrentPiece(s, now), dt, delta);
    if CurrentPiece(s, now) == dt then first
    else first + Times(WholeSeconds(s, now), Share(SECOND, dt, delta)) + Share(Offset(s.(time := now)), dt, delta)
  }

  /** How many slots it writes. */
  function SlotsWritten(s: State, now: nat): (r: nat)
    requires Shaped(s) && s.time < now
    ensures r >= 1
  {
    if CurrentPiece(s, now) == now - s.time then 1 else WholeSeconds(s, now) + 2
  }

  lemma ShareBounds(period: nat, whole: nat, bytes: nat)
    requires 0 < whole
    ensures whole * Share(period, whole, bytes) <= period * bytes < whole * Share(period, whole, bytes) + whole
  {
    Quotient(period * bytes, whole);
    if period == 0 {
      assert period * bytes == 0;
    }
  }

  /** A product by name, for proofs that use only the facts stated about it. */
  function Times(x: int, y: int): int {
    x * y
  }

  lemma NamedBounds(period: nat, whole: nat, bytes: nat)
    requires 0 < whole
    ensures Times(whole, Share(period, whole, bytes)) <= Times(period, bytes)
            < Times(whole, Share(period, whole, bytes)) + whole
  {
    ShareBounds(period, whole, bytes);
  }

  /** The shares of one current piece, n whole seconds and one last piece lose less than a byte a piece. */
  lemma SharesLose(a: nat, n: nat, b: nat, whole: nat, bytes: nat)
    requires 0 < whole == a + SECOND * n + b
    ensures 0 <= bytes - (Share(a, whole, bytes) + Times(n, Share(SECOND, whole, bytes)) + Share(b, whole, bytes))
            < n + 2
  {
    hide Share, Times;
    var x, y, z := Share(a, whole, bytes), Share(SECOND, whole, bytes), Share(b, whole, bytes);
    NamedBounds(a, whole, bytes);
    NamedBounds(SECOND, whole, bytes);
    NamedBounds(b, whole, bytes);
    Scale(Times(whole, y), Times(SECOND, bytes), whole, n);
    Distribute(a, n, b, whole, bytes);
    Regroup(whole, x, y, z, n);
    Between(whole, x + Times(n, y) + z, bytes, n + 2, Times(n, whole) + 2 * whole);
  }

  lemma Scale(lo: int, p: int, whole: nat, n: nat)
    requires lo <= p < lo + whole
    ensures Times(n, lo) <= Times(n, p) <= Times(n, lo) + Times(n, whole)
  {
    assert n * p == n * lo + n * (p - lo);
    assert 0 <= n * (p - lo);
    assert n * whole == n * (p - lo) + n * (whole - (p - lo));
    assert 0 <= n * (whole - (p - lo));
  }

  lemma Distribute(a: nat, n: nat, b: nat, whole: nat, bytes: nat)
    requires whole == a + SECOND * n + b
    ensures Times(whole, bytes) == Times(a, bytes) + Times(n, Times(SECOND, bytes)) + Times(b, bytes)
  {
    assert (SECOND * n) * bytes == n * (SECOND * bytes);
  }

  lemma Regroup(whole: nat, x: nat, y: nat, z: nat, n: nat)
    ensures Times(whole, x + Times(n, y) + z) == Times(whole, x) + Times(n, Times(whole, y)) + Times(whole, z)
    ensures Times(n, whole) + 2 * whole == Times(whole, n + 2)
  {
    assert whole * (n * y) == n * (whole * y);
  }

  /** Two products by the same factor compare as the other factors do. */
  lemma Between(d: nat, lo: int, x: nat, k: nat, kd: int)
    requires 0 < d && kd == Times(d, k) && Times(d, lo) <= Times(d, x) < Times(d, lo) + kd
    ensures lo <= x < lo + k
  {
    if x < lo {
      Monotone(d, x + 1, lo);
    }
    if x >= lo + k {
      Monotone(d, lo + k, x);
    }
  }

  /** The bytes an update writes fall short of its bytes by less than the number of slots it writes. */
  lemma WrittenLoses(s: State, now: nat, delta: nat)
    requires Shaped(s) && s.time < now
    ensures 0 <= delta - Written(s, now, delta) < SlotsWritten(s, now)
  {
    var dt := now - s.time;
    PiecesAddUp(s, now);
    if CurrentPiece(s, now) == dt {
      assert Share(dt, dt, delta) == delta by { Whole(dt, delta); }
    } else {
      SharesLose(CurrentPiece(s, now), WholeSeconds(s, now), Offset(s.(time := now)), dt, delta);
    }
  }

  lemma Whole(dt: nat, delta: nat)
    requires 0 < dt
    ensures dt * delta / dt == delta
  {
    Quotient(dt * delta, dt);
    Between(dt, dt * delta / dt, delta, 1, dt);
  }

  // ----- What one update does to the slots and the sum

  lemma AdvanceSlots(s: State, value: nat)
    requires Shaped(s) && NonNegative(s.buf)
    ensures Excess(Advance(s, value)) == Excess(s) - value
    ensures NonNegative(Advance(s, value).buf) && Advance(s, value).sum <= s.sum
  {
    var next := (s.index + 1) % |s.buf|;
    SlotsUpdate(s.buf, next, value);
  }

  lemma {:induction false} AdvanceBySlots(s: State, n: nat, value: nat)
    requires Shaped(s) && NonNegative(s.buf)
    ensures Excess(AdvanceBy(s, n, value)) == Excess(s) - n * value
    ensures NonNegative(AdvanceBy(s, n, value).buf) && AdvanceBy(s, n, value).sum <= s.sum
    decreases n
  {
    if n > 0 {
      AdvanceBySlots(s, n - 1, value);
      AdvanceSlots(AdvanceBy(s, n - 1, value), value);
      assert n * value == (n - 1) * value + value;
    }
  }

  lemma WithinSlots(s: State, now: nat, delta: nat)
    requires Shaped(s) && NonNegative(s.buf) && s.time < now
    ensures Excess(Within(s, now, delta)) == Excess(s) - Written(s, now, delta)
    ensures NonNegative(Within(s, now, delta).buf) && Within(s, now, delta).sum <= s.sum
  {
    hide Share, WholeSeconds, CurrentPiece, Excess, Offset;
    var dt := now - s.time;
    var share := Share(CurrentPiece(s, now), dt, delta);
    var first := s.(buf := s.buf[s.index := s.buf[s.index] + share], time := now);
    assert Excess(first) == Excess(s) - share by { FirstSlot(s, first, share); }
    if CurrentPiece(s, now) != dt {
      assert Offset(first) == Offset(s.(time := now)) by { SameOffset(first, s.(time := now)); }
      AdvanceBySlots(first, WholeSeconds(s, now), Share(SECOND, dt, delta));
      AdvanceSlots(AdvanceBy(first, WholeSeconds(s, now), Share(SECOND, dt, delta)), Share(Offset(first), dt, delta));
    }
  }

  lemma SameOffset(a: State, b: State)
    requires a.initial == b.initial <= a.time == b.time
    ensures Offset(a) == Offset(b)
  {
  }

  lemma FirstSlot(s: State, first: State, share: nat)
    requires Shaped(s) && first.buf == s.buf[s.index := s.buf[s.index] + share] && first.sum == s.sum
    ensures Excess(first) == Excess(s) - share
  {
    SlotsUpdate(s.buf, s.index, s.buf[s.index] + share);
  }

  /** After a long silence the slots hold exactly the bytes that are counted. */
  lemma ExceedingSlots(s: State, now: nat, delta: nat)
    requires Shaped(s) && s.time < now
    ensures Slots(Exceeding(s, now, delta).buf) == Averaged(s, now, delta)
    ensures NonNegative(Exceeding(s, now, delta).buf)
  {
    var e := Exceeding(s, now, delta);
    var each := Share(SECOND, now - s.time, delta);
    var uniform := seq(|s.buf|, _ => each);
    SlotsUniform(uniform, each);
    var last := Share((now - s.initial) % SECOND, SECOND, each);
    SlotsUpdate(uniform, e.index, last);
    assert e.buf == uniform[e.index := last];
    assert each * |s.buf| - each == each * (|s.buf| - 1);
  }

  /** And these are no more than the bytes reported. */
  lemma AveragedAtMost(s: State, now: nat, delta: nat)
    requires Shaped(s) && s.time < now && (now - s.time) / SECOND > |s.buf|
    ensures Averaged(s, now, delta) <= delta
  {
    hide Share;
    var dt, n := now - s.time, |s.buf|;
    var each := Share(SECOND, dt, delta);
    ShareBounds(SECOND, dt, delta);
    assert Share((now - s.initial) % SECOND, SECOND, each) <= each;
    assert each * (n - 1) + each == each * n;
    SecondsFit(dt, n, each, delta);
  }

  lemma SecondsFit(dt: nat, n: nat, each: nat, delta: nat)
    requires dt * each <= SECOND * delta && dt / SECOND > n
    ensures each * n <= delta
  {
    assert SECOND * n <= dt;
    Monotone(each, SECOND * n, dt);
    assert (SECOND * n) * each == SECOND * (n * each);
  }

  // ----- What every operation keeps

  ghost predicate Inv(s: State, n: nat, now: nat) {
    && Shaped(s) && |s.buf| == n && NonNegative(s.buf)
    && s.time <= now && (s.initial == 0 <==> s.time == 0)
    && 0 <= Excess(s) && s.sum <= s.total
    && s.mean >= 0 && s.pos >= 0 && s.start <= s.updated <= now
  }

  lemma InvSums(s: State, n: nat, now: nat)
    requires Inv(s, n, now)
    ensures 0 <= Slots(s.buf) <= s.sum <= s.total
  {
    SlotsNonNegative(s.buf);
  }

  /** How much an update may add to the excess: one byte less than the slots it writes. */
  function Slack(s: State, now: nat): nat
    requires Shaped(s) && s.time <= now
  {
    if s.time < now && (now - s.time) / SECOND <= |s.buf| then SlotsWritten(s, now) - 1 else 0
  }

  lemma UpdatedKeeps(s: State, now: nat, delta: nat)
    requires Shaped(s) && NonNegative(s.buf) && s.time <= now && 0 <= Excess(s) && s.sum <= s.total
    ensures var u := Updated(s, now, delta); var counted := Counted(s, now, delta);
            && NonNegative(u.buf) && u.sum + counted <= s.total + counted && counted <= delta
            && 0 <= Excess(u) + counted <= Excess(s) + Slack(s, now)
    ensures Updated(s, now, delta) == s.(buf := Updated(s, now, delta).buf, index := Updated(s, now, delta).index,
                                          sum := Updated(s, now, delta).sum, time := now)
  {
    hide Within, Exceeding, Written, Averaged, SlotsWritten;
    if s.time == now {
      SlotsUpdate(s.buf, s.index, s.buf[s.index] + delta);
    } else if (now - s.time) / SECOND <= |s.buf| {
      WithinSlots(s, now, delta);
      WrittenLoses(s, now, delta);
      WithinFrame(s, now, delta);
    } else {
      ExceedingSlots(s, now, delta);
      AveragedAtMost(s, now, delta);
      SlotsNonNegative(s.buf);
      ExceedingFrame(s, now, delta);
    }
  }

  lemma WithinFrame(s: State, now: nat, delta: nat)
    requires Shaped(s) && s.time < now
    ensures var w := Within(s, now, delta); w == s.(buf := w.buf, index := w.index, sum := w.sum, time := now)
  {
  }

  lemma ExceedingFrame(s: State, now: nat, delta: nat)
    requires Shaped(s) && s.time < now
    ensures var e := Exceeding(s, now, delta); e == s.(buf := e.buf, index := e.index, sum := 0, time := now)
  {
  }

  lemma MeasuredKeeps(s: State, n: nat, now: nat, delta: nat)
    requires Inv(s, n, now) && s.time > 0
    ensures s.total >= 0 && Inv(Measured(s, now, delta), n, now)
    ensures Excess(Measured(s, now, delta)) <= Excess(s) + Slack(s, now)
    ensures s.total <= Measured(s, now, delta).total <= s.total + delta
  {
    hide Updated, Counted, Share, Slots, Slack;
    InvSums(s, n, now);
    UpdatedKeeps(s, now, delta);
  }

  lemma StartedKeeps(s: State, n: nat, now: nat)
    requires Inv(s, n, now)
    ensures Inv(Started(s, now), n, now) && Excess(Started(s, now)) == Excess(s) && Started(s, now).time == now
    ensures Started(s, now).time - Started(s, now).initial == s.time - s.initial
  {
  }

  // ----- Runs

  datatype Event = Start | Report(delta: int) | Progress(newPos: int)

  function Do(s: State, now: nat, e: Event): State
    requires Shaped(s) && s.time <= now && s.total >= 0
  {
    match e
    case Start => Started(s, now)
    case Report(delta) => Calculate(s, now, delta)
    case Progress(newPos) => Progressed(s, now, newPos)
  }

  /** The bytes an event reports. */
  function Reported(s: State, e: Event): nat {
    match e
    case Start => 0
    case Report(delta) => Max(delta, 0)
    case Progress(newPos) => Max(newPos - s.pos, 0)
  }

  /** What it may add to the excess. */
  function Allowed(s: State, now: nat, e: Event): nat
    requires Shaped(s) && s.time <= now
  {
    if e.Start? || Uninitialized(s) then 0 else Slack(s, now)
  }

  lemma CalculateKeeps(s: State, n: nat, now: nat, delta: int)
    requires Inv(s, n, now)
    ensures s.total >= 0 && Inv(Calculate(s, now, delta), n, now)
    ensures Excess(Calculate(s, now, delta)) <= Excess(s) + Allowed(s, now, Report(delta))
    ensures s.total <= Calculate(s, now, delta).total <= s.total + Max(delta, 0)
  {
    hide Measured, Excess, Inv;
    InvSums(s, n, now);
    InvStart(s, n, now);
    if Uninitialized(s) && now == 0 {
    } else if Uninitialized(s) {
      StartedKeeps(s, n, now);
      MeasuredKeeps(Started(s, now), n, now, Max(delta, 0));
      assert Slack(Started(s, now), now) == 0;
    } else {
      MeasuredKeeps(s, n, now, Max(delta, 0));
    }
  }

  lemma InvStart(s: State, n: nat, now: nat)
    requires Inv(s, n, now)
    ensures Shaped(s) && s.time <= now && (s.initial == 0 <==> s.time == 0) && s.pos >= 0
    ensures forall p: nat :: Inv(s.(pos := p, updated := now), n, now)
  {
  }

  lemma DoKeeps(s: State, n: nat, now: nat, e: Event)
    requires Inv(s, n, now)
    ensures s.total >= 0 && Inv(Do(s, now, e), n, now)
    ensures Excess(Do(s, now, e)) <= Excess(s) + Allowed(s, now, e)
    ensures s.total <= Do(s, now, e).total <= s.total + Reported(s, e)
  {
    hide Calculate, Inv, Slack;
    InvSums(s, n, now);
    InvStart(s, n, now);
    match e
    case Start => StartedKeeps(s, n, now);
    case Report(delta) => CalculateKeeps(s, n, now, delta);
    case Progress(newPos) =>
      if newPos > s.pos {
        CalculateKeeps(s, n, now, newPos - s.pos);
        InvStart(Calculate(s, now, newPos - s.pos), n, now);
      }
  }

  ghost predicate Ordered(from: nat, run: seq<(nat, Event)>) {
    && (forall i :: 0 <= i < |run| ==> from <= run[i].0)
    && (forall i, j :: 0 <= i < j < |run| ==> run[i].0 <= run[j].0)
  }

  /** Time after a run. */
  function End(from: nat, run: seq<(nat, Event)>): nat {
    if run == [] then from else run[|run| - 1].0
  }

  /** The state, the bytes reported and the excess allowed after a run. */
  ghost function After(s: State, n: nat, from: nat, run: seq<(nat, Event)>): (r: (State, nat, nat))
    requires Inv(s, n, from) && Ordered(from, run)
    ensures Inv(r.0, n, End(from, run))
    ensures Excess(r.0) <= Excess(s) + r.2
    ensures s.total <= r.0.total <= s.total + r.1
    decreases |run|
  {
    if run == [] then (s, 0, 0)
    else
      var init := run[..|run| - 1];
      var (now, e) := run[|run| - 1];
      var (t, reported, allowed) := After(s, n, from, init);
      InvLater(t, n, End(from, init), now);
      DoKeeps(t, n, now, e);
      (Do(t, now, e), reported + Reported(t, e), allowed + Allowed(t, now, e))
  }

  lemma InvLater(s: State, n: nat, now: nat, later: nat)
    requires Inv(s, n, now) && now <= later
    ensures Inv(s, n, later)
  {
  }

  lemma FreshInv(n: nat, now: nat)
    requires n >= 2
    ensures Inv(Fresh(n), n, now) && Excess(Fresh(n)) == 0
  {
    SlotsUniform(Zeros(n), 0);
  }

  /** Every run from construction: times in order, sums in order, the excess bounded, no byte invented, mean speeds
      not negative. */
  lemma EveryRun(n: nat, born: nat, run: seq<(nat, Event)>)
    requires n >= 2 && Ordered(born, run)
    ensures Inv(Started(Fresh(n), born), n, born)
    ensures var (s, reported, allowed) := After(Started(Fresh(n), born), n, born, run);
            && s.initial <= s.time <= End(born, run)
            && 0 <= Slots(s.buf) <= s.sum <= s.total <= reported
            && s.sum - Slots(s.buf) <= allowed
            && s.mean >= 0 && CircularMean(s) >= 0 && RequestMean(s) >= 0
  {
    FreshInv(n, born);
    StartedKeeps(Fresh(n), n, born);
    var (s, reported, allowed) := After(Started(Fresh(n), born), n, born, run);
    InvSums(s, n, End(born, run));
  }
}
