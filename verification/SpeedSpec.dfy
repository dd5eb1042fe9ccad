/** The transfer speed meter on values: one slot per second in a circular buffer, a running sum and a total. */
module SpeedSpec {
  import opened Machine

  const SECOND := 10  // deciseconds

  datatype State = State(
    buf: seq<int>,    // bytes per second, one slot a second
    index: nat,       // the slot of the current second
    time: nat,        // when the buffer was last brought up to date
    sum: int,         // bytes in the buffer
    total: int,       // bytes since the beginning
    initial: nat,     // when the beginning was
    mean: int,        // mean speed since the beginning
    pos: int,         // position of the current request
    start: nat,       // when it started
    updated: nat      // when it last progressed
  )

  function Zeros(n: nat): seq<int> {
    seq(n, _ => 0)
  }

  function Fresh(n: nat): State {
    State(Zeros(n), 0, 0, 0, 0, 0, 0, 0, 0, 0)
  }

  /** The part of `bytes` that falls on `period` out of `whole`. */
  function Share(period: int, whole: int, bytes: nat): (r: nat)
    ensures 0 < whole && 0 <= period <= whole ==> r <= bytes
  {
    if period <= 0 || whole <= 0 then 0
    else
      ShareAtMost(period, whole, bytes);
      period * bytes / whole
  }

  lemma ShareAtMost(period: nat, whole: nat, bytes: nat)
    requires 0 < whole
    ensures 0 <= period * bytes / whole
    ensures period <= whole ==> period * bytes / whole <= bytes
  {
    var product := period * bytes;
    Quotient(product, whole);
    if period <= whole {
      assert product <= whole * bytes by { Monotone(bytes, period, whole); }
      QuotientAtMost(product, whole, bytes);
    }
  }

  lemma Quotient(x: nat, d: nat)
    requires 0 < d
    ensures 0 <= x / d && d * (x / d) <= x < d * (x / d) + d
  {
    assert x == d * (x / d) + x % d;
  }

  lemma QuotientAtMost(x: nat, d: nat, q: nat)
    requires 0 < d && x <= d * q
    ensures x / d <= q
  {
    Quotient(x, d);
    var r := x / d;
    if r > q {
      Monotone(d, q + 1, r);
    }
  }

  predicate Shaped(s: State) {
    s.index < |s.buf| && |s.buf| >= 2 && s.initial <= s.time
  }

  function Offset(s: State): (r: nat)
    requires s.initial <= s.time
    ensures r < SECOND
  {
    (s.time - s.initial) % SECOND
  }

  function Started(s: State, now: nat): (r: State)
    requires s.time <= now
    ensures Shaped(s) ==> Shaped(r)
  {
    s.(pos := 0, start := now, updated := now,
       initial := s.initial + (if s.time != 0 then now - s.time else now), time := now)
  }

  // ----- Bringing the buffer up to date

  /** The next slot takes over. */
  function Advance(s: State, value: nat): State
    requires Shaped(s)
  {
    var next := (s.index + 1) % |s.buf|;
    s.(index := next, sum := s.sum - s.buf[next], buf := s.buf[next := value])
  }

  function AdvanceBy(s: State, n: nat, value: nat): (r: State)
    requires Shaped(s)
    ensures Shaped(r) && |r.buf| == |s.buf|
    ensures r == s.(buf := r.buf, index := r.index, sum := r.sum)
    decreases n
  {
    if n == 0 then s else Advance(AdvanceBy(s, n - 1, value), value)
  }

  function ToSecond(s: State): (r: nat)
    requires s.initial <= s.time
    ensures r < SECOND
  {
    (SECOND - Offset(s)) % SECOND
  }

  /** The time that still goes to the current second, of all that elapsed. */
  function CurrentPiece(s: State, now: nat): (r: nat)
    requires s.initial <= s.time <= now
    ensures r <= now - s.time && r <= ToSecond(s)
  {
    Min(now - s.time, ToSecond(s))
  }

  /** The whole seconds after it. */
  function WholeSeconds(s: State, now: nat): nat
    requires s.initial <= s.time <= now
  {
    if CurrentPiece(s, now) == now - s.time then 0 else (now - s.time - ToSecond(s)) / SECOND
  }

  function Within(s: State, now: nat, delta: nat): (r: State)
    requires Shaped(s) && s.time < now
    ensures Shaped(r) && |r.buf| == |s.buf| && r.time == now
  {
    var dt := now - s.time;
    var first := s.(buf := s.buf[s.index := s.buf[s.index] + Share(CurrentPiece(s, now), dt, delta)], time := now);
    if CurrentPiece(s, now) == dt then first
    else
      var whole := AdvanceBy(first, WholeSeconds(s, now), Share(SECOND, dt, delta));
      Advance(whole, Share(Offset(first), dt, delta))
  }

  /** What an update after a long silence counts: the mean over the seconds the buffer holds. */
  function Averaged(s: State, now: nat, delta: nat): (r: nat)
    requires Shaped(s) && s.time < now
  {
    var each := Share(SECOND, now - s.time, delta);
    each * (|s.buf| - 1) + Share((now - s.initial) % SECOND, SECOND, each)
  }

  function Exceeding(s: State, now: nat, delta: nat): (r: State)
    requires Shaped(s) && s.time < now
    ensures Shaped(r) && |r.buf| == |s.buf| && r.time == now
  {
    var each := Share(SECOND, now - s.time, delta);
    var index := (s.index + (now - s.time) / SECOND) % |s.buf|;
    s.(buf := seq(|s.buf|, i => if i == index then Share((now - s.initial) % SECOND, SECOND, each) else each),
       index := index, time := now, sum := 0)
  }

  // ----- The public operations

  function Uninitialized(s: State): bool {
    s.initial == 0 || s.time == 0
  }

  function Updated(s: State, now: nat, delta: nat): (r: State)
    requires Shaped(s) && s.time <= now
    ensures Shaped(r) && |r.buf| == |s.buf| && r.time == now
  {
    if now == s.time then s.(buf := s.buf[s.index := s.buf[s.index] + delta])
    else if (now - s.time) / SECOND <= |s.buf| then Within(s, now, delta)
    else Exceeding(s, now, delta)
  }

  /** The bytes an update counts. */
  function Counted(s: State, now: nat, delta: nat): nat
    requires Shaped(s) && s.time <= now
  {
    if s.time < now && (now - s.time) / SECOND > |s.buf| then Averaged(s, now, delta) else delta
  }

  function Measured(s: State, now: nat, delta: nat): State
    requires Shaped(s) && s.time <= now && s.total >= 0
  {
    var counted := Counted(s, now, delta);
    var u := Updated(s, now, delta);
    u.(sum := u.sum + counted, total := s.total + counted,
       mean := Share(SECOND, Max(1, now - s.initial), s.total + counted))
  }

  /** One report of `delta` bytes at time `now`. */
  function Calculate(s: State, now: nat, delta: int): State
    requires Shaped(s) && s.time <= now && s.total >= 0
  {
    if Uninitialized(s) && now == 0 then s
    else if Uninitialized(s) then Measured(Started(s, now), now, Max(delta, 0))
    else Measured(s, now, Max(delta, 0))
  }

  function Progressed(s: State, now: nat, newPos: int): State
    requires Shaped(s) && s.time <= now && s.total >= 0
  {
    if newPos > s.pos then Calculate(s, now, newPos - s.pos).(pos := newPos, updated := now) else s
  }

  function CircularTime(s: State): (r: nat)
    requires Shaped(s)
    ensures r > 0
  {
    var elapsed := Max(1, s.time - s.initial);
    if elapsed >= (|s.buf| - 1) * SECOND then (|s.buf| - 1) * SECOND + Offset(s) else elapsed
  }

  function CircularMean(s: State): (r: nat)
    requires Shaped(s) && s.sum >= 0
  {
    if s.sum == 0 then 0 else Share(SECOND, CircularTime(s), s.sum)
  }

  function RequestMean(s: State): (r: nat)
    requires s.pos >= 0 && s.start <= s.updated
  {
    Share(SECOND, Max(1, s.updated - s.start), s.pos)
  }
}
