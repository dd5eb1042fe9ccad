/** The speed meter as the object that the transfers update. The clock is a parameter. */
module SpeedControllers {
  import opened Machine
  import opened SpeedSpec
  import opened SpeedRuns
  import opened SpeedMeaning

  class SpeedController {
    const circularBuf: array<int>
    var circularCurrentIndex: nat
    var circularCurrentTime: nat
    var circularCurrentSum: int
    var totalSumBytes: int
    var initialTime: nat
    var meanSpeed: int
    var requestPos: int
    var requestStart: nat
    var lastRequestUpdate: nat

    ghost function Abs(): State
      reads this, circularBuf
    {
      State(circularBuf[..], circularCurrentIndex, circularCurrentTime, circularCurrentSum, totalSumBytes, initialTime,
            meanSpeed, requestPos, requestStart, lastRequestUpdate)
    }

    ghost predicate Valid(now: nat)
      reads this, circularBuf
    {
      Inv(Abs(), circularBuf.Length, now)
    }

    constructor (size: nat, now: nat)
      requires size >= 2
      ensures Valid(now) && fresh(circularBuf) && circularBuf.Length == size && Abs() == Started(Fresh(size), now)
    {
      circularBuf := new int[size](_ => 0);
      circularCurrentIndex, circularCurrentTime, circularCurrentSum, totalSumBytes, initialTime := 0, 0, 0, 0, 0;
      meanSpeed, requestPos, requestStart, lastRequestUpdate := 0, 0, 0, 0;
      new;
      assert circularBuf[..] == Zeros(size);
      FreshInv(size, now);
      StartedKeeps(Fresh(size), size, now);
      RequestStarted(now);
    }

    method RequestStarted(now: nat)
      requires circularCurrentTime <= now
      modifies this
      ensures Abs() == Started(old(Abs()), now)
    {
      requestPos := 0;
      requestStart, lastRequestUpdate := now, now;
      initialTime := initialTime + (if circularCurrentTime != 0 then now - circularCurrentTime else now);
      circularCurrentTime := now;
    }

    method RequestProgressed(now: nat, newPos: int) returns (delta: int)
      requires Valid(now)
      modifies this, circularBuf
      ensures Valid(now) && old(Abs()).total >= 0 && Abs() == Progressed(old(Abs()), now, newPos)
      ensures delta == Max(newPos - old(requestPos), 0)
    {
      hide Inv, Calculate, Slots, Excess, Allowed;
      InvSums(Abs(), circularBuf.Length, now);
      InvStart(Abs(), circularBuf.Length, now);
      DoKeeps(Abs(), circularBuf.Length, now, Progress(newPos));
      if newPos > requestPos {
        delta := newPos - requestPos;
        var _ := CalculateSpeed(now, delta);
        requestPos := newPos;
        lastRequestUpdate := now;
        return delta;
      }
      return 0;
    }

    method LastRequestMeanSpeed() returns (speed: int)
      requires requestPos >= 0 && requestStart <= lastRequestUpdate
      ensures speed == RequestMean(Abs()) >= 0
      ensures var time := lastRequestUpdate - requestStart; IsRate(requestPos, if time == 0 then 1 else time, speed)
    {
      RequestMeanIs(Abs());
      speed := Share(SECOND, Max(1, lastRequestUpdate - requestStart), requestPos);
    }

    method GetCircularMeanSpeed(ghost now: nat) returns (speed: int)
      requires Valid(now)
      ensures 0 <= Abs().sum && speed == CircularMean(Abs()) >= 0 && initialTime <= circularCurrentTime
      ensures IsSpeed(circularCurrentTime - initialTime, circularBuf.Length, circularCurrentSum, speed)
    {
      hide Inv, Share, Slots, IsSpeed;
      InvSums(Abs(), circularBuf.Length, now);
      InvStart(Abs(), circularBuf.Length, now);
      CircularMeanIs(Abs());
      if circularCurrentSum == 0 {
        return 0;
      }
      var elapsed := Max(1, circularCurrentTime - initialTime);
      var offset := CurrentSecondOffset();
      var totalSumTime := if elapsed >= (circularBuf.Length - 1) * SECOND
                          then (circularBuf.Length - 1) * SECOND + offset
                          else elapsed;
      speed := Share(SECOND, totalSumTime, circularCurrentSum);
    }

    method CurrentSecondOffset() returns (offset: nat)
      requires initialTime <= circularCurrentTime
      ensures offset == Offset(Abs())
    {
      offset := (circularCurrentTime - initialTime) % SECOND;
    }

    /** Counts `reported` bytes from the last update to now. */
    method Measure(now: nat, reported: nat)
      requires Shaped(Abs()) && circularCurrentTime <= now && totalSumBytes >= 0
      modifies this, circularBuf
      ensures Abs() == Measured(old(Abs()), now, reported)
      ensures circularCurrentTime == now && initialTime == old(initialTime) <= now
      ensures IsRate(totalSumBytes, if now == initialTime then 1 else now - initialTime, meanSpeed)
    {
      hide Within, Exceeding, Averaged, Share, CurrentPiece, IsRate;
      ghost var begun := Abs();
      var delta := reported;
      var elapsed := now - circularCurrentTime;
      if elapsed > 0 {
        if elapsed / SECOND <= circularBuf.Length {
          WithinFrame(begun, now, delta);
          UpdateWithinLimit(now, delta, elapsed);
        } else {
          ExceedingFrame(begun, now, delta);
          delta := UpdateExceedingLimit(now, delta, elapsed);
        }
      } else {
        circularBuf[circularCurrentIndex] := circularBuf[circularCurrentIndex] + delta;
        assert circularBuf[..] == begun.buf[begun.index := begun.buf[begun.index] + delta];
      }
      circularCurrentSum := circularCurrentSum + delta;
      totalSumBytes := totalSumBytes + delta;
      meanSpeed := Share(SECOND, Max(1, now - initialTime), totalSumBytes);
      MeanIs(begun, now, reported);
    }

    method CalculateSpeed(now: nat, reported: int) returns (speed: int)
      requires Valid(now)
      modifies this, circularBuf
      ensures Valid(now) && old(Abs()).total >= 0 && Abs() == Calculate(old(Abs()), now, reported)
      ensures speed >= 0 && initialTime <= circularCurrentTime
      ensures old(Uninitialized(Abs())) && now == 0 ==> speed == 0
      ensures !(old(Uninitialized(Abs())) && now == 0) ==>
                && circularCurrentTime == now
                && IsSpeed(now - initialTime, circularBuf.Length, circularCurrentSum, speed)
                && IsRate(totalSumBytes, if now == initialTime then 1 else now - initialTime, meanSpeed)
    {
      hide Inv, Measured, Slots, Excess, Allowed, CircularMean, IsSpeed, IsRate;
      ghost var before, n := Abs(), circularBuf.Length;
      InvSums(before, n, now);
      InvStart(before, n, now);
      CalculateKeeps(before, n, now, reported);
      if initialTime == 0 || circularCurrentTime == 0 {
        if now == 0 {
          return 0;
        }
        StartedKeeps(before, n, now);
        RequestStarted(now);
        InvStart(Abs(), n, now);
      }
      Measure(now, if reported < 0 then 0 else reported);
      speed := GetCircularMeanSpeed(now);
    }

    method NextIndex()
      requires 0 < circularBuf.Length
      modifies this
      ensures Abs() == old(Abs()).(index := (old(circularCurrentIndex) + 1) % circularBuf.Length)
    {
      circularCurrentIndex := (circularCurrentIndex + 1) % circularBuf.Length;
    }

    /** The next slot gives up its bytes and takes `value`. */
    method Replace(value: nat)
      requires Shaped(Abs())
      modifies this, circularBuf
      ensures Abs() == Advance(old(Abs()), value)
    {
      NextIndex();
      circularCurrentSum := circularCurrentSum - circularBuf[circularCurrentIndex];
      circularBuf[circularCurrentIndex] := value;
    }

    method UpdateWithinLimit(now: nat, delta: nat, elapsed: nat)
      requires Shaped(Abs()) && circularCurrentTime < now && elapsed == now - circularCurrentTime
      modifies this, circularBuf
      ensures Abs() == Within(old(Abs()), now, delta)
    {
      hide Share, Advance, AdvanceBy;
      var offset := CurrentSecondOffset();
      var remaining := (SECOND - offset) % SECOND;
      var current := if elapsed < remaining then elapsed else remaining;
      circularBuf[circularCurrentIndex] := circularBuf[circularCurrentIndex] + Share(current, elapsed, delta);
      circularCurrentTime := now;
      ghost var first := Abs();
      if elapsed - current > 0 {
        var i := (elapsed - remaining) / SECOND;
        ghost var n := i;
        AdvanceOnce(first, 0, Share(SECOND, elapsed, delta));
        while i > 0
          invariant 0 <= i <= n && Abs() == AdvanceBy(first, n - i, Share(SECOND, elapsed, delta))
        {
          i := i - 1;
          AdvanceOnce(first, n - i - 1, Share(SECOND, elapsed, delta));
          Replace(Share(SECOND, elapsed, delta));
        }
        offset := CurrentSecondOffset();
        Replace(Share(offset, elapsed, delta));
      }
    }

    /** Fills the buffer with the mean; `counted` is what the buffer then holds. */
    method UpdateExceedingLimit(now: nat, delta: nat, elapsed: nat) returns (counted: nat)
      requires Shaped(Abs()) && circularCurrentTime < now && elapsed == now - circularCurrentTime
      modifies this, circularBuf
      ensures Abs() == Exceeding(old(Abs()), now, delta) && counted == Averaged(old(Abs()), now, delta)
    {
      hide Share;
      var each := Share(SECOND, elapsed, delta);
      forall i | 0 <= i < circularBuf.Length {
        circularBuf[i] := each;
      }
      circularCurrentIndex := (circularCurrentIndex + elapsed / SECOND) % circularBuf.Length;
      counted := each * (circularBuf.Length - 1);
      circularCurrentTime := now;
      var offset := CurrentSecondOffset();
      if offset != 0 {
        var current := Share(offset, SECOND, each);
        circularBuf[circularCurrentIndex] := current;
        counted := counted + current;
      } else {
        NoShare(SECOND, each);
        circularBuf[circularCurrentIndex] := 0;
      }
      circularCurrentSum := 0;
      assert circularBuf[..] == Exceeding(old(Abs()), now, delta).buf;
    }
  }

  lemma AdvanceOnce(s: State, n: nat, value: nat)
    requires Shaped(s)
    ensures AdvanceBy(s, 0, value) == s
    ensures AdvanceBy(s, n + 1, value) == Advance(AdvanceBy(s, n, value), value)
  {
  }

  lemma NoShare(whole: int, bytes: nat)
    ensures Share(0, whole, bytes) == 0
  {
  }
}
