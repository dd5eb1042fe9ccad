/** The splitter as the object that callers hold: fields updated in place, one chunk per call. */
module JSONSplitters {
  import opened Wrappers
  import opened JsonScan
  import opened Brackets
  import opened SplitterSpec
  import opened SplitterRuns

  /** The first table of the chain that has the key wins. */
  method FindCallback(filters: FiltersChain, key: string) returns (r: Option<Callback>)
    ensures r == Find(filters, key)
  {
    var rest := filters;
    while rest != []
      invariant Find(rest, key) == Find(filters, key)
      decreases |rest|
    {
      if rest[0].Some? && key in rest[0].value {
        return Some(rest[0].value[key]);
      }
      rest := rest[1..];
    }
    return None;
  }

  /** The first quote at or after from, or the end of the data. */
  method NextQuote(data: string, from: nat) returns (ptr: nat)
    requires from <= |data|
    ensures from <= ptr <= |data| && (ptr < |data| ==> data[ptr] == QUOTE)
    ensures forall k :: from <= k < ptr ==> data[k] != QUOTE
  {
    ptr := from;
    while ptr < |data| && data[ptr] != QUOTE
      invariant from <= ptr <= |data|
      invariant forall k :: from <= k < ptr ==> data[k] != QUOTE
    {
      ptr := ptr + 1;
    }
  }

  /** The last character before ptr that is not a backslash, at the opening quote at the latest. */
  method BeforeBackslashes(s: string, ptr: nat) returns (e: nat)
    requires 0 < ptr <= |s| && s[0] == QUOTE
    ensures e < ptr && ptr - 1 - e == Backslashes(s, ptr)
  {
    e := ptr - 1;
    while s[e] == BACKSLASH
      invariant 0 <= e < ptr
      invariant Backslashes(s, ptr) == ptr - 1 - e + Backslashes(s, e + 1)
      decreases e
    {
      e := e - 1;
    }
  }

  /** Length of the string token that s starts with, found by the parity of the backslashes before each quote. */
  method StringEnd(s: string) returns (t: int)
    requires s != "" && s[0] == QUOTE
    ensures t < 0 <==> StrEnd(s).None?
    ensures t >= 0 ==> StrEnd(s) == Some(t)
  {
    var ptr := 0;
    while true
      invariant 0 <= ptr < |s|
      invariant ClosingQuote(s, 1, false) == ClosingQuote(s, ptr + 1, EscapedAt(s, ptr + 1))
      decreases |s| - ptr
    {
      var from := ptr + 1;
      ptr := NextQuote(s, from);
      ClosingQuoteSkip(s, from, ptr);
      if ptr == |s| {
        return -1;
      }
      var e := BeforeBackslashes(s, ptr);
      ParityIsFlag(s, ptr);
      if (ptr - e) % 2 == 1 {
        return ptr + 1;
      }
    }
  }

  /** Length of the number token that s starts with. */
  method NumberEnd(s: string) returns (j: nat)
    ensures j == NumEnd(s)
  {
    j := 0;
    while j < |s| && IsNumChar(s[j])
      invariant 0 <= j <= |s|
      invariant NumEnd(s) == j + NumEnd(s[j..])
    {
      assert s[j..][1..] == s[j + 1..];
      j := j + 1;
    }
  }

  /** Pauses given by positions in the chunk, as positions of the stream. */
  function Shift(pauses: nat -> bool, base: nat): nat -> bool {
    (q: nat) => q >= base && pauses(q - base)
  }

  /** The outcome of a token as a method reports it: held back, paused, or done in place. */
  ghost predicate Answers(r: StepResult, stuck: bool, paused: bool, before: State, now: State) {
    match r
    case Stuck => stuck && !paused && now == before
    case Pause => !stuck && paused && now == before
    case Next(st) => !stuck && !paused && now == st
  }

  /** The callbacks around every call on a chunk, with how many events there were by then. */
  datatype Hook = Opened(at: nat) | Closed(at: nat)

  /** What a call adds to the hooks: one at its start and one at its end, however it ends, where there is a callback. */
  function Around(filters: FiltersChain, before: nat, after: nat): seq<Hook> {
    (if Find(filters, "<").Some? then [Opened(before)] else [])
    + (if Find(filters, ">").Some? then [Closed(after)] else [])
  }

  class JSONSplitter {
    var mPos: nat             // index into the chunk of the current call
    var mLastPos: nat         // index after the last filtered value
    var mLastName: string
    var mStack: seq<string>
    var mCurrentPath: string
    var mProcessedBytes: nat  // bytes scanned but not given back
    var mExpectValue: int
    var mStarting: bool
    var mFinished: bool
    var mFailed: bool
    var mPaused: bool
    ghost var given: nat      // bytes given back so far: where the next chunk starts
    ghost var log: seq<Event>
    ghost var hooks: seq<Hook>

    ghost function StatusNow(): Status
      reads this
    {
      if mFailed then Failed else if mFinished then Finished else Running
    }

    /** The state inside a call on a chunk that starts at stream position base. */
    ghost function At(base: nat): State
      reads this
    {
      State(base + mPos, base + mLastPos, mStack, mCurrentPath, mLastName, mExpectValue, mStarting, StatusNow(), log)
    }

    /** The state between calls: the bytes given back plus the bytes pending are the scan position. */
    ghost function View(): State
      reads this
    {
      State(given + mProcessedBytes, given, mStack, mCurrentPath, mLastName, mExpectValue, mStarting, StatusNow(), log)
    }

    ghost predicate ValidSplitter()
      reads this
    {
      && !(mFailed && mFinished)
      && (mPaused ==> !mFailed && !mFinished)
      && (!mFailed ==> Valid(View()))
    }

    constructor ()
      ensures ValidSplitter() && View() == Init && !mPaused && hooks == []
    {
      mPos, mLastPos, mProcessedBytes := 0, 0, 0;
      mLastName, mStack, mCurrentPath := "", [], "";
      mExpectValue := 1;
      mStarting, mFinished, mFailed, mPaused := true, false, false, false;
      given, log, hooks := 0, [], [];
    }

    /** Reports a parsing error and stops for good; the callback for the end of the call follows in ProcessChunk. */
    method RaiseError(filters: FiltersChain, ghost base: nat)
      requires !mFailed && !mFinished
      modifies this`mFailed, this`log
      ensures At(base) == Fail(filters, old(At(base)))
    {
      var callback := FindCallback(filters, "E");
      if callback.Some? {
        log := log + [ParseError(base + mPos)];
      }
      mFailed := true;
    }

    /** An opening bracket. */
    method Open(filters: FiltersChain, c: char, ghost base: nat)
      requires IsOpen(c) && !mFailed && !mFinished
      modifies this`mPos, this`mLastPos, this`mLastName, this`mStack, this`mCurrentPath, this`mExpectValue,
               this`mFailed, this`log
      ensures At(base) == OpenStep(filters, c, old(At(base)))
    {
      if mExpectValue == 0 {
        RaiseError(filters, base);
        return;
      }
      mStack := mStack + [[c] + mLastName];
      mCurrentPath := NodeKey(mCurrentPath, c, mLastName);
      var callback := FindCallback(filters, mCurrentPath);
      if callback.Some? {
        mLastPos := mPos;
      }
      mPos := mPos + 1;
      mLastName := "";
      mExpectValue := if c == '[' then 1 else 0;
    }

    /** A closing bracket: delivers the value it completes, if a filter wants it. */
    method Close(filters: FiltersChain, data: string, c: char, ghost base: nat)
      requires IsClose(c) && !mFailed && !mFinished && Valid(At(base)) && mPos < |data|
      modifies this`mPos, this`mLastPos, this`mLastName, this`mStack, this`mCurrentPath, this`mExpectValue,
               this`mFailed, this`mFinished, this`log
      ensures !(mFailed && mFinished)
      ensures At(base) == CloseStep(filters, data, base, c, old(At(base)))
    {
      hide CloseMatched, Fail, Concat;
      if mExpectValue < 0 || mStack == [] {
        RaiseError(filters, base);
        return;
      }
      var open := mStack[|mStack| - 1][0];
      if (c == ']' && open != '[') || (c == '}' && open != '{') {
        RaiseError(filters, base);
        return;
      }
      var filter := mCurrentPath;
      if |mStack| == 1 && c == '}' && mLastPos == 0 && ERROR_PREFIX <= data {
        filter := "#";
      }
      Complete(filters, filter, data, base);
    }

    /** Hands the completed value to the callback of its key, then drops its bracket. */
    method Complete(filters: FiltersChain, filter: string, data: string, ghost base: nat)
      requires !mFailed && !mFinished && Valid(At(base)) && mPos < |data| && mStack != []
      modifies this`mPos, this`mLastPos, this`mLastName, this`mStack, this`mCurrentPath, this`mExpectValue,
               this`mFailed, this`mFinished, this`log
      ensures !(mFailed && mFinished)
      ensures At(base) == CloseMatched(filters, filter, data[old(mLastPos)..old(mPos) + 1], old(At(base)))
    {
      hide Leave, Fail, Find, Concat;
      PathHolds(At(base));
      mLastName := "";
      mPos := mPos + 1;
      var callback := FindCallback(filters, filter);
      if callback.Some? {
        var text := data[mLastPos..mPos];
        log := log + [Delivered(Container, filter, text, base + mLastPos)];
        if !callback.value(text) {
          RaiseError(filters, base);
          return;
        }
        mLastPos := mPos;
      }
      LeaveBracket(base);
    }

    /** Drops the innermost bracket; the outermost one ends the stream. */
    method LeaveBracket(ghost base: nat)
      requires !mFailed && !mFinished && mStack != [] && |mStack[|mStack| - 1]| <= |mCurrentPath|
      modifies this`mLastPos, this`mStack, this`mCurrentPath, this`mExpectValue, this`mFinished
      ensures At(base) == Leave(old(At(base)))
    {
      mCurrentPath := mCurrentPath[..|mCurrentPath| - |mStack[|mStack| - 1]|];
      mStack := mStack[..|mStack| - 1];
      mExpectValue := 0;
      if mStack == [] {
        mLastPos := mPos;
        mFinished := true;
      }
    }

    method Comma(filters: FiltersChain, ghost base: nat)
      requires !mFailed && !mFinished && Valid(At(base))
      modifies this`mPos, this`mLastPos, this`mExpectValue, this`mFailed, this`log
      ensures At(base) == CommaStep(filters, old(At(base)))
    {
      if mExpectValue != 0 {
        RaiseError(filters, base);
        return;
      }
      if mLastPos == mPos {
        mLastPos := mLastPos + 1;
      }
      mPos := mPos + 1;
      if mStack == [] {
        RaiseError(filters, base);
        return;
      }
      mExpectValue := if mStack[|mStack| - 1][0] == '[' then 1 else 0;
    }

    /** A string that is a value: delivered if a filter wants it. */
    method StringValue(filters: FiltersChain, pauses: nat -> bool, token: string, ghost base: nat)
        returns (paused: bool)
      requires !mFailed && !mFinished
      modifies this`mPos, this`mLastPos, this`mLastName, this`mExpectValue, this`mFailed, this`log
      ensures Answers(StringValueStep(filters, Shift(pauses, base), token, old(At(base))),
                      false, paused, old(At(base)), At(base))
    {
      hide Find, Fail;
      var filter := StringKey(mCurrentPath, mLastName);
      var callback := FindCallback(filters, filter);
      if callback.Some? {
        if pauses(mPos) {
          return true;
        }
        log := log + [Delivered(Kind.StringValue, filter, token, base + mPos)];
        if !callback.value(token) {
          RaiseError(filters, base);
          return false;
        }
        mLastPos := mPos + |token|;
      }
      mPos := mPos + |token|;
      mExpectValue := 0;
      mLastName := "";
      return false;
    }

    /** A string: a value, or the name of the value that follows. */
    method Text(filters: FiltersChain, pauses: nat -> bool, data: string, ghost base: nat)
        returns (stuck: bool, paused: bool)
      requires !mFailed && !mFinished && mPos < |data| && data[mPos] == QUOTE
      modifies this`mPos, this`mLastPos, this`mLastName, this`mExpectValue, this`mFailed, this`log
      ensures Answers(StringStep(filters, Shift(pauses, base), data[old(mPos)..], old(At(base))),
                      stuck, paused, old(At(base)), At(base))
    {
      stuck, paused := false, false;
      var t := StringEnd(data[mPos..]);
      if t < 0 {
        return true, false;
      }
      ghost var rest := data[mPos..];
      assert data[mPos..mPos + t] == rest[..t];
      if mExpectValue != 0 {
        paused := StringValue(filters, pauses, data[mPos..mPos + t], base);
        return;
      }
      if mPos + t == |data| {
        return true, false;
      }
      if data[mPos + t] != ':' {
        RaiseError(filters, base);
        return;
      }
      assert data[mPos + 1..mPos + t - 1] == rest[1..t - 1];
      mLastName := data[mPos + 1..mPos + t - 1];
      mPos := mPos + t + 1;
      mExpectValue := -1;
    }

    /** A number; outside all brackets it is an error code and ends the stream. */
    method Numeral(filters: FiltersChain, data: string, ghost base: nat) returns (stuck: bool)
      requires !mFailed && !mFinished && mLastPos <= mPos < |data|
      modifies this`mPos, this`mLastPos, this`mExpectValue, this`mFailed, this`mFinished, this`log
      ensures !(mFailed && mFinished)
      ensures Answers(NumberStep(filters, data[old(mPos)..], old(At(base))), stuck, false, old(At(base)), At(base))
    {
      hide RootNumberStep, Fail;
      if mExpectValue == 0 {
        RaiseError(filters, base);
        return false;
      }
      var j := NumberEnd(data[mPos..]);
      if mPos + j == |data| {
        return true;
      }
      ghost var rest := data[mPos..];
      assert data[mPos..mPos + j] == rest[..j];
      mPos := mPos + j;
      mExpectValue := 0;
      if mStack == [] {
        RootNumber(filters, data[mPos - j..mPos], base);
      }
      return false;
    }

    /** The number just read stands outside all brackets. */
    method RootNumber(filters: FiltersChain, token: string, ghost base: nat)
      requires !mFailed && !mFinished && |token| <= mPos
      modifies this`mLastPos, this`mFailed, this`mFinished, this`log
      ensures !(mFailed && mFinished)
      ensures At(base) == RootNumberStep(filters, token, old(At(base)))
    {
      if mLastPos == mPos - |token| {
        var callback := FindCallback(filters, "#");
        if callback.Some? {
          log := log + [Delivered(Number, "#", token, base + mLastPos)];
          if !callback.value(token) {
            RaiseError(filters, base);
            return;
          }
        }
      }
      mLastPos := mPos;
      mFinished := true;
    }

    /** One token of the chunk. */
    method Token(filters: FiltersChain, pauses: nat -> bool, data: string, ghost base: nat)
        returns (stuck: bool, paused: bool)
      requires !mFailed && !mFinished && Within(data, base, At(base)) && mPos < |data|
      modifies this`mPos, this`mLastPos, this`mLastName, this`mStack, this`mCurrentPath, this`mExpectValue,
               this`mFailed, this`mFinished, this`log
      ensures !(mFailed && mFinished)
      ensures Answers(Step(filters, Shift(pauses, base), data, base, old(At(base))),
                      stuck, paused, old(At(base)), At(base))
    {
      hide OpenStep, CloseStep, CommaStep, StringStep, NumberStep, Fail;
      stuck, paused := false, false;
      var c := data[mPos];
      assert data[mPos..][0] == c;
      if IsOpen(c) {
        Open(filters, c, base);
      } else if IsClose(c) {
        Close(filters, data, c, base);
      } else if c == ',' {
        Comma(filters, base);
      } else if c == QUOTE {
        stuck, paused := Text(filters, pauses, data, base);
      } else if StartsNumber(c) {
        stuck := Numeral(filters, data, base);
      } else if c == ' ' {
        mPos := mPos + 1;
      } else {
        RaiseError(filters, base);
      }
    }

    /** The first call of a stream tells the callback of the empty key. */
    method Start(filters: FiltersChain, ghost base: nat)
      requires !mFailed && !mFinished
      modifies this`mStarting, this`mFailed, this`log
      ensures At(base) == Begin(filters, old(At(base)))
    {
      if mStarting {
        var callback := FindCallback(filters, "");
        if callback.Some? {
          log := log + [Started];
          if !callback.value("") {
            RaiseError(filters, base);
            return;
          }
        }
        mStarting := false;
      }
    }

    /** Tokens until the chunk is used up, a callback pauses, or the stream has finished or failed. */
    method Consume(filters: FiltersChain, pauses: nat -> bool, data: string, ghost base: nat) returns (paused: bool)
      requires !mFailed && !mFinished && Within(data, base, At(base))
      modifies this`mPos, this`mLastPos, this`mLastName, this`mStack, this`mCurrentPath, this`mExpectValue,
               this`mFailed, this`mFinished, this`log
      ensures !(mFailed && mFinished) && (!mFailed ==> Within(data, base, At(base))) &&
              (paused ==> StatusNow() == Running)
      ensures Loop(filters, Shift(pauses, base), data, base, old(At(base))) == (At(base), paused)
    {
      hide Step;
      ghost var start, p := At(base), Shift(pauses, base);
      while mPos < |data| && !mFailed && !mFinished
        invariant !(mFailed && mFinished)
        invariant !mFailed ==> Within(data, base, At(base))
        invariant StatusNow() != Running ==> Loop(filters, p, data, base, start) == (At(base), false)
        invariant StatusNow() == Running ==>
                    Loop(filters, p, data, base, start) == Loop(filters, p, data, base, At(base))
        decreases StatusNow() == Running, |data| - mPos
      {
        if Step(filters, p, data, base, At(base)).Next? {
          StepAdvances(filters, p, data, base, At(base));
        }
        var stuck;
        stuck, paused := Token(filters, pauses, data, base);
        if stuck || paused {
          return;
        }
      }
      if !mFailed && !mFinished {
        NothingLeft(filters, p, data, base, At(base));
      }
      return false;
    }

    /** Runs the callback of a key; its answer changes nothing. */
    method Notify(filters: FiltersChain, key: string, ghost hook: Hook)
      modifies this`hooks
      ensures hooks == old(hooks) + if Find(filters, key).Some? then [hook] else []
    {
      var callback := FindCallback(filters, key);
      if callback.Some? {
        hooks := hooks + [hook];
      }
    }

    /** Enters a call: the scan goes on behind the bytes that are pending. */
    method Rewind()
      modifies this`mPaused, this`mLastPos, this`mPos, this`mProcessedBytes
      ensures At(given) == old(View()) && mPos == old(mProcessedBytes) && mLastPos == 0 && !mPaused
    {
      mPaused := false;
      mLastPos := 0;
      mPos := mProcessedBytes;
      mProcessedBytes := 0;
    }

    /** Leaves a call: the bytes before the last value that was delivered are given back. */
    method GiveBack() returns (consumed: nat)
      requires Valid(At(given))
      modifies this`mProcessedBytes, this`given
      ensures View() == old(At(given)) && given == old(given) + consumed
    {
      mProcessedBytes := mPos - mLastPos;
      given := given + mLastPos;
      return mLastPos;
    }

    /** The tokens of one call, between its two hooks. */
    method Process(filters: FiltersChain, pauses: nat -> bool, data: string) returns (consumed: nat)
      requires ValidSplitter() && !mFailed && !mFinished && mProcessedBytes <= |data|
      modifies this
      ensures ValidSplitter()
      ensures given == old(given) + consumed && hooks == old(hooks)
      ensures var r := Call(filters, Shift(pauses, old(given)), data, old(given), old(View()));
              && (if mFailed then r.0.status == Failed && r.0.log == log else r.0 == View())
              && mPaused == r.1
      ensures mFailed ==> consumed == 0
    {
      hide Loop, Begin, Valid, Shift, Find;
      ghost var base := given;
      Rewind();
      BeginShape(filters, At(base));
      Start(filters, base);
      if mFailed {
        return 0;
      }
      BeginValid(filters, old(View()));
      mPaused := Consume(filters, pauses, data, base);
      if mFailed {
        return 0;
      }
      consumed := GiveBack();
    }

    /** Processes a chunk that continues the stream after the bytes given back so far. `pauses` are the
        indices of the strings whose callback pauses this time. Returns how many bytes may be dropped. */
    method ProcessChunk(filters: FiltersChain, pauses: nat -> bool, data: string) returns (consumed: nat)
      requires ValidSplitter()
      requires !mFailed && !mFinished ==> mProcessedBytes <= |data|
      modifies this
      ensures ValidSplitter()
      ensures given == old(given) + consumed
      ensures var r := Call(filters, Shift(pauses, old(given)), data, old(given), old(View()));
              && (if mFailed then r.0.status == Failed && r.0.log == log else r.0 == View())
              && (old(StatusNow()) == Running ==> mPaused == r.1)
      ensures old(StatusNow()) != Running || mFailed ==> consumed == 0
      ensures hooks == old(hooks) + if old(StatusNow()) == Running then Around(filters, |old(log)|, |log|) else []
    {
      hide Loop, Begin, Valid;
      if mFailed || mFinished {
        return 0;
      }
      Notify(filters, "<", Opened(|log|));
      consumed := Process(filters, pauses, data);
      Notify(filters, ">", Closed(|log|));
    }
  }

  lemma NothingLeft(f: FiltersChain, pauses: nat -> bool, buf: string, base: nat, st: State)
    requires Within(buf, base, st) && st.pos == base + |buf|
    ensures Step(f, pauses, buf, base, st).Stuck?
  {
  }

  lemma BeginValid(f: FiltersChain, st: State)
    requires st.status == Running && Valid(st)
    ensures Begin(f, st).status == Running ==> Valid(Begin(f, st))
  {
  }

  /** Starting does not move the scan. */
  lemma BeginShape(f: FiltersChain, st: State)
    requires st.status == Running
    ensures var st' := Begin(f, st);
            st' == st.(starting := st'.starting, status := st'.status, log := st'.log) && st'.status != Finished
  {
  }
}
