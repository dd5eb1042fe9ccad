/** Whole runs of the splitter: a document delivered in any chunks, with any pauses. */
module SplitterRuns {
  import opened Wrappers
  import opened JsonScan
  import opened Brackets
  import opened SplitterSpec

  const Never := (p: nat) => false

  /** The first call announces itself to the callback of the empty key. */
  function Begin(f: FiltersChain, st: State): State {
    if !st.starting then st else
    match Find(f, "")
    case None => st.(starting := false)
    case Some(cb) =>
      var st1 := Log(st, Started);
      if !cb("") then Fail(f, st1) else st1.(starting := false)
  }

  /** Steps until the chunk is used up, a callback pauses, or the stream has finished or failed. */
  function Loop(f: FiltersChain, pauses: nat -> bool, buf: string, base: nat, st: State): (State, bool)
    requires Within(buf, base, st)
    decreases base + |buf| - st.pos
  {
    match Step(f, pauses, buf, base, st)
    case Stuck => (st, false)
    case Pause => (st, true)
    case Next(st') =>
      StepAdvances(f, pauses, buf, base, st);
      if st'.status != Running then (st', false) else Loop(f, pauses, buf, base, st')
  }

  /** One call: the new state and whether it paused. */
  function Call(f: FiltersChain, pauses: nat -> bool, buf: string, base: nat, st: State): (State, bool)
    requires st.status == Running ==> Within(buf, base, st)
  {
    if st.status != Running then (st, false) else
    var st1 := Begin(f, st);
    if st1.status != Running then (st1, false) else Loop(f, pauses, buf, base, st1)
  }

  /** A request to process the stream up to `end`; `pauses` are the strings whose callback pauses this time. */
  datatype Request = Request(end: nat, pauses: nat -> bool)

  /** The caller only ever appends to its buffer. */
  ghost predicate Schedule(doc: string, lo: nat, calls: seq<Request>) {
    && (forall i :: 0 <= i < |calls| ==> lo <= calls[i].end <= |doc|)
    && (forall i, j :: 0 <= i < j < |calls| ==> calls[i].end <= calls[j].end)
  }

  ghost predicate Ready(lo: nat, st: State) {
    st.status == Running ==> Valid(st) && st.pos <= lo
  }

  lemma LoopReady(f: FiltersChain, pauses: nat -> bool, buf: string, base: nat, st: State)
    requires Within(buf, base, st)
    ensures Ready(base + |buf|, Loop(f, pauses, buf, base, st).0)
    decreases base + |buf| - st.pos
  {
    if Step(f, pauses, buf, base, st).Next? {
      StepAdvances(f, pauses, buf, base, st);
    }
  }

  /** The caller drops exactly the bytes that earlier calls consumed: the chunk starts at `last`. */
  function Deliver(f: FiltersChain, doc: string, r: Request, st: State): (res: (State, bool))
    requires r.end <= |doc| && Ready(r.end, st)
    ensures Ready(r.end, res.0)
  {
    if st.status != Running then (st, false) else
    var buf := doc[st.last..r.end];
    var st1 := Begin(f, st);
    if st1.status == Running then
      LoopReady(f, r.pauses, buf, st.last, st1);
      Call(f, r.pauses, buf, st.last, st)
    else
      Call(f, r.pauses, buf, st.last, st)
  }

  /** A sequence of calls: the final state and whether the last call paused. */
  function Run(f: FiltersChain, doc: string, lo: nat, calls: seq<Request>, st: State): (State, bool)
    requires Ready(lo, st) && lo <= |doc| && Schedule(doc, lo, calls)
    decreases |calls|
  {
    if calls == [] then (st, false) else
    var res := Deliver(f, doc, calls[0], st);
    if |calls| == 1 then res else Run(f, doc, calls[0].end, calls[1..], res.0)
  }

  /** Everything has been offered to the splitter and its last call did not pause. */
  ghost predicate Complete(f: FiltersChain, doc: string, calls: seq<Request>) {
    && Schedule(doc, 0, calls)
    && calls != [] && calls[|calls| - 1].end == |doc|
    && !Run(f, doc, 0, calls, Init).1
  }

  /** The same document in a single call. */
  function Whole(f: FiltersChain, doc: string): State {
    Call(f, Never, doc, 0, Init).0
  }

  /** The state after n steps of the single call. */
  function After(f: FiltersChain, doc: string, n: nat): (st: State)
    ensures st.status == Running ==> Within(doc, 0, st) && !st.starting
  {
    if n == 0 then Begin(f, Init) else
    var st := After(f, doc, n - 1);
    if st.status != Running then st else
    match Step(f, Never, doc, 0, st)
    case Next(st') => StepAdvances(f, Never, doc, 0, st); st'
    case _ => st
  }

  /** The outermost object is about to close while the retained text, which does not start the
      document, looks like an error response and choosing between the two callbacks matters. */
  ghost predicate Collides(f: FiltersChain, doc: string, st: State) {
    && st.status == Running && Within(doc, 0, st)
    && st.pos < |doc| && doc[st.pos] == '}'
    && |st.stack| == 1 && Top(st) == '{' && st.want >= 0
    && st.last > 0 && ErrorChunk(doc[st.last..])
    && (Find(f, "#").Some? || Find(f, st.path).Some?)
  }

  ghost predicate DependsOnChunks(f: FiltersChain, doc: string) {
    exists n: nat :: Collides(f, doc, After(f, doc, n))
  }

  // ----- One step: what a chunk decides, the document decides too

  /** A closing brace inside the text settles the error test. */
  lemma ErrorTestSettled(s: string, t: string, k: nat)
    requires k < |s| && s[k] == '}'
    ensures ErrorChunk(s) <==> ErrorChunk(s + t)
  {
    if ErrorChunk(s + t) {
      assert forall i :: 0 <= i < |ERROR_PREFIX| ==> ERROR_PREFIX[i] != '}';
      assert (s + t)[k] == '}';
      assert forall i :: 0 <= i < |ERROR_PREFIX| ==> (s + t)[i] == ERROR_PREFIX[i];
      assert s[..|ERROR_PREFIX|] == (s + t)[..|ERROR_PREFIX|];
    }
  }

  lemma SliceOfSlice(s: string, lo: nat, hi: nat, i: nat, j: nat)
    requires lo <= i <= j <= hi <= |s|
    ensures s[lo..hi][i - lo..j - lo] == s[i..j]
  {
    assert |s[lo..hi][i - lo..j - lo]| == j - i;
    assert forall k :: 0 <= k < j - i ==> s[lo..hi][i - lo..j - lo][k] == s[i..j][k];
  }

  /** The key a chunk gives to a closing bracket is the one the document gives, or neither key has a callback. */
  lemma WindowKey(f: FiltersChain, doc: string, lo: nat, hi: nat, st: State)
    requires Valid(st) && lo <= st.last && st.pos < hi <= |doc| && st.status == Running
    requires st.last == lo ==> !Collides(f, doc, st)
    requires st.want >= 0 && st.stack != [] && (doc[st.pos] == '}' ==> Top(st) == '{')
    ensures var k1, k2 := CloseKey(doc[lo..hi], lo, doc[st.pos], st), CloseKey(doc, 0, doc[st.pos], st);
            k1 == k2 || (Find(f, k1).None? && Find(f, k2).None?)
  {
    hide Find, ErrorChunk, Concat;
    var buf := doc[lo..hi];
    if |st.stack| == 1 && doc[st.pos] == '}' && st.last == lo {
      ErrorTestSettled(buf, doc[hi..], st.pos - lo);
      assert buf + doc[hi..] == doc[lo..];
      if lo == 0 {
        assert doc[0..] == doc;
      }
    }
  }

  lemma NoCallbackSame(f: FiltersChain, k1: string, k2: string, t1: string, t2: string, st: State)
    requires Valid(st) && st.stack != [] && Find(f, k1).None? && Find(f, k2).None?
    ensures CloseMatched(f, k1, t1, st) == CloseMatched(f, k2, t2, st)
  {
    hide Find, Leave, Concat;
  }

  lemma CloseWindow(f: FiltersChain, doc: string, lo: nat, hi: nat, st: State)
    requires Valid(st) && lo <= st.last && st.pos < hi <= |doc|
    requires IsClose(doc[st.pos]) && st.status == Running
    requires st.last == lo ==> !Collides(f, doc, st)
    ensures CloseStep(f, doc[lo..hi], lo, doc[st.pos], st) == CloseStep(f, doc, 0, doc[st.pos], st)
  {
    hide CloseMatched, CloseKey, Find, Fail, Concat, Collides;
    var c := doc[st.pos];
    var buf := doc[lo..hi];
    SliceOfSlice(doc, lo, hi, st.last, st.pos + 1);
    if st.want >= 0 && st.stack != [] && (c == '}' ==> Top(st) == '{') {
      WindowKey(f, doc, lo, hi, st);
      var k1, k2 := CloseKey(buf, lo, c, st), CloseKey(doc, 0, c, st);
      if k1 != k2 {
        NoCallbackSame(f, k1, k2, buf[st.last - lo..st.pos + 1 - lo], doc[st.last..st.pos + 1], st);
      }
    }
  }

  lemma StringWindow(f: FiltersChain, pauses: nat -> bool, rest: string, more: string, st: State)
    requires rest != ""
    requires StringStep(f, pauses, rest, st).Next?
    ensures StringStep(f, Never, rest + more, st) == StringStep(f, pauses, rest, st)
  {
    ClosingQuoteExtend(rest, more, 1, false);
    var t := StrEnd(rest).value;
    assert (rest + more)[..t] == rest[..t];
    assert (rest + more)[1..t - 1] == rest[1..t - 1];
  }

  lemma NumberWindow(f: FiltersChain, rest: string, more: string, st: State)
    requires NumberStep(f, rest, st).Next?
    ensures NumberStep(f, rest + more, st) == NumberStep(f, rest, st)
  {
    if st.want != 0 {
      NumEndExtend(rest, more);
      assert (rest + more)[..NumEnd(rest)] == rest[..NumEnd(rest)];
    }
  }

  /** A token step taken on a chunk is the step taken on the whole document. */
  lemma StepWindow(f: FiltersChain, pauses: nat -> bool, doc: string, lo: nat, hi: nat, st: State)
    requires Valid(st) && lo <= st.last && st.pos <= hi <= |doc| && st.status == Running
    requires Step(f, pauses, doc[lo..hi], lo, st).Next?
    requires st.last == lo ==> !Collides(f, doc, st)
    ensures Step(f, Never, doc, 0, st) == Step(f, pauses, doc[lo..hi], lo, st)
  {
    var buf := doc[lo..hi];
    var rest := buf[st.pos - lo..];
    var c := rest[0];
    assert c == doc[st.pos];
    assert doc[st.pos..] == rest + doc[hi..];
    if IsClose(c) {
      CloseWindow(f, doc, lo, hi, st);
    } else if c == QUOTE {
      StringWindow(f, pauses, rest, doc[hi..], st);
    } else if StartsNumber(c) {
      NumberWindow(f, rest, doc[hi..], st);
    }
  }

  // ----- Runs: every call moves along the single call

  /** The single call has nothing left to do in this state. */
  ghost predicate AtRest(f: FiltersChain, doc: string, st: State) {
    st.status == Running ==> Within(doc, 0, st) && !Step(f, Never, doc, 0, st).Next?
  }

  /** Where a chunk's steps lead lies on the single call. */
  lemma LoopOnRun(f: FiltersChain, pauses: nat -> bool, doc: string, lo: nat, hi: nat, n: nat) returns (m: nat)
    requires var st := After(f, doc, n); st.status == Running && lo <= st.last && st.pos <= hi <= |doc|
    requires forall k: nat :: After(f, doc, k).last == lo ==> !Collides(f, doc, After(f, doc, k))
    ensures m >= n && Loop(f, pauses, doc[lo..hi], lo, After(f, doc, n)).0 == After(f, doc, m)
    decreases hi - After(f, doc, n).pos
  {
    hide Step;
    var st := After(f, doc, n);
    m := n;
    if Step(f, pauses, doc[lo..hi], lo, st).Next? {
      StepWindow(f, pauses, doc, lo, hi, st);
      StepAdvances(f, pauses, doc[lo..hi], lo, st);
      assert After(f, doc, n + 1) == Step(f, pauses, doc[lo..hi], lo, st).st;
      m := n + 1;
      if After(f, doc, n + 1).status == Running {
        m := LoopOnRun(f, pauses, doc, lo, hi, n + 1);
      }
    }
  }

  /** A call that stops on the last character of the document without pausing leaves nothing to do. */
  lemma LoopToEnd(f: FiltersChain, pauses: nat -> bool, doc: string, lo: nat, st: State)
    requires Valid(st) && lo <= st.last && st.pos <= |doc|
    requires !Loop(f, pauses, doc[lo..], lo, st).1
    ensures var st' := Loop(f, pauses, doc[lo..], lo, st).0;
            st'.status == Running ==> Within(doc[lo..], lo, st') && Step(f, pauses, doc[lo..], lo, st').Stuck?
    decreases |doc| - st.pos
  {
    if Step(f, pauses, doc[lo..], lo, st).Next? {
      StepAdvances(f, pauses, doc[lo..], lo, st);
    }
  }

  /** A token cut off by the end of the document is cut off in the single call. */
  lemma StuckAtEnd(f: FiltersChain, pauses: nat -> bool, doc: string, lo: nat, st: State)
    requires Valid(st) && lo <= st.last && st.pos <= |doc|
    requires Step(f, pauses, doc[lo..], lo, st).Stuck?
    ensures Step(f, Never, doc, 0, st).Stuck?
  {
    if st.pos < |doc| {
      assert doc[lo..][st.pos - lo..] == doc[st.pos..];
    }
  }

  /** The single call ends in the state at rest. */
  lemma {:induction false} WholeFrom(f: FiltersChain, doc: string, k: nat, n: nat)
    requires k <= n && AtRest(f, doc, After(f, doc, n)) && After(f, doc, k).status == Running
    ensures Loop(f, Never, doc, 0, After(f, doc, k)).0 == After(f, doc, n)
    decreases n - k
  {
    hide Step;
    var st := After(f, doc, k);
    if Step(f, Never, doc, 0, st).Next? {
      if k < n {
        assert After(f, doc, k + 1) == Step(f, Never, doc, 0, st).st;
        if After(f, doc, k + 1).status == Running {
          WholeFrom(f, doc, k + 1, n);
        } else {
          Frozen(f, doc, k + 1, n);
        }
      }
    } else {
      Frozen(f, doc, k, n);
    }
  }

  lemma {:induction false} Frozen(f: FiltersChain, doc: string, k: nat, n: nat)
    requires k <= n && AtRest(f, doc, After(f, doc, k))
    ensures After(f, doc, n) == After(f, doc, k)
  {
    hide Step;
    if k < n {
      Frozen(f, doc, k, n - 1);
    }
  }

  lemma WholeIsAfter(f: FiltersChain, doc: string, n: nat)
    requires AtRest(f, doc, After(f, doc, n))
    ensures Whole(f, doc) == After(f, doc, n)
  {
    if After(f, doc, 0).status == Running {
      WholeFrom(f, doc, 0, n);
    } else {
      Frozen(f, doc, 0, n);
    }
  }

  /** One call from a state of the single call. */
  lemma DeliverOnRun(f: FiltersChain, doc: string, r: Request, st: State, n: nat) returns (m: nat)
    requires st == After(f, doc, n) || (st == Init && n == 0)
    requires r.end <= |doc| && Ready(r.end, st) && !DependsOnChunks(f, doc)
    ensures Deliver(f, doc, r, st).0 == After(f, doc, m)
    ensures r.end == |doc| && !Deliver(f, doc, r, st).1 ==> AtRest(f, doc, After(f, doc, m))
  {
    m := n;
    var st1 := Begin(f, st);
    assert st.status == Running ==> st1 == After(f, doc, n);
    if st.status == Running && st1.status == Running {
      m := LoopOnRun(f, r.pauses, doc, st.last, r.end, n);
      if r.end == |doc| && !Deliver(f, doc, r, st).1 {
        assert doc[st.last..r.end] == doc[st.last..];
        LoopToEnd(f, r.pauses, doc, st.last, st1);
        var st' := After(f, doc, m);
        if st'.status == Running {
          StuckAtEnd(f, r.pauses, doc, st.last, st');
        }
      }
    }
  }

  lemma {:induction false} RunOnRun(f: FiltersChain, doc: string, lo: nat, calls: seq<Request>, st: State, n: nat)
    requires st == After(f, doc, n) || (st == Init && n == 0)
    requires Ready(lo, st) && lo <= |doc| && Schedule(doc, lo, calls) && !DependsOnChunks(f, doc)
    requires calls != [] && calls[|calls| - 1].end == |doc| && !Run(f, doc, lo, calls, st).1
    ensures Run(f, doc, lo, calls, st).0 == Whole(f, doc)
    decreases |calls|
  {
    var m := DeliverOnRun(f, doc, calls[0], st, n);
    if |calls| == 1 {
      WholeIsAfter(f, doc, m);
    } else {
      RunOnRun(f, doc, calls[0].end, calls[1..], Deliver(f, doc, calls[0], st).0, m);
    }
  }

  // ----- The converse: a colliding document has two chunkings that disagree

  lemma {:induction false} ClosingQuoteShrink(s: string, t: string, i: nat, esc: bool)
    requires i <= |s|
    requires ClosingQuote(s + t, i, esc).Some? && ClosingQuote(s + t, i, esc).value < |s|
    ensures ClosingQuote(s, i, esc) == ClosingQuote(s + t, i, esc)
    decreases |s| - i
  {
    if i < |s| {
      if esc {
        ClosingQuoteShrink(s, t, i + 1, false);
      } else if s[i] != QUOTE {
        ClosingQuoteShrink(s, t, i + 1, s[i] == BACKSLASH);
      }
    }
  }

  lemma {:induction false} NumEndAll(s: string, t: string)
    requires NumEnd(s) == |s|
    ensures NumEnd(s + t) >= |s|
  {
    if s != "" {
      NumEndAll(s[1..], t);
      assert (s + t)[1..] == s[1..] + t;
    }
  }

  /** A complete token is only held back when it is a number that touches the end of the chunk. */
  lemma HeldBack(f: FiltersChain, doc: string, hi: nat, st: State)
    requires Valid(st) && st.status == Running && st.pos < hi <= |doc|
    requires !Step(f, Never, doc[..hi], 0, st).Next? && Step(f, Never, doc, 0, st).Next?
    requires var st' := Step(f, Never, doc, 0, st).st; st'.status == Running && st'.pos <= hi
    ensures var st' := Step(f, Never, doc, 0, st).st; st'.pos == hi && st'.last == st.last
    ensures !IsClose(doc[st.pos])
  {
    hide OpenStep, CloseStep, CommaStep, Find, Concat;
    var rest := doc[..hi][st.pos..];
    assert doc[st.pos..] == rest + doc[hi..];
    if rest[0] == QUOTE {
      var t := StrEnd(rest + doc[hi..]).value;
      if t <= |rest| {
        ClosingQuoteShrink(rest, doc[hi..], 1, false);
      }
    } else if StartsNumber(rest[0]) {
      NumEndAll(rest, doc[hi..]);
    }
  }

  lemma NeverPauses(f: FiltersChain, buf: string, base: nat, st: State)
    requires Within(buf, base, st)
    ensures !Loop(f, Never, buf, base, st).1
    decreases base + |buf| - st.pos
  {
    if Step(f, Never, buf, base, st).Next? {
      StepAdvances(f, Never, buf, base, st);
    }
  }

  lemma {:induction false} PosGrows(f: FiltersChain, doc: string, k: nat, n: nat)
    requires k <= n && After(f, doc, n).status == Running
    ensures After(f, doc, k).status == Running
    ensures After(f, doc, k) == After(f, doc, n) || After(f, doc, k).pos < After(f, doc, n).pos
  {
    hide Step;
    if k < n {
      var st := After(f, doc, n - 1);
      if st.status == Running && Step(f, Never, doc, 0, st).Next? {
        StepAdvances(f, Never, doc, 0, st);
      }
      PosGrows(f, doc, k, n - 1);
    }
  }

  /** The call on the text before a reached position stops there, or at the number just before. */
  ghost predicate StopsBefore(f: FiltersChain, doc: string, st: State, st': State) {
    || st == st'
    || (st.status == Running && Within(doc, 0, st) && Step(f, Never, doc, 0, st) == Next(st')
        && st.last == st'.last && !st.starting && st.pos < |doc| && !IsClose(doc[st.pos]))
  }

  lemma {:induction false} PrefixLoop(f: FiltersChain, doc: string, k: nat, n: nat)
    requires k <= n && After(f, doc, n).status == Running && After(f, doc, k).status == Running
    requires After(f, doc, k).pos <= After(f, doc, n).pos
    ensures StopsBefore(f, doc, Loop(f, Never, doc[..After(f, doc, n).pos], 0, After(f, doc, k)).0, After(f, doc, n))
    decreases n - k
  {
    hide Step;
    var st := After(f, doc, k);
    var hi := After(f, doc, n).pos;
    PosGrows(f, doc, k, n);
    if st == After(f, doc, n) {
      StuckWhenDone(f, doc[..hi], st);
    } else {
      assert !AtRest(f, doc, st) by {
        if AtRest(f, doc, st) { Frozen(f, doc, k, n); }
      }
      assert After(f, doc, k + 1) == Step(f, Never, doc, 0, st).st;
      PosGrows(f, doc, k + 1, n);
      if Step(f, Never, doc[..hi], 0, st).Next? {
        assert doc[0..hi] == doc[..hi];
        StepWindow(f, Never, doc, 0, hi, st);
        PrefixLoop(f, doc, k + 1, n);
      } else {
        HeldBack(f, doc, hi, st);
        NeverPauses(f, doc[..hi], 0, st);
      }
    }
  }

  lemma StuckWhenDone(f: FiltersChain, buf: string, st: State)
    requires Within(buf, 0, st) && st.pos == |buf|
    ensures Step(f, Never, buf, 0, st).Stuck?
  {
  }

  /** Away from closing brackets a step does not look at where the chunk starts. */
  lemma StepRebase(f: FiltersChain, doc: string, lo: nat, st: State)
    requires Valid(st) && lo <= st.last && st.pos < |doc| && !IsClose(doc[st.pos])
    ensures Step(f, Never, doc[lo..], lo, st) == Step(f, Never, doc, 0, st)
  {
    assert doc[lo..][st.pos - lo..] == doc[st.pos..];
  }

  /** Delivering under two different keys leaves two different logs. */
  lemma KeysDiffer(f: FiltersChain, k1: string, k2: string, t1: string, t2: string, st: State)
    requires Valid(st) && |st.stack| == 1 && k1 != k2
    requires Find(f, k1).Some? || Find(f, k2).Some?
    ensures CloseMatched(f, k1, t1, st).log != CloseMatched(f, k2, t2, st).log
    ensures CloseMatched(f, k1, t1, st).status != Running
  {
    var n := |st.log|;
    var l1 := CloseMatched(f, k1, t1, st).log;
    var l2 := CloseMatched(f, k2, t2, st).log;
    assert Find(f, k1).Some? ==> |l1| > n && l1[n] == Delivered(Container, k1, t1, st.last);
    assert Find(f, k2).Some? ==> |l2| > n && l2[n] == Delivered(Container, k2, t2, st.last);
    assert Find(f, k1).None? ==> |l1| == n;
    assert Find(f, k2).None? ==> |l2| == n;
  }

  /** At the colliding close the call that starts there and the single call part ways. */
  lemma CollidingClose(f: FiltersChain, doc: string, st: State)
    requires Collides(f, doc, st)
    ensures var r := Step(f, Never, doc[st.last..], st.last, st);
            var w := Step(f, Never, doc, 0, st);
            r.Next? && w.Next? && r.st.log != w.st.log && r.st.status != Running && w.st.status != Running
  {
    hide CloseMatched;
    var buf := doc[st.last..];
    assert buf[st.pos - st.last..][0] == '}';
    assert st.path == st.stack[0] by { assert Concat(st.stack[..0]) == ""; }
    var t := buf[..st.pos + 1 - st.last];
    assert buf[st.last - st.last..st.pos + 1 - st.last] == t;
    KeysDiffer(f, "#", st.path, t, doc[st.last..st.pos + 1], st);
    KeysDiffer(f, st.path, "#", doc[st.last..st.pos + 1], t, st);
  }

  /** The second of the two calls. */
  lemma SecondCall(f: FiltersChain, doc: string, s1: State, st: State)
    requires Collides(f, doc, st) && s1.status == Running && Within(doc, 0, s1) && StopsBefore(f, doc, s1, st)
    ensures Loop(f, Never, doc[st.last..], st.last, s1).0.log != Step(f, Never, doc, 0, st).st.log
  {
    hide Step;
    CollidingClose(f, doc, st);
    if s1 != st {
      StepRebase(f, doc, st.last, s1);
    }
  }

  lemma TwoCalls(f: FiltersChain, doc: string, mid: nat)
    requires mid <= |doc|
    ensures var r1, r2 := Request(mid, Never), Request(|doc|, Never);
            Run(f, doc, 0, [r1, r2], Init) == Deliver(f, doc, r2, Deliver(f, doc, r1, Init).0)
  {
    hide Deliver;
    var r1, r2 := Request(mid, Never), Request(|doc|, Never);
    assert [r1, r2][1..] == [r2];
    assert Ready(mid, Deliver(f, doc, r1, Init).0);
    var s1 := Deliver(f, doc, r1, Init).0;
    assert Run(f, doc, mid, [r2], s1) == Deliver(f, doc, r2, s1);
  }

  lemma Disagreement(f: FiltersChain, doc: string, n: nat) returns (calls: seq<Request>)
    requires Collides(f, doc, After(f, doc, n))
    ensures Complete(f, doc, calls) && Run(f, doc, 0, calls, Init).0 != Whole(f, doc)
  {
    hide Step, Find;
    var st := After(f, doc, n);
    calls := [Request(st.pos, Never), Request(|doc|, Never)];
    PosGrows(f, doc, 0, n);
    PrefixLoop(f, doc, 0, n);
    TwoCalls(f, doc, st.pos);
    var s1 := Deliver(f, doc, calls[0], Init).0;
    assert s1 == Loop(f, Never, doc[..st.pos], 0, After(f, doc, 0)).0 by {
      assert doc[0..st.pos] == doc[..st.pos];
    }
    assert Deliver(f, doc, calls[1], s1) == Loop(f, Never, doc[st.last..], st.last, s1) by {
      assert doc[st.last..|doc|] == doc[st.last..];
    }
    SecondCall(f, doc, s1, st);
    NeverPauses(f, doc[st.last..], st.last, s1);
    CollidingClose(f, doc, st);
    WholeIsAfter(f, doc, n + 1);
  }

  /** The headline: every way of chunking and pausing agrees with the single call, in all callbacks
      and in the final state, exactly for the documents without a colliding close. */
  lemma ChunkIndependence(f: FiltersChain, doc: string)
    ensures (forall calls: seq<Request> :: Complete(f, doc, calls) ==> Run(f, doc, 0, calls, Init).0 == Whole(f, doc))
            <==> !DependsOnChunks(f, doc)
  {
    if DependsOnChunks(f, doc) {
      var n: nat :| Collides(f, doc, After(f, doc, n));
      var calls := Disagreement(f, doc, n);
    } else {
      forall calls: seq<Request> | Complete(f, doc, calls)
        ensures Run(f, doc, 0, calls, Init).0 == Whole(f, doc)
      {
        RunOnRun(f, doc, 0, calls, Init, 0);
      }
    }
  }

  /** The error prefix occurs at the start of the document or not at all. */
  ghost predicate ErrorOnlyAtStart(doc: string) {
    forall i :: 0 < i <= |doc| ==> !ErrorChunk(doc[i..])
  }

  /** A caller that looks for the error prefix past the first character has what it needs to know. */
  lemma ChunkIndependenceAtStart(f: FiltersChain, doc: string, calls: seq<Request>)
    requires ErrorOnlyAtStart(doc) && Complete(f, doc, calls)
    ensures Run(f, doc, 0, calls, Init).0 == Whole(f, doc)
  {
    ChunkIndependence(f, doc);
  }

  const Accept: Callback := (text: string) => true
  const ObjectFilter: FiltersChain := [Some(map["{" := Accept])]
  const Spaced := " {\"err\":1}"

  const Opened := Init.(starting := false, pos := 2, last := 1, stack := ["{"], path := "{", want := 0)
  const Named := Opened.(pos := 8, name := "err", want := -1)
  const AtClose := Named.(pos := 9, want := 0)

  lemma ObjectFilterFinds(k: string)
    ensures Find(ObjectFilter, k) == if k == "{" then Some(Accept) else None
  {
  }

  lemma SpacedOpen()
    ensures After(ObjectFilter, Spaced, 2) == Opened
  {
    ObjectFilterFinds("");
    ObjectFilterFinds("{");
    var s1 := Init.(starting := false, pos := 1);
    assert After(ObjectFilter, Spaced, 1) == s1;
    assert "" + ['{'] + "" == "{" && ['{'] + "" == "{";
    assert OpenStep(ObjectFilter, '{', s1) == Opened;
  }

  lemma SpacedName()
    ensures Step(ObjectFilter, Never, Spaced, 0, Opened) == Next(Named)
  {
    var rest := Spaced[2..];
    assert rest == "\"err\":1}";
    assert ClosingQuote(rest, 4, false) == Some(4);
    assert ClosingQuote(rest, 3, false) == Some(4);
    assert ClosingQuote(rest, 2, false) == Some(4);
    assert rest[1..4] == "err";
  }

  lemma SpacedNumber()
    ensures Step(ObjectFilter, Never, Spaced, 0, Named) == Next(AtClose)
  {
    assert Spaced[8..] == "1}";
    assert NumEnd("1}") == 1 by { assert "1}"[1..] == "}"; }
  }

  /** One space in front of an error response is enough: the callback it goes to depends on the chunks. */
  lemma SpacedErrorDependsOnChunks()
    ensures DependsOnChunks(ObjectFilter, Spaced)
  {
    SpacedOpen();
    SpacedName();
    SpacedNumber();
    ObjectFilterFinds("{");
    hide Step, Find;
    assert After(ObjectFilter, Spaced, 3) == Named;
    assert After(ObjectFilter, Spaced, 4) == AtClose;
    assert Collides(ObjectFilter, Spaced, AtClose);
  }
}
