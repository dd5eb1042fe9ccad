/** What every state that the splitter reaches satisfies, however the document is chunked. */
module SplitterInvariants {
  import opened Wrappers
  import opened JsonScan
  import opened Brackets
  import opened SplitterSpec
  import opened SplitterRuns

  /** The bracket stack of the splitter is the one an independent reading of the document has. */
  ghost predicate Tracks(doc: string, st: State) {
    && Valid(st) && st.pos <= |doc|
    && Scan(doc, st.pos).Lex? && !Scan(doc, st.pos).inString
    && |Scan(doc, st.pos).open| == |st.stack|
    && forall i :: 0 <= i < |st.stack| ==> Scan(doc, st.pos).open[i].c == st.stack[i][0]
  }

  /** The path of the i-th open bracket. */
  function PathTo(stack: seq<string>, i: nat): string
    requires i < |stack|
  {
    Concat(stack[..i + 1])
  }

  /** A callback is registered for key and none for a longer path below it. */
  ghost predicate Leaf(f: FiltersChain, key: string) {
    Find(f, key).Some? && forall k: string :: key < k ==> Find(f, k).None?
  }

  /** While a leaf value is open, the retained text starts at its opening bracket. */
  ghost predicate Retains(f: FiltersChain, doc: string, st: State)
    requires Tracks(doc, st)
  {
    forall i :: 0 <= i < |st.stack| && Leaf(f, PathTo(st.stack, i)) ==> st.last == Scan(doc, st.pos).open[i].at
  }

  /** What a delivered text is. */
  ghost predicate EventOk(f: FiltersChain, doc: string, e: Event) {
    e.Delivered? ==>
      && e.at + |e.text| <= |doc| && e.text == doc[e.at..e.at + |e.text|] && e.text != ""
      && Find(f, e.key).Some?
      && match e.kind
         case Container =>
           && IsClose(e.text[|e.text| - 1])
           && (e.key != "#" && Leaf(f, e.key) ==> Matching(doc, e.at, e.at + |e.text| - 1))
         case StringValue => StrEnd(doc[e.at..]) == Some(|e.text|)
         case Number => NumEnd(doc[e.at..]) == |e.text|
  }

  /** Delivered texts are disjoint and in stream order. */
  ghost predicate Ordered(log: seq<Event>) {
    forall i, j :: 0 <= i < j < |log| && log[i].Delivered? && log[j].Delivered?
      ==> log[i].at + |log[i].text| <= log[j].at
  }

  ghost predicate Bounded(log: seq<Event>, bound: nat) {
    forall i :: 0 <= i < |log| && log[i].Delivered? ==> log[i].at + |log[i].text| <= bound
  }

  ghost predicate LogOk(f: FiltersChain, doc: string, log: seq<Event>) {
    Ordered(log) && forall i :: 0 <= i < |log| ==> EventOk(f, doc, log[i])
  }

  ghost predicate Inv(f: FiltersChain, doc: string, st: State) {
    && LogOk(f, doc, st.log)
    && (st.status != Failed ==> Tracks(doc, st) && Retains(f, doc, st) && Bounded(st.log, st.last))
  }

  // ----- Paths

  lemma {:induction false} PrefixPath(stack: seq<string>, i: nat)
    requires i < |stack| && forall k :: 0 <= k < |stack| ==> stack[k] != ""
    ensures PathTo(stack, i) <= Concat(stack)
    ensures i + 1 < |stack| ==> PathTo(stack, i) < Concat(stack)
  {
    if i + 1 == |stack| {
      assert stack[..i + 1] == stack;
    } else {
      var below := stack[..|stack| - 1];
      PrefixPath(below, i);
      assert below[..i + 1] == stack[..i + 1];
      assert Concat(below) <= Concat(stack);
    }
  }

  // ----- The log

  lemma LogFail(f: FiltersChain, doc: string, st: State)
    requires LogOk(f, doc, st.log)
    ensures Inv(f, doc, Fail(f, st))
  {
  }

  lemma LogDelivers(f: FiltersChain, doc: string, log: seq<Event>, bound: nat, e: Event)
    requires LogOk(f, doc, log) && Bounded(log, bound) && EventOk(f, doc, e) && e.Delivered? && bound <= e.at
    ensures LogOk(f, doc, log + [e]) && Bounded(log + [e], e.at + |e.text|)
  {
  }

  // ----- One step

  lemma PushScan(doc: string, n: nat)
    requires n < |doc| && Scan(doc, n).Lex? && !Scan(doc, n).inString && IsOpen(doc[n])
    ensures Scan(doc, n + 1) == Scan(doc, n).(open := Scan(doc, n).open + [Bracket(doc[n], n)])
  {
  }

  lemma OpenTracks(f: FiltersChain, doc: string, st: State)
    requires Tracks(doc, st) && st.status == Running && st.pos < |doc| && IsOpen(doc[st.pos]) && st.want != 0
    ensures Tracks(doc, OpenStep(f, doc[st.pos], st))
    ensures Scan(doc, st.pos + 1).open == Scan(doc, st.pos).open + [Bracket(doc[st.pos], st.pos)]
  {
    hide Find, Concat, Scan, NodeKey;
    OpenValid(f, doc[st.pos], st);
    PushScan(doc, st.pos);
  }

  lemma OpenRetains(f: FiltersChain, doc: string, st: State, i: nat)
    requires Inv(f, doc, st) && st.status == Running && st.pos < |doc| && IsOpen(doc[st.pos]) && st.want != 0
    requires Tracks(doc, OpenStep(f, doc[st.pos], st)) && i <= |st.stack|
    requires Scan(doc, st.pos + 1).open == Scan(doc, st.pos).open + [Bracket(doc[st.pos], st.pos)]
    requires Leaf(f, PathTo(OpenStep(f, doc[st.pos], st).stack, i))
    ensures OpenStep(f, doc[st.pos], st).last == Scan(doc, st.pos + 1).open[i].at
  {
    hide Scan, LogOk, Bounded, Concat, Find;
    var st' := OpenStep(f, doc[st.pos], st);
    PrefixPath(st'.stack, i);
    if i < |st.stack| {
      assert st'.stack[..i + 1] == st.stack[..i + 1];
      assert Leaf(f, PathTo(st.stack, i));
    } else {
      assert st'.stack[..i + 1] == st'.stack;
    }
  }

  lemma OpenKeeps(f: FiltersChain, doc: string, st: State)
    requires Inv(f, doc, st) && st.status == Running && st.pos < |doc| && IsOpen(doc[st.pos])
    ensures Inv(f, doc, OpenStep(f, doc[st.pos], st))
  {
    hide Scan, LogOk, Leaf, Find, Concat, NodeKey;
    if st.want == 0 {
      LogFail(f, doc, st);
    } else {
      OpenTracks(f, doc, st);
      var st' := OpenStep(f, doc[st.pos], st);
      forall i | 0 <= i < |st'.stack| && Leaf(f, PathTo(st'.stack, i))
        ensures st'.last == Scan(doc, st'.pos).open[i].at
      {
        OpenRetains(f, doc, st, i);
      }
    }
  }

  /** The event of a closing bracket. */
  lemma CloseEvent(f: FiltersChain, doc: string, key: string, st: State)
    requires Inv(f, doc, st) && st.status == Running && st.pos < |doc| && st.stack != []
    requires IsClose(doc[st.pos]) && Pair(Top(st), doc[st.pos])
    requires key == st.path || key == "#"
    requires Find(f, key).Some?
    ensures EventOk(f, doc, Delivered(Container, key, doc[st.last..st.pos + 1], st.last))
  {
    if key != "#" && Leaf(f, key) {
      var n := |st.stack| - 1;
      assert st.stack[..n + 1] == st.stack;
      assert Leaf(f, PathTo(st.stack, n));
      ClosesMatching(doc, st.pos);
    }
  }

  lemma LeafBlocks(f: FiltersChain, key: string, longer: string)
    requires Leaf(f, key) && key < longer
    ensures Find(f, longer).None?
  {
  }

  /** The reading after the closing bracket. */
  lemma PopScan(doc: string, st: State)
    requires Tracks(doc, st) && st.pos < |doc| && st.stack != []
    requires IsClose(doc[st.pos]) && Pair(Top(st), doc[st.pos])
    ensures var l := Scan(doc, st.pos + 1); l.Lex? && !l.inString && l.open == Scan(doc, st.pos).open[..|st.stack| - 1]
  {
    hide Concat;
    assert Top(st) == Scan(doc, st.pos).open[|st.stack| - 1].c;
  }

  /** Dropping the innermost bracket keeps the stack in step with the reading. */
  lemma LeaveTracks(doc: string, st: State, last: nat, log: seq<Event>)
    requires Tracks(doc, st) && st.status == Running && st.pos < |doc| && st.stack != []
    requires IsClose(doc[st.pos]) && Pair(Top(st), doc[st.pos]) && st.last <= last <= st.pos + 1
    ensures |st.stack[|st.stack| - 1]| <= |st.path|
    ensures Tracks(doc, Leave(st.(name := "", pos := st.pos + 1, last := last, log := log)))
    ensures Scan(doc, st.pos + 1).open == Scan(doc, st.pos).open[..|st.stack| - 1]
  {
    hide Scan, Concat;
    PopScan(doc, st);
    PathHolds(st);
    LeaveValid(st.(name := "", pos := st.pos + 1, last := last, log := log));
  }

  /** Dropping the innermost bracket, delivered or not. */
  lemma LeaveKeeps(f: FiltersChain, doc: string, st: State, last: nat, log: seq<Event>)
    requires Inv(f, doc, st) && st.status == Running && st.pos < |doc| && st.stack != []
    requires IsClose(doc[st.pos]) && Pair(Top(st), doc[st.pos])
    requires st.last <= last <= st.pos + 1 && LogOk(f, doc, log) && Bounded(log, last)
    requires last != st.last && |st.stack| > 1 ==> Find(f, st.path).Some?
    ensures |st.stack[|st.stack| - 1]| <= |st.path|
    ensures Inv(f, doc, Leave(st.(name := "", pos := st.pos + 1, last := last, log := log)))
  {
    hide LogOk, Leaf, Scan, Concat, Valid;
    LeaveTracks(doc, st, last, log);
    var st' := Leave(st.(name := "", pos := st.pos + 1, last := last, log := log));
    forall i | 0 <= i < |st'.stack| && Leaf(f, PathTo(st'.stack, i))
      ensures st'.last == Scan(doc, st'.pos).open[i].at
    {
      StackSolid(st);
      PrefixPath(st.stack, i);
      assert st'.stack[..i + 1] == st.stack[..i + 1];
      assert Leaf(f, PathTo(st.stack, i));
      LeafBlocks(f, PathTo(st.stack, i), st.path);
    }
  }

  lemma StackSolid(st: State)
    requires Valid(st)
    ensures st.path == Concat(st.stack) && forall k :: 0 <= k < |st.stack| ==> st.stack[k] != ""
  {
  }

  lemma CloseKeeps(f: FiltersChain, doc: string, key: string, st: State)
    requires Inv(f, doc, st) && st.status == Running && st.pos < |doc| && st.stack != []
    requires IsClose(doc[st.pos]) && Pair(Top(st), doc[st.pos])
    requires key == st.path || (key == "#" && |st.stack| == 1)
    ensures Inv(f, doc, CloseMatched(f, key, doc[st.last..st.pos + 1], st))
  {
    hide LogOk, Retains, Bounded, Leave, EventOk, Tracks, Ordered;
    InvOpen(f, doc, st);
    var text := doc[st.last..st.pos + 1];
    match Find(f, key)
    case None =>
      LeaveKeeps(f, doc, st, st.last, st.log);
    case Some(cb) =>
      var e := Delivered(Container, key, text, st.last);
      assert e.at + |e.text| == st.pos + 1;
      CloseEvent(f, doc, key, st);
      LogDelivers(f, doc, st.log, st.last, e);
      if cb(text) {
        LeaveKeeps(f, doc, st, st.pos + 1, st.log + [e]);
      } else {
        LogFail(f, doc, Log(st.(name := "", pos := st.pos + 1), e));
      }
  }

  /** Moving on over text without brackets, with the retained start moved or not. */
  lemma MoveKeeps(f: FiltersChain, doc: string, st: State, st': State)
    requires Inv(f, doc, st) && st.status == Running && st'.status == Running
    requires st.pos <= st'.pos <= |doc| && Scan(doc, st'.pos) == Scan(doc, st.pos)
    requires st'.stack == st.stack && st'.path == st.path && -1 <= st'.want <= 1
    requires st.last <= st'.last <= st'.pos && LogOk(f, doc, st'.log) && Bounded(st'.log, st'.last)
    requires st'.last != st.last ==>
               forall i :: 0 <= i < |st.stack| ==> !Leaf(f, PathTo(st.stack, i))
    ensures Inv(f, doc, st')
  {
  }

  lemma CommaKeeps(f: FiltersChain, doc: string, st: State)
    requires Inv(f, doc, st) && st.status == Running && st.pos < |doc| && doc[st.pos] == ','
    ensures Inv(f, doc, CommaStep(f, st))
  {
    if st.want != 0 || st.stack == [] {
      var st1 := st.(last := if st.last == st.pos then st.last + 1 else st.last, pos := st.pos + 1);
      LogFail(f, doc, if st.want != 0 then st else st1);
    } else {
      OpenPositions(doc, st.pos);
      MoveKeeps(f, doc, st, CommaStep(f, st));
    }
  }

  lemma StringKeeps(f: FiltersChain, pauses: nat -> bool, doc: string, rest: string, st: State)
    requires Inv(f, doc, st) && st.status == Running
    requires st.pos + |rest| <= |doc| && rest == doc[st.pos..st.pos + |rest|] && rest != "" && rest[0] == QUOTE
    requires StringStep(f, pauses, rest, st).Next?
    ensures Inv(f, doc, StringStep(f, pauses, rest, st).st)
  {
    hide Inv, LogOk, Bounded, Leaf, Scan, Concat, Find, ClosingQuote, StringValueStep, EventOk, StringKey;
    InvOpen(f, doc, st);
    var st' := StringStep(f, pauses, rest, st).st;
    var t := StrEnd(rest).value;
    ScanString(doc, st.pos, rest);
    if st.want == 0 {
      if rest[t] != ':' {
        LogFail(f, doc, st);
      } else {
        ScanPlain(doc, st.pos + t, st.pos + t + 1);
        MoveKeeps(f, doc, st, st');
      }
    } else {
      var key := StringKey(st.path, st.name);
      if Find(f, key).Some? {
        StringEvent(f, doc, key, rest, t, st.pos);
      }
      StringValueKeeps(f, pauses, doc, rest[..t], st);
    }
  }

  lemma StringEvent(f: FiltersChain, doc: string, key: string, rest: string, t: nat, at: nat)
    requires at + |rest| <= |doc| && rest == doc[at..at + |rest|] && rest != ""
    requires StrEnd(rest) == Some(t) && Find(f, key).Some?
    ensures EventOk(f, doc, Delivered(StringValue, key, rest[..t], at))
  {
    ClosingQuoteExtend(rest, doc[at + |rest|..], 1, false);
    assert doc[at..] == rest + doc[at + |rest|..];
    assert rest[..t] == doc[at..at + t];
  }

  /** A key below the current path is registered, so no open value is a leaf. */
  lemma NoLeafOpen(f: FiltersChain, st: State, key: string)
    requires Valid(st) && st.path < key && Find(f, key).Some?
    ensures forall i :: 0 <= i < |st.stack| ==> !Leaf(f, PathTo(st.stack, i))
  {
    forall i | 0 <= i < |st.stack|
      ensures !Leaf(f, PathTo(st.stack, i))
    {
      PrefixPath(st.stack, i);
      assert PathTo(st.stack, i) < key;
    }
  }

  lemma StringValueKeeps(f: FiltersChain, pauses: nat -> bool, doc: string, token: string, st: State)
    requires Inv(f, doc, st) && st.status == Running && st.pos + |token| <= |doc|
    requires StringValueStep(f, pauses, token, st).Next? && Scan(doc, st.pos + |token|) == Scan(doc, st.pos)
    requires var key := StringKey(st.path, st.name);
             Find(f, key).Some? ==> EventOk(f, doc, Delivered(StringValue, key, token, st.pos))
    ensures Inv(f, doc, StringValueStep(f, pauses, token, st).st)
  {
    hide Inv, LogOk, Bounded, EventOk, Leaf, Scan, Concat, Find, Fail, Ordered, Tracks, Valid, StringKey,
         StringValueStep;
    InvOpen(f, doc, st);
    var key := StringKey(st.path, st.name);
    StringValueCases(f, pauses, token, st);
    if Find(f, key).None? {
      PastUnwanted(f, doc, st, |token|);
    } else {
      var e := Delivered(StringValue, key, token, st.pos);
      LogDelivers(f, doc, st.log, st.last, e);
      LogFail(f, doc, Log(st, e));
      PastDelivered(f, doc, st, key, e, |token|);
    }
  }

  /** The three outcomes of a string value. */
  lemma StringValueCases(f: FiltersChain, pauses: nat -> bool, token: string, st: State)
    requires StringValueStep(f, pauses, token, st).Next?
    ensures var st' := StringValueStep(f, pauses, token, st).st;
            var key := StringKey(st.path, st.name);
            var e := Delivered(StringValue, key, token, st.pos);
            var past := st.(pos := st.pos + |token|, want := 0, name := "");
            if Find(f, key).None? then st' == past
            else st' == Fail(f, Log(st, e)) || st' == Log(past.(last := past.pos), e)
  {
    hide Find, Fail, StringKey;
  }

  /** The state after a string that no filter wants. */
  lemma PastUnwanted(f: FiltersChain, doc: string, st: State, t: nat)
    requires Inv(f, doc, st) && st.status == Running && st.pos + t <= |doc|
    requires Scan(doc, st.pos + t) == Scan(doc, st.pos)
    ensures Inv(f, doc, st.(pos := st.pos + t, want := 0, name := ""))
  {
    hide Inv, LogOk, Bounded, Leaf, Scan, Concat;
    InvOpen(f, doc, st);
    MoveKeeps(f, doc, st, st.(pos := st.pos + t, want := 0, name := ""));
  }

  /** The state after a delivered string. */
  lemma PastDelivered(f: FiltersChain, doc: string, st: State, key: string, e: Event, t: nat)
    requires Inv(f, doc, st) && st.status == Running && st.pos + t <= |doc|
    requires Scan(doc, st.pos + t) == Scan(doc, st.pos) && key == StringKey(st.path, st.name) && Find(f, key).Some?
    requires LogOk(f, doc, st.log + [e]) && Bounded(st.log + [e], st.pos + t)
    ensures Inv(f, doc, Log(st.(pos := st.pos + t, last := st.pos + t, want := 0, name := ""), e))
  {
    hide Inv, LogOk, Bounded, Leaf, Scan, Concat, Find;
    InvOpen(f, doc, st);
    NoLeafOpen(f, st, key);
    MoveKeeps(f, doc, st, Log(st.(pos := st.pos + t, last := st.pos + t, want := 0, name := ""), e));
  }

  lemma NumberEvent(f: FiltersChain, doc: string, rest: string, at: nat)
    requires at + |rest| <= |doc| && rest == doc[at..at + |rest|] && Find(f, "#").Some?
    requires 0 < NumEnd(rest) < |rest|
    ensures EventOk(f, doc, Delivered(Number, "#", rest[..NumEnd(rest)], at))
  {
    hide Find, Leaf, Matching;
    NumEndExtend(rest, doc[at + |rest|..]);
    assert doc[at..] == rest + doc[at + |rest|..];
    assert rest[..NumEnd(rest)] == doc[at..at + NumEnd(rest)];
  }

  lemma NumberKeeps(f: FiltersChain, doc: string, rest: string, st: State)
    requires Inv(f, doc, st) && st.status == Running
    requires st.pos + |rest| <= |doc| && rest == doc[st.pos..st.pos + |rest|] && rest != "" && StartsNumber(rest[0])
    requires NumberStep(f, rest, st).Next?
    ensures Inv(f, doc, NumberStep(f, rest, st).st)
  {
    hide LogOk, Ordered, EventOk, Leaf, Scan;
    var st' := NumberStep(f, rest, st).st;
    var j := NumEnd(rest);
    assert forall k :: st.pos <= k < st.pos + j ==> doc[k] == rest[k - st.pos];
    ScanPlain(doc, st.pos, st.pos + j);
    if st.want == 0 {
      LogFail(f, doc, st);
    } else if st.stack != [] {
      MoveKeeps(f, doc, st, st');
    } else {
      var e := Delivered(Number, "#", rest[..j], st.last);
      if st.last == st.pos && Find(f, "#").Some? {
        NumberEvent(f, doc, rest, st.pos);
        LogDelivers(f, doc, st.log, st.last, e);
        LogFail(f, doc, Log(st.(pos := st.pos + j, want := 0), e));
      }
    }
  }

  /** Every step, on every chunk, keeps the invariant. */
  lemma StepKeeps(f: FiltersChain, pauses: nat -> bool, doc: string, lo: nat, hi: nat, st: State)
    requires Inv(f, doc, st) && st.status == Running && lo <= st.last && st.pos <= hi <= |doc|
    requires Step(f, pauses, doc[lo..hi], lo, st).Next?
    ensures Inv(f, doc, Step(f, pauses, doc[lo..hi], lo, st).st)
  {
    hide OpenStep, CloseMatched, CommaStep, StringStep, NumberStep, Inv;
    InvOpen(f, doc, st);
    var buf := doc[lo..hi];
    var rest := buf[st.pos - lo..];
    SliceOfSlice(doc, lo, hi, st.pos, hi);
    assert rest == doc[st.pos..hi];
    if IsOpen(rest[0]) {
      OpenKeeps(f, doc, st);
    } else if IsClose(rest[0]) {
      SliceOfSlice(doc, lo, hi, st.last, st.pos + 1);
      if st.want >= 0 && st.stack != [] && Pair(Top(st), rest[0]) {
        CloseKeeps(f, doc, CloseKey(buf, lo, rest[0], st), st);
      } else {
        LogFail(f, doc, st);
      }
    } else if rest[0] == ',' {
      CommaKeeps(f, doc, st);
    } else if rest[0] == QUOTE {
      StringKeeps(f, pauses, doc, rest, st);
    } else if StartsNumber(rest[0]) {
      NumberKeeps(f, doc, rest, st);
    } else if rest[0] == ' ' {
      MoveKeeps(f, doc, st, st.(pos := st.pos + 1)) by {
        InvOpen(f, doc, st);
        ScanPlain(doc, st.pos, st.pos + 1);
      }
    } else {
      LogFail(f, doc, st);
    }
  }

  lemma InvOpen(f: FiltersChain, doc: string, st: State)
    requires Inv(f, doc, st)
    ensures LogOk(f, doc, st.log)
    ensures st.status != Failed ==> Tracks(doc, st) && Valid(st) && st.last <= st.pos && Bounded(st.log, st.last)
  {
  }

  // ----- Whole runs

  lemma LoopKeeps(f: FiltersChain, pauses: nat -> bool, doc: string, lo: nat, hi: nat, st: State)
    requires Inv(f, doc, st) && st.status == Running && lo <= st.last && st.pos <= hi <= |doc|
    ensures Inv(f, doc, Loop(f, pauses, doc[lo..hi], lo, st).0)
    decreases hi - st.pos
  {
    hide Step, Inv;
    InvOpen(f, doc, st);
    if Step(f, pauses, doc[lo..hi], lo, st).Next? {
      StepAdvances(f, pauses, doc[lo..hi], lo, st);
      StepKeeps(f, pauses, doc, lo, hi, st);
      var st' := Step(f, pauses, doc[lo..hi], lo, st).st;
      if st'.status == Running {
        LoopKeeps(f, pauses, doc, lo, hi, st');
      }
    }
  }

  lemma BeginKeeps(f: FiltersChain, doc: string, st: State)
    requires Inv(f, doc, st) && st.status == Running
    ensures Inv(f, doc, Begin(f, st))
  {
  }

  lemma DeliverKeeps(f: FiltersChain, doc: string, r: Request, st: State)
    requires r.end <= |doc| && Ready(r.end, st) && Inv(f, doc, st)
    ensures Inv(f, doc, Deliver(f, doc, r, st).0)
  {
    hide Inv;
    if st.status == Running {
      BeginKeeps(f, doc, st);
      if Begin(f, st).status == Running {
        LoopKeeps(f, r.pauses, doc, st.last, r.end, Begin(f, st));
      }
    }
  }

  lemma {:induction false} RunKeeps(f: FiltersChain, doc: string, lo: nat, calls: seq<Request>, st: State)
    requires Ready(lo, st) && lo <= |doc| && Schedule(doc, lo, calls) && Inv(f, doc, st)
    ensures Inv(f, doc, Run(f, doc, lo, calls, st).0)
    decreases |calls|
  {
    hide Inv, Deliver;
    if calls != [] {
      DeliverKeeps(f, doc, calls[0], st);
      if |calls| > 1 {
        RunKeeps(f, doc, calls[0].end, calls[1..], Deliver(f, doc, calls[0], st).0);
      }
    }
  }

  /** The state that any sequence of calls leads to. */
  function Reached(f: FiltersChain, doc: string, calls: seq<Request>): State
    requires Schedule(doc, 0, calls)
  {
    Run(f, doc, 0, calls, Init).0
  }

  /** Outside failure the path is the concatenation of the stack, the retained start is at or before
      the scan position, and the open brackets are those of the text read so far. */
  lemma ReachableStates(f: FiltersChain, doc: string, calls: seq<Request>)
    requires Schedule(doc, 0, calls)
    ensures Reached(f, doc, calls).status != Failed ==> Tracks(doc, Reached(f, doc, calls))
  {
    RunKeeps(f, doc, 0, calls, Init);
    InvOpen(f, doc, Reached(f, doc, calls));
  }

  /** A stream that finishes through a closing bracket has balanced brackets outside strings. */
  lemma {:induction false} FinishedEmpty(f: FiltersChain, pauses: nat -> bool, doc: string, lo: nat, hi: nat, st: State)
    requires Inv(f, doc, st) && st.status == Running && lo <= st.last && st.pos <= hi <= |doc|
    requires Loop(f, pauses, doc[lo..hi], lo, st).0.status == Finished
    ensures Loop(f, pauses, doc[lo..hi], lo, st).0.stack == []
    decreases hi - st.pos
  {
    hide Step, Inv;
    InvOpen(f, doc, st);
    if Step(f, pauses, doc[lo..hi], lo, st).Next? {
      StepAdvances(f, pauses, doc[lo..hi], lo, st);
      StepKeeps(f, pauses, doc, lo, hi, st);
      var st' := Step(f, pauses, doc[lo..hi], lo, st).st;
      if st'.status == Running {
        FinishedEmpty(f, pauses, doc, lo, hi, st');
      } else {
        FinishingStep(f, pauses, doc[lo..hi], lo, st);
      }
    }
  }

  lemma FinishingStep(f: FiltersChain, pauses: nat -> bool, buf: string, base: nat, st: State)
    requires Within(buf, base, st) && st.status == Running
    requires Step(f, pauses, buf, base, st).Next? && Step(f, pauses, buf, base, st).st.status == Finished
    ensures Step(f, pauses, buf, base, st).st.stack == []
  {
  }

  lemma {:induction false} RunFinishedEmpty(f: FiltersChain, doc: string, lo: nat, calls: seq<Request>, st: State)
    requires Ready(lo, st) && lo <= |doc| && Schedule(doc, lo, calls) && Inv(f, doc, st)
    requires st.status == Finished ==> st.stack == []
    ensures Run(f, doc, lo, calls, st).0.status == Finished ==> Run(f, doc, lo, calls, st).0.stack == []
    decreases |calls|
  {
    hide Inv, Step;
    if calls != [] {
      DeliverKeeps(f, doc, calls[0], st);
      var st' := Deliver(f, doc, calls[0], st).0;
      if st.status == Running {
        BeginKeeps(f, doc, st);
        var st1 := Begin(f, st);
        if st1.status == Running && st'.status == Finished {
          FinishedEmpty(f, calls[0].pauses, doc, st.last, calls[0].end, st1);
        }
      }
      if |calls| > 1 {
        RunFinishedEmpty(f, doc, calls[0].end, calls[1..], st');
      }
    }
  }

  /** A finished stream: everything read is balanced, with every bracket closed. */
  lemma FinishedBalanced(f: FiltersChain, doc: string, calls: seq<Request>)
    requires Schedule(doc, 0, calls) && Reached(f, doc, calls).status == Finished
    ensures var st := Reached(f, doc, calls); st.pos <= |doc| && Scan(doc, st.pos) == Outside([])
  {
    RunKeeps(f, doc, 0, calls, Init);
    InvOpen(f, doc, Reached(f, doc, calls));
    RunFinishedEmpty(f, doc, 0, calls, Init);
    OpenPositions(doc, Reached(f, doc, calls).pos);
  }

  /** However the document is chunked, delivered texts are pieces of the document, disjoint and in order. */
  lemma DeliveredInOrder(f: FiltersChain, doc: string, calls: seq<Request>, i: nat, j: nat)
    requires Schedule(doc, 0, calls)
    requires i < j < |Reached(f, doc, calls).log|
    requires Reached(f, doc, calls).log[i].Delivered? && Reached(f, doc, calls).log[j].Delivered?
    ensures var a, b := Reached(f, doc, calls).log[i], Reached(f, doc, calls).log[j];
            && a.at < a.at + |a.text| <= b.at < b.at + |b.text| <= |doc|
            && a.text == doc[a.at..a.at + |a.text|] && b.text == doc[b.at..b.at + |b.text|]
  {
    RunKeeps(f, doc, 0, calls, Init);
    InvOpen(f, doc, Reached(f, doc, calls));
  }

  /** A value whose path has no registered path below it is delivered from its opening bracket
      to the closing bracket that matches it, unless it is taken for an error response. */
  lemma LeafTextMatches(f: FiltersChain, doc: string, calls: seq<Request>, i: nat)
    requires Schedule(doc, 0, calls) && i < |Reached(f, doc, calls).log|
    requires var e := Reached(f, doc, calls).log[i];
             e.Delivered? && e.kind == Container && e.key != "#" && Leaf(f, e.key)
    ensures var e := Reached(f, doc, calls).log[i];
            e.text != "" && Matching(doc, e.at, e.at + |e.text| - 1) && e.text == doc[e.at..e.at + |e.text|]
  {
    RunKeeps(f, doc, 0, calls, Init);
    InvOpen(f, doc, Reached(f, doc, calls));
  }
}
