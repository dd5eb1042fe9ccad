/** The keys under which values are offered to callbacks, read off the characters of the document. */
module SplitterKeys {
  import opened Wrappers
  import opened JsonScan
  import opened Brackets
  import opened SplitterSpec
  import opened SplitterRuns
  import opened SplitterInvariants

  // ----- Names and paths in a document

  predicate Mark(c: char) { c == QUOTE || IsOpen(c) || IsClose(c) }

  /** The last quote or bracket before v, or -1. */
  function LastMark(doc: string, v: nat): (m: int)
    requires v <= |doc|
    ensures -1 <= m < v && (m >= 0 ==> Mark(doc[m])) && forall k :: m < k < v ==> !Mark(doc[k])
  {
    if v == 0 then -1 else if Mark(doc[v - 1]) then v - 1 else LastMark(doc, v - 1)
  }

  /** A string starts at a and ends at the quote at m. */
  ghost predicate StringFrom(doc: string, a: nat, m: nat) {
    && a < m < |doc| && doc[a] == QUOTE && Scan(doc, a).Lex? && !Scan(doc, a).inString
    && StrEnd(doc[a..]) == Some(m + 1 - a)
  }

  /** The name of what stands at v: the characters between the quotes of the last string before it, if a colon
      follows that string and no bracket comes after it; otherwise no name. */
  ghost predicate Named(doc: string, v: nat, name: string)
    requires v <= |doc|
  {
    var m := LastMark(doc, v);
    if m >= 0 && doc[m] == QUOTE && m + 1 < v && doc[m + 1] == ':'
    then exists a: nat :: StringFrom(doc, a, m) && name == doc[a + 1..m]
    else name == ""
  }

  /** The brackets with their names, in order. */
  function PathText(open: seq<Bracket>, names: seq<string>): string
    requires |open| == |names|
  {
    if open == [] then ""
    else PathText(open[..|open| - 1], names[..|names| - 1]) + [open[|open| - 1].c] + names[|names| - 1]
  }

  ghost predicate AllNamed(doc: string, open: seq<Bracket>, names: seq<string>) {
    |open| == |names| && forall i :: 0 <= i < |open| ==> open[i].at <= |doc| && Named(doc, open[i].at, names[i])
  }

  /** The path of position v: the brackets that are open there, each followed by its name. */
  ghost predicate IsPath(doc: string, v: nat, path: string) {
    && v <= |doc| && Scan(doc, v).Lex?
    && exists names :: AllNamed(doc, Scan(doc, v).open, names) && path == PathText(Scan(doc, v).open, names)
  }

  /** The key of the string at v: its path, a quote, and its name. */
  ghost predicate IsStringKey(doc: string, v: nat, key: string) {
    exists n: nat :: QuoteAt(doc, v, key, n)
  }

  ghost predicate QuoteAt(doc: string, v: nat, key: string, n: nat) {
    v <= |doc| && n < |key| && IsPath(doc, v, key[..n]) && key[n] == '"' && Named(doc, v, key[n + 1..])
  }

  /** What is delivered is delivered under the key that the document gives it. */
  ghost predicate KeyOk(doc: string, e: Event) {
    e.Delivered? ==>
      match e.kind
      case StringValue => IsStringKey(doc, e.at, e.key)
      case Container => e.key == "#" || (e.text != "" && IsPath(doc, e.at + |e.text| - 1, e.key))
      case Number => e.key == "#"
  }

  ghost predicate KeysOk(doc: string, log: seq<Event>) {
    forall i :: 0 <= i < |log| ==> KeyOk(doc, log[i])
  }

  // ----- The document determines them

  lemma NamedUnique(doc: string, v: nat, a: string, b: string)
    requires v <= |doc| && Named(doc, v, a) && Named(doc, v, b)
    ensures a == b
  {
    var m := LastMark(doc, v);
    if m >= 0 && doc[m] == QUOTE && m + 1 < v && doc[m + 1] == ':' {
      var p: nat :| StringFrom(doc, p, m) && a == doc[p + 1..m];
      var q: nat :| StringFrom(doc, q, m) && b == doc[q + 1..m];
      if p < q {
        InsideString(doc, p, m, q);
      } else if q < p {
        InsideString(doc, q, m, p);
      }
    }
  }

  lemma InsideString(doc: string, a: nat, m: nat, k: nat)
    requires StringFrom(doc, a, m) && a < k <= m
    ensures Scan(doc, k).Lex? && Scan(doc, k).inString
  {
    OpenPositions(doc, a);
    var rest := doc[a..];
    assert Scan(doc, a + 1) == Lex(Scan(doc, a).open, true, false);
    InsideFrom(doc, a, rest, 1, false, Scan(doc, a).open, k);
  }

  lemma {:induction false} InsideFrom(doc: string, a: nat, rest: string, i: nat, esc: bool, open: seq<Bracket>, k: nat)
    requires a <= |doc| && rest == doc[a..] && i <= |rest| && ClosingQuote(rest, i, esc).Some?
    requires Scan(doc, a + i) == Lex(open, true, esc) && a + i <= k <= a + ClosingQuote(rest, i, esc).value
    ensures Scan(doc, k).Lex? && Scan(doc, k).inString
    decreases |rest| - i
  {
    if a + i < k {
      assert doc[a + i] == rest[i];
      assert Scan(doc, a + i + 1) == ScanChar(Scan(doc, a + i), rest[i], a + i);
      if esc {
        InsideFrom(doc, a, rest, i + 1, false, open, k);
      } else {
        InsideFrom(doc, a, rest, i + 1, rest[i] == BACKSLASH, open, k);
      }
    }
  }

  lemma PathUnique(doc: string, v: nat, a: string, b: string)
    requires IsPath(doc, v, a) && IsPath(doc, v, b)
    ensures a == b
  {
    hide Named;
    var open := Scan(doc, v).open;
    var x :| AllNamed(doc, open, x) && a == PathText(open, x);
    var y :| AllNamed(doc, open, y) && b == PathText(open, y);
    forall i | 0 <= i < |open|
      ensures x[i] == y[i]
    {
      NamedUnique(doc, open[i].at, x[i], y[i]);
    }
    assert x == y;
  }

  /** A string has one key. */
  lemma StringKeyUnique(doc: string, v: nat, a: string, b: string)
    requires IsStringKey(doc, v, a) && IsStringKey(doc, v, b)
    ensures a == b
  {
    hide Named, IsPath;
    var m: nat :| QuoteAt(doc, v, a, m);
    var n: nat :| QuoteAt(doc, v, b, n);
    PathUnique(doc, v, a[..m], b[..n]);
    NamedUnique(doc, v, a[m + 1..], b[n + 1..]);
    assert m == |a[..m]| == |b[..n]| == n;
    assert a == a[..m] + [a[m]] + a[m + 1..] && b == b[..n] + [b[n]] + b[n + 1..];
  }

  // ----- How names move on

  lemma {:induction false} LastMarkPlain(doc: string, v: nat, w: nat)
    requires v <= w <= |doc| && forall k :: v <= k < w ==> !Mark(doc[k])
    ensures LastMark(doc, w) == LastMark(doc, v)
    decreases w
  {
    if v < w {
      LastMarkPlain(doc, v, w - 1);
    }
  }

  lemma NamedPlain(doc: string, v: nat, w: nat, name: string)
    requires v <= w <= |doc| && Named(doc, v, name) && forall k :: v <= k < w ==> !Mark(doc[k]) && doc[k] != ':'
    ensures Named(doc, w, name)
  {
    LastMarkPlain(doc, v, w);
  }

  lemma NamedBracket(doc: string, v: nat)
    requires v < |doc| && (IsOpen(doc[v]) || IsClose(doc[v]))
    ensures Named(doc, v + 1, "")
  {
  }

  /** Behind a string there is no name yet; behind its colon there is. */
  lemma NamedString(doc: string, a: nat, t: nat)
    requires a < |doc| && doc[a] == QUOTE && Scan(doc, a).Lex? && !Scan(doc, a).inString && StrEnd(doc[a..]) == Some(t)
    ensures a + t <= |doc| && Named(doc, a + t, "")
    ensures a + t < |doc| && doc[a + t] == ':' ==> Named(doc, a + t + 1, doc[a + 1..a + t - 1])
  {
    var m := a + t - 1;
    assert doc[m] == doc[a..][t - 1] == QUOTE;
    assert LastMark(doc, a + t) == m;
    if a + t < |doc| && doc[a + t] == ':' {
      LastMarkPlain(doc, a + t, a + t + 1);
      assert StringFrom(doc, a, m);
    }
  }

  // ----- The splitter uses these

  /** After a failure the error callback, if there is one, has been told last, and where the scan stopped. */
  ghost predicate Told(f: FiltersChain, st: State) {
    Find(f, "E").Some? ==> st.log != [] && st.log[|st.log| - 1] == ParseError(st.pos)
  }

  /** Its names are those of the document. */
  ghost predicate Keyed(f: FiltersChain, doc: string, st: State) {
    && KeysOk(doc, st.log)
    && (st.status == Failed ==> Told(f, st))
    && (st.status != Failed ==>
          && Tracks(doc, st) && Named(doc, st.pos, st.name)
          && AllNamed(doc, Scan(doc, st.pos).open, NamesOf(st.stack)))
  }

  ghost function NamesOf(stack: seq<string>): (names: seq<string>)
    ensures |names| == |stack|
  {
    seq(|stack|, i requires 0 <= i < |stack| => if stack[i] == "" then "" else stack[i][1..])
  }

  lemma NamesLast(stack: seq<string>)
    requires stack != [] && stack[|stack| - 1] != ""
    ensures var n := |stack| - 1; NamesOf(stack)[..n] == NamesOf(stack[..n]) && NamesOf(stack)[n] == stack[n][1..]
  {
  }

  lemma {:induction false} PathIs(open: seq<Bracket>, stack: seq<string>)
    requires |open| == |stack| && forall i :: 0 <= i < |stack| ==> stack[i] != "" && stack[i][0] == open[i].c
    ensures Concat(stack) == PathText(open, NamesOf(stack))
  {
    hide NamesOf;
    if stack != [] {
      var n := |stack| - 1;
      PathIs(open[..n], stack[..n]);
      NamesLast(stack);
      var below, name := Concat(stack[..n]), stack[n][1..];
      assert stack[n] == [open[n].c] + name;
      assert below + ([open[n].c] + name) == below + [open[n].c] + name;
    }
  }

  lemma KeyedPath(f: FiltersChain, doc: string, st: State)
    requires Keyed(f, doc, st) && st.status != Failed
    ensures IsPath(doc, st.pos, st.path)
  {
    hide Named, Scan, KeysOk, Concat, PathText;
    PathIs(Scan(doc, st.pos).open, st.stack);
  }

  lemma KeyedFail(f: FiltersChain, doc: string, st: State)
    requires KeysOk(doc, st.log)
    ensures Keyed(f, doc, Fail(f, st))
  {
  }

  lemma KeysAdd(doc: string, log: seq<Event>, e: Event)
    requires KeysOk(doc, log) && KeyOk(doc, e)
    ensures KeysOk(doc, log + [e])
  {
  }

  /** Moving on inside the same brackets. */
  lemma KeyedMove(f: FiltersChain, doc: string, st: State, st': State)
    requires Keyed(f, doc, st) && st.status != Failed && st'.status != Failed
    requires Tracks(doc, st') && KeysOk(doc, st'.log)
    requires st'.stack == st.stack && Scan(doc, st'.pos) == Scan(doc, st.pos) && Named(doc, st'.pos, st'.name)
    ensures Keyed(f, doc, st')
  {
    hide Scan, Named, Find, Concat;
  }

  lemma OpenKeyed(f: FiltersChain, doc: string, st: State)
    requires Keyed(f, doc, st) && st.status == Running && st.pos < |doc| && IsOpen(doc[st.pos])
    ensures Keyed(f, doc, OpenStep(f, doc[st.pos], st))
  {
    hide Scan, Find, Concat, Named, KeysOk, NodeKey;
    if st.want == 0 {
      KeyedFail(f, doc, st);
    } else {
      OpenTracks(f, doc, st);
      NamedBracket(doc, st.pos);
      var st' := OpenStep(f, doc[st.pos], st);
      assert NamesOf(st'.stack) == NamesOf(st.stack) + [st.name];
    }
  }

  lemma LeaveKeyed(f: FiltersChain, doc: string, st: State, last: nat, log: seq<Event>)
    requires Keyed(f, doc, st) && st.status == Running && st.pos < |doc| && st.stack != [] && KeysOk(doc, log)
    requires IsClose(doc[st.pos]) && Pair(Top(st), doc[st.pos]) && st.last <= last <= st.pos + 1
    ensures |st.stack[|st.stack| - 1]| <= |st.path|
    ensures Keyed(f, doc, Leave(st.(name := "", pos := st.pos + 1, last := last, log := log)))
  {
    hide Scan, Concat, Named, KeysOk;
    LeaveTracks(doc, st, last, log);
    NamedBracket(doc, st.pos);
    var n := |st.stack| - 1;
    assert NamesOf(st.stack[..n]) == NamesOf(st.stack)[..n];
  }

  lemma CloseKeyed(f: FiltersChain, doc: string, key: string, st: State)
    requires Keyed(f, doc, st) && st.status == Running && st.pos < |doc| && st.stack != []
    requires IsClose(doc[st.pos]) && Pair(Top(st), doc[st.pos]) && (key == st.path || key == "#")
    ensures Keyed(f, doc, CloseMatched(f, key, doc[st.last..st.pos + 1], st))
  {
    hide Keyed, KeysOk, IsPath, Leave, Fail, Find, Scan, Concat;
    KeyedOpen(f, doc, st);
    var text := doc[st.last..st.pos + 1];
    var e := Delivered(Container, key, text, st.last);
    KeyedPath(f, doc, st);
    assert e.at + |e.text| - 1 == st.pos;
    KeysAdd(doc, st.log, e);
    LeaveKeyed(f, doc, st, st.last, st.log);
    LeaveKeyed(f, doc, st, st.pos + 1, st.log + [e]);
    KeyedFail(f, doc, Log(st.(name := "", pos := st.pos + 1), e));
  }

  lemma KeyedOpen(f: FiltersChain, doc: string, st: State)
    requires Keyed(f, doc, st)
    ensures KeysOk(doc, st.log)
    ensures st.status != Failed ==>
              Tracks(doc, st) && Valid(st) && st.last <= st.pos <= |doc| && Named(doc, st.pos, st.name)
  {
  }

  lemma CommaKeyed(f: FiltersChain, doc: string, st: State)
    requires Keyed(f, doc, st) && st.status == Running && st.pos < |doc| && doc[st.pos] == ','
    requires CommaStep(f, st).status != Failed ==> Tracks(doc, CommaStep(f, st))
    ensures Keyed(f, doc, CommaStep(f, st))
  {
    hide Keyed, Named, Scan, Concat, Tracks;
    KeyedOpen(f, doc, st);
    var st1 := st.(last := if st.last == st.pos then st.last + 1 else st.last, pos := st.pos + 1);
    KeyedFail(f, doc, st);
    KeyedFail(f, doc, st1);
    if st.want == 0 && st.stack != [] {
      TracksScan(doc, st);
      ScanPlain(doc, st.pos, st.pos + 1);
      NamedPlain(doc, st.pos, st.pos + 1, st.name);
      KeyedMove(f, doc, st, CommaStep(f, st));
    }
  }

  lemma TracksScan(doc: string, st: State)
    requires Tracks(doc, st)
    ensures st.pos <= |doc| && Scan(doc, st.pos).Lex? && !Scan(doc, st.pos).inString
  {
  }

  /** The key of the string value at the scan position. */
  lemma StringKeyed(f: FiltersChain, doc: string, st: State)
    requires Keyed(f, doc, st) && st.status == Running
    ensures IsStringKey(doc, st.pos, StringKey(st.path, st.name))
  {
    hide Keyed, IsPath, Named;
    KeyedOpen(f, doc, st);
    KeyedPath(f, doc, st);
    var key, n := StringKey(st.path, st.name), |st.path|;
    assert key[..n] == st.path && key[n + 1..] == st.name;
    assert QuoteAt(doc, st.pos, key, n);
  }

  /** What a string leads to. */
  lemma TextCases(f: FiltersChain, pauses: nat -> bool, rest: string, st: State)
    requires st.status == Running && rest != "" && StringStep(f, pauses, rest, st).Next?
    ensures StrEnd(rest).Some?
    ensures var t := StrEnd(rest).value;
            var e := Delivered(StringValue, StringKey(st.path, st.name), rest[..t], st.pos);
            var past := st.(pos := st.pos + t, want := 0, name := "");
            var st' := StringStep(f, pauses, rest, st).st;
            || st' == Fail(f, st) || st' == Fail(f, Log(st, e))
            || st' == past || st' == Log(past.(last := past.pos), e)
            || (t < |rest| && rest[t] == ':' && st' == st.(name := rest[1..t - 1], pos := st.pos + t + 1, want := -1))
  {
    hide Find, ClosingQuote, Fail, StringKey;
  }

  lemma TextKeyed(f: FiltersChain, pauses: nat -> bool, doc: string, rest: string, st: State)
    requires Keyed(f, doc, st) && st.status == Running
    requires st.pos + |rest| <= |doc| && rest == doc[st.pos..st.pos + |rest|] && rest != "" && rest[0] == QUOTE
    requires StringStep(f, pauses, rest, st).Next?
    requires var st' := StringStep(f, pauses, rest, st).st; st'.status != Failed ==> Tracks(doc, st')
    ensures Keyed(f, doc, StringStep(f, pauses, rest, st).st)
  {
    hide Keyed, Named, Scan, Tracks, KeysOk, Fail, ClosingQuote, StringKey, StringStep;
    KeyedOpen(f, doc, st);
    TextCases(f, pauses, rest, st);
    var t := StrEnd(rest).value;
    var e := Delivered(StringValue, StringKey(st.path, st.name), rest[..t], st.pos);
    TextEvent(f, doc, rest[..t], st);
    KeyedFail(f, doc, st);
    KeyedFail(f, doc, Log(st, e));
    TextNames(doc, rest, st);
    var st' := StringStep(f, pauses, rest, st).st;
    if st' != Fail(f, st) && st' != Fail(f, Log(st, e)) {
      KeyedMove(f, doc, st, st');
    }
  }

  lemma TextEvent(f: FiltersChain, doc: string, token: string, st: State)
    requires Keyed(f, doc, st) && st.status == Running
    ensures KeysOk(doc, st.log + [Delivered(StringValue, StringKey(st.path, st.name), token, st.pos)])
  {
    hide Keyed, KeysOk, StringKey, IsStringKey;
    KeyedOpen(f, doc, st);
    StringKeyed(f, doc, st);
    KeysAdd(doc, st.log, Delivered(StringValue, StringKey(st.path, st.name), token, st.pos));
  }

  /** The names behind a string, and behind its colon. */
  lemma TextNames(doc: string, rest: string, st: State)
    requires Tracks(doc, st)
    requires st.pos + |rest| <= |doc| && rest == doc[st.pos..st.pos + |rest|] && rest != "" && rest[0] == QUOTE
    requires StrEnd(rest).Some?
    ensures var t := StrEnd(rest).value;
            && Named(doc, st.pos + t, "") && Scan(doc, st.pos + t) == Scan(doc, st.pos)
            && (t < |rest| && rest[t] == ':' ==>
                  Named(doc, st.pos + t + 1, rest[1..t - 1]) && Scan(doc, st.pos + t + 1) == Scan(doc, st.pos))
  {
    hide Named, Scan, Tracks, ClosingQuote;
    TracksScan(doc, st);
    var t := StrEnd(rest).value;
    StrEndExtend(rest, doc[st.pos + |rest|..]);
    assert doc[st.pos..] == rest + doc[st.pos + |rest|..];
    NamedString(doc, st.pos, t);
    ScanString(doc, st.pos, rest);
    if t < |rest| && rest[t] == ':' {
      ScanPlain(doc, st.pos + t, st.pos + t + 1);
      assert rest[1..t - 1] == doc[st.pos + 1..st.pos + t - 1];
    }
  }

  /** What a number leads to. */
  lemma NumberCases(f: FiltersChain, rest: string, st: State)
    requires st.status == Running && NumberStep(f, rest, st).Next?
    ensures var j := NumEnd(rest);
            var e := Delivered(Number, "#", rest[..j], st.last);
            var past := st.(pos := st.pos + j, want := 0);
            var st' := NumberStep(f, rest, st).st;
            || st' == Fail(f, st) || st' == Fail(f, Log(past, e)) || st' == past
            || st' == past.(last := past.pos, status := Finished)
            || st' == Log(past.(last := past.pos, status := Finished), e)
  {
    hide Find, Fail;
  }

  lemma NumberKeyed(f: FiltersChain, doc: string, rest: string, st: State)
    requires Keyed(f, doc, st) && st.status == Running
    requires st.pos + |rest| <= |doc| && rest == doc[st.pos..st.pos + |rest|] && rest != "" && StartsNumber(rest[0])
    requires NumberStep(f, rest, st).Next?
    requires var st' := NumberStep(f, rest, st).st; st'.status != Failed ==> Tracks(doc, st')
    ensures Keyed(f, doc, NumberStep(f, rest, st).st)
  {
    hide Keyed, Named, Scan, Tracks, KeysOk, Fail, NumberStep;
    KeyedOpen(f, doc, st);
    NumberCases(f, rest, st);
    TracksScan(doc, st);
    var j := NumEnd(rest);
    assert forall k :: st.pos <= k < st.pos + j ==> doc[k] == rest[k - st.pos];
    ScanPlain(doc, st.pos, st.pos + j);
    NamedPlain(doc, st.pos, st.pos + j, st.name);
    var e := Delivered(Number, "#", rest[..j], st.last);
    KeysAdd(doc, st.log, e);
    KeyedFail(f, doc, st);
    KeyedFail(f, doc, Log(st.(pos := st.pos + j, want := 0), e));
    var st' := NumberStep(f, rest, st).st;
    if st' != Fail(f, st) && st' != Fail(f, Log(st.(pos := st.pos + j, want := 0), e)) {
      KeyedMove(f, doc, st, st');
    }
  }

  lemma ShutKeyed(f: FiltersChain, doc: string, lo: nat, hi: nat, st: State)
    requires Keyed(f, doc, st) && st.status == Running && lo <= st.last <= st.pos < hi <= |doc| && IsClose(doc[st.pos])
    requires Within(doc[lo..hi], lo, st)
    ensures Keyed(f, doc, CloseStep(f, doc[lo..hi], lo, doc[st.pos], st))
  {
    hide CloseMatched, Keyed, Fail, Concat;
    KeyedOpen(f, doc, st);
    KeyedFail(f, doc, st);
    SliceOfSlice(doc, lo, hi, st.last, st.pos + 1);
    if st.want >= 0 && st.stack != [] && Pair(Top(st), doc[st.pos]) {
      CloseKeyed(f, doc, CloseKey(doc[lo..hi], lo, doc[st.pos], st), st);
    }
  }

  lemma BlankKeyed(f: FiltersChain, doc: string, st: State)
    requires Keyed(f, doc, st) && st.status == Running && st.pos < |doc| && doc[st.pos] == ' '
    requires Tracks(doc, st.(pos := st.pos + 1))
    ensures Keyed(f, doc, st.(pos := st.pos + 1))
  {
    hide Keyed, Named, Scan, Tracks;
    KeyedOpen(f, doc, st);
    TracksScan(doc, st);
    ScanPlain(doc, st.pos, st.pos + 1);
    NamedPlain(doc, st.pos, st.pos + 1, st.name);
    KeyedMove(f, doc, st, st.(pos := st.pos + 1));
  }

  /** Every step, on every chunk, keeps the names. */
  lemma StepKeyed(f: FiltersChain, pauses: nat -> bool, doc: string, lo: nat, hi: nat, st: State)
    requires Inv(f, doc, st) && Keyed(f, doc, st) && st.status == Running && lo <= st.last && st.pos <= hi <= |doc|
    requires Step(f, pauses, doc[lo..hi], lo, st).Next?
    ensures Keyed(f, doc, Step(f, pauses, doc[lo..hi], lo, st).st)
  {
    hide OpenStep, CloseStep, CommaStep, StringStep, NumberStep, Inv, Keyed, Named, Fail, Scan, Tracks, Valid;
    KeyedOpen(f, doc, st);
    StepKeeps(f, pauses, doc, lo, hi, st);
    InvOpen(f, doc, Step(f, pauses, doc[lo..hi], lo, st).st);
    var buf := doc[lo..hi];
    var rest := buf[st.pos - lo..];
    SliceOfSlice(doc, lo, hi, st.pos, hi);
    assert rest == doc[st.pos..hi];
    KeyedFail(f, doc, st);
    if IsOpen(rest[0]) {
      OpenKeyed(f, doc, st);
    } else if IsClose(rest[0]) {
      ShutKeyed(f, doc, lo, hi, st);
    } else if rest[0] == ',' {
      CommaKeyed(f, doc, st);
    } else if rest[0] == QUOTE {
      TextKeyed(f, pauses, doc, rest, st);
    } else if StartsNumber(rest[0]) {
      NumberKeyed(f, doc, rest, st);
    } else if rest[0] == ' ' {
      BlankKeyed(f, doc, st);
    }
  }

  // ----- Whole runs

  lemma {:induction false} LoopKeyed(f: FiltersChain, pauses: nat -> bool, doc: string, lo: nat, hi: nat, st: State)
    requires Inv(f, doc, st) && Keyed(f, doc, st) && st.status == Running && lo <= st.last && st.pos <= hi <= |doc|
    ensures Keyed(f, doc, Loop(f, pauses, doc[lo..hi], lo, st).0)
    decreases hi - st.pos
  {
    hide Step, Inv, Keyed;
    InvOpen(f, doc, st);
    if Step(f, pauses, doc[lo..hi], lo, st).Next? {
      StepAdvances(f, pauses, doc[lo..hi], lo, st);
      StepKeeps(f, pauses, doc, lo, hi, st);
      StepKeyed(f, pauses, doc, lo, hi, st);
      var st' := Step(f, pauses, doc[lo..hi], lo, st).st;
      if st'.status == Running {
        LoopKeyed(f, pauses, doc, lo, hi, st');
      }
    }
  }

  lemma BeginKeyed(f: FiltersChain, doc: string, st: State)
    requires Keyed(f, doc, st) && st.status == Running
    ensures Keyed(f, doc, Begin(f, st))
  {
    hide Named, Find, Scan, Concat;
  }

  lemma DeliverKeyed(f: FiltersChain, doc: string, r: Request, st: State)
    requires r.end <= |doc| && Ready(r.end, st) && Inv(f, doc, st) && Keyed(f, doc, st)
    ensures Keyed(f, doc, Deliver(f, doc, r, st).0)
  {
    hide Inv, Keyed, Begin;
    if st.status == Running {
      BeginKeeps(f, doc, st);
      BeginKeyed(f, doc, st);
      BeginStays(f, st);
      if Begin(f, st).status == Running {
        LoopKeyed(f, r.pauses, doc, st.last, r.end, Begin(f, st));
      }
    }
  }

  lemma BeginStays(f: FiltersChain, st: State)
    ensures Begin(f, st).pos == st.pos && Begin(f, st).last == st.last
  {
  }

  lemma {:induction false} RunKeyed(f: FiltersChain, doc: string, lo: nat, calls: seq<Request>, st: State)
    requires Ready(lo, st) && lo <= |doc| && Schedule(doc, lo, calls) && Inv(f, doc, st) && Keyed(f, doc, st)
    ensures Keyed(f, doc, Run(f, doc, lo, calls, st).0)
    decreases |calls|
  {
    hide Inv, Keyed, Deliver;
    if calls != [] {
      DeliverKeeps(f, doc, calls[0], st);
      DeliverKeyed(f, doc, calls[0], st);
      if |calls| > 1 {
        RunKeyed(f, doc, calls[0].end, calls[1..], Deliver(f, doc, calls[0], st).0);
      }
    }
  }

  lemma InitKeyed(f: FiltersChain, doc: string)
    ensures Inv(f, doc, Init) && Keyed(f, doc, Init)
  {
    assert LastMark(doc, 0) == -1;
    assert Scan(doc, 0) == Outside([]);
  }

  /** However the document is chunked, everything is delivered under the key that the characters of the document give:
      the open brackets with their names, and for a string a quote and its own name. */
  lemma DeliveredKeys(f: FiltersChain, doc: string, calls: seq<Request>, i: nat)
    requires Schedule(doc, 0, calls) && i < |Reached(f, doc, calls).log|
    ensures KeyOk(doc, Reached(f, doc, calls).log[i])
  {
    hide KeyOk, Run;
    assert Inv(f, doc, Init) && Keyed(f, doc, Init) by { InitKeyed(f, doc); }
    RunKeyed(f, doc, 0, calls, Init);
  }

  /** A failed run has told the error callback, as the last thing, at which character of the document it failed. */
  lemma FailureTold(f: FiltersChain, doc: string, calls: seq<Request>)
    requires Schedule(doc, 0, calls) && Reached(f, doc, calls).status == Failed && Find(f, "E").Some?
    ensures var st := Reached(f, doc, calls); st.log != [] && st.log[|st.log| - 1] == ParseError(st.pos)
  {
    hide Run;
    assert Inv(f, doc, Init) && Keyed(f, doc, Init) by { InitKeyed(f, doc); }
    RunKeyed(f, doc, 0, calls, Init);
  }
}
