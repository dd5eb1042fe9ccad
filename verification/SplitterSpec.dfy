/** The streaming splitter as a step function over absolute positions of the stream.

    One step handles one token. `buf` is the chunk handed to the current call, `base` the
    stream position of its first character, and all positions in a state are positions of
    the whole stream, so that states of different calls can be compared. */
module SplitterSpec {
  import opened Wrappers
  import opened JsonScan
  import opened Brackets

  /** A filter callback: its answer to the text it is given. */
  type Callback = string -> bool

  /** A list of filter tables, some of which may be absent. */
  type FiltersChain = seq<Option<map<string, Callback>>>

  datatype Kind = Container | StringValue | Number

  /** What the owner of the filters observes. `at` is the stream position of the text. */
  datatype Event =
    | Started
    | Delivered(kind: Kind, key: string, text: string, at: nat)
    | ParseError(at: nat)

  datatype Status = Running | Finished | Failed

  datatype State = State(
    pos: nat,            // next character to look at
    last: nat,           // first character that has not been handed back to the caller
    stack: seq<string>,  // open brackets, each with the name of its value
    path: string,
    name: string,        // name read but not used yet
    want: int,         // 0: no value expected, 1: value allowed, -1: value required
    starting: bool,
    status: Status,
    log: seq<Event>)

  const Init := State(0, 0, [], "", "", 1, true, Running, [])

  datatype StepResult = Stuck | Pause | Next(st: State)

  const ERROR_PREFIX := "{\"err\":"

  /** The callback registered for a key, in the first table that has one. */
  function Find(f: FiltersChain, key: string): (r: Option<Callback>)
  {
    if f == [] then None
    else if f[0].Some? && key in f[0].value then Some(f[0].value[key])
    else Find(f[1..], key)
  }

  function Concat(stack: seq<string>): string {
    if stack == [] then "" else Concat(stack[..|stack| - 1]) + stack[|stack| - 1]
  }

  /** The key of the string value with the given name below a path. */
  function StringKey(path: string, name: string): string { path + "\"" + name }

  /** The key, and path, of the object or array with the given name below a path. */
  function NodeKey(path: string, c: char, name: string): string { path + [c] + name }

  predicate StartsNumber(c: char) { '0' <= c <= '9' || c == '.' || c == '-' }

  function Top(st: State): char
    requires Valid(st) && st.stack != []
  {
    st.stack[|st.stack| - 1][0]
  }

  /** What every state outside failure satisfies. */
  ghost predicate Valid(st: State) {
    && st.last <= st.pos
    && st.path == Concat(st.stack)
    && (forall i :: 0 <= i < |st.stack| ==> st.stack[i] != "" && IsOpen(st.stack[i][0]))
    && -1 <= st.want <= 1
  }

  /** The state can take a step on the chunk: its positions lie in the chunk. */
  ghost predicate Within(buf: string, base: nat, st: State) {
    Valid(st) && base <= st.last && st.pos <= base + |buf|
  }

  function Log(st: State, e: Event): State {
    st.(log := st.log + [e])
  }

  function Fail(f: FiltersChain, st: State): State {
    (if Find(f, "E").Some? then Log(st, ParseError(st.pos)) else st).(status := Failed)
  }

  function OpenStep(f: FiltersChain, c: char, st: State): State
    requires IsOpen(c)
  {
    if st.want == 0 then Fail(f, st) else
    var path := NodeKey(st.path, c, st.name);
    st.(stack := st.stack + [[c] + st.name], path := path,
        last := if Find(f, path).Some? then st.pos else st.last,
        pos := st.pos + 1, name := "", want := if c == '[' then 1 else 0)
  }

  /** The chunk being processed starts like an error response. */
  predicate ErrorChunk(buf: string) {
    ERROR_PREFIX <= buf
  }

  function CloseKey(buf: string, base: nat, c: char, st: State): string {
    if |st.stack| == 1 && c == '}' && st.last == base && ErrorChunk(buf) then "#" else st.path
  }

  /** Drops the innermost bracket; the stream is finished when it was the outermost. */
  function Leave(st: State): State
    requires st.stack != [] && |st.stack[|st.stack| - 1]| <= |st.path|
  {
    var n := |st.stack| - 1;
    var st' := st.(path := st.path[..|st.path| - |st.stack[n]|], stack := st.stack[..n], want := 0);
    if n == 0 then st'.(last := st.pos, status := Finished) else st'
  }

  function CloseStep(f: FiltersChain, buf: string, base: nat, c: char, st: State): State
    requires Within(buf, base, st) && st.pos < base + |buf|
  {
    if st.want < 0 || st.stack == [] then Fail(f, st) else
    if (c == ']' && Top(st) != '[') || (c == '}' && Top(st) != '{') then Fail(f, st) else
    CloseMatched(f, CloseKey(buf, base, c, st), buf[st.last - base..st.pos + 1 - base], st)
  }

  /** Closes the innermost bracket, handing text to the callback of key when there is one. */
  function CloseMatched(f: FiltersChain, key: string, text: string, st: State): State
    requires Valid(st) && st.stack != []
  {
    var st1 := st.(name := "", pos := st.pos + 1);
    match Find(f, key)
    case None => Leave(st1)
    case Some(cb) =>
      var st2 := Log(st1, Delivered(Container, key, text, st.last));
      if !cb(text) then Fail(f, st2) else Leave(st2.(last := st2.pos))
  }

  function CommaStep(f: FiltersChain, st: State): State
    requires Valid(st)
  {
    if st.want != 0 then Fail(f, st) else
    var st1 := st.(last := if st.last == st.pos then st.last + 1 else st.last, pos := st.pos + 1);
    if st.stack == [] then Fail(f, st1) else st1.(want := if Top(st) == '[' then 1 else 0)
  }

  function StringValueStep(f: FiltersChain, pauses: nat -> bool, token: string, st: State): StepResult {
    var st1 := st.(pos := st.pos + |token|, want := 0, name := "");
    match Find(f, StringKey(st.path, st.name))
    case None => Next(st1)
    case Some(cb) =>
      if pauses(st.pos) then Pause else
      var e := Delivered(StringValue, StringKey(st.path, st.name), token, st.pos);
      if !cb(token) then Next(Fail(f, Log(st, e)))
      else Next(Log(st1.(last := st1.pos), e))
  }

  function NameStep(f: FiltersChain, rest: string, t: nat, st: State): StepResult
    requires 2 <= t <= |rest|
  {
    if t == |rest| then Stuck
    else if rest[t] != ':' then Next(Fail(f, st))
    else Next(st.(name := rest[1..t - 1], pos := st.pos + t + 1, want := -1))
  }

  function StringStep(f: FiltersChain, pauses: nat -> bool, rest: string, st: State): StepResult
    requires rest != ""
  {
    match StrEnd(rest)
    case None => Stuck
    case Some(t) =>
      if st.want != 0 then StringValueStep(f, pauses, rest[..t], st) else NameStep(f, rest, t, st)
  }

  function NumberStep(f: FiltersChain, rest: string, st: State): StepResult {
    if st.want == 0 then Next(Fail(f, st)) else
    var j := NumEnd(rest);
    if j == |rest| then Stuck else
    var st1 := st.(pos := st.pos + j, want := 0);
    Next(if st.stack != [] then st1 else RootNumberStep(f, rest[..j], st1))
  }

  /** A number outside all brackets, already read, is an error code and ends the stream. */
  function RootNumberStep(f: FiltersChain, token: string, st: State): State {
    var done := st.(last := st.pos, status := Finished);
    var cb := Find(f, "#");
    if st.last != st.pos - |token| || cb.None? then done else
    var e := Delivered(Number, "#", token, st.last);
    if !cb.value(token) then Fail(f, Log(st, e)) else Log(done, e)
  }

  /** One token. Stuck means that the chunk ends before the token is complete. */
  function Step(f: FiltersChain, pauses: nat -> bool, buf: string, base: nat, st: State): StepResult
    requires Within(buf, base, st)
  {
    if st.pos == base + |buf| then Stuck else
    var rest := buf[st.pos - base..];
    var c := rest[0];
    if IsOpen(c) then Next(OpenStep(f, c, st))
    else if IsClose(c) then Next(CloseStep(f, buf, base, c, st))
    else if c == ',' then Next(CommaStep(f, st))
    else if c == QUOTE then StringStep(f, pauses, rest, st)
    else if StartsNumber(c) then NumberStep(f, rest, st)
    else if c == ' ' then Next(st.(pos := st.pos + 1))
    else Next(Fail(f, st))
  }

  /** st' is a legal successor of st: it keeps the shape and moves on, unless parsing failed. */
  ghost predicate Advances(buf: string, base: nat, st: State, st': State) {
    st'.status != Failed ==>
      Within(buf, base, st') && st.pos < st'.pos && st.last <= st'.last && st'.starting == st.starting
  }

  lemma OpenValid(f: FiltersChain, c: char, st: State)
    requires Valid(st) && IsOpen(c) && st.want != 0
    ensures Valid(OpenStep(f, c, st))
  {
    var st' := OpenStep(f, c, st);
    assert st'.stack[..|st'.stack| - 1] == st.stack;
    assert NodeKey(st.path, c, st.name) == st.path + ([c] + st.name);
  }

  lemma OpenAdvances(f: FiltersChain, pauses: nat -> bool, buf: string, base: nat, st: State)
    requires Within(buf, base, st) && st.pos < base + |buf| && IsOpen(buf[st.pos - base])
    ensures Advances(buf, base, st, Step(f, pauses, buf, base, st).st)
  {
    hide Concat, Find;
    var c := buf[st.pos - base];
    assert buf[st.pos - base..][0] == c;
    if st.want != 0 {
      OpenValid(f, c, st);
    }
  }

  lemma PathHolds(st: State)
    requires st.stack != [] && Valid(st)
    ensures |st.stack[|st.stack| - 1]| <= |st.path|
  {
  }

  lemma LeaveValid(st: State)
    requires st.stack != [] && Valid(st)
    ensures var st' := Leave(st); Valid(st') && st'.pos == st.pos && st.last <= st'.last && st'.starting == st.starting
  {
    var n := |st.stack| - 1;
    assert st.path == Concat(st.stack[..n]) + st.stack[n];
    assert st.path[..|st.path| - |st.stack[n]|] == Concat(st.stack[..n]);
  }

  lemma MatchedAdvances(f: FiltersChain, buf: string, base: nat, key: string, text: string, st: State)
    requires Within(buf, base, st) && st.pos < base + |buf| && st.stack != []
    ensures Advances(buf, base, st, CloseMatched(f, key, text, st))
  {
    hide Leave, Concat;
    var st1 := st.(name := "", pos := st.pos + 1);
    LeaveValid(st1);
    LeaveValid(Log(st1, Delivered(Container, key, text, st.last)).(last := st1.pos));
  }

  lemma CloseAdvances(f: FiltersChain, pauses: nat -> bool, buf: string, base: nat, st: State)
    requires Within(buf, base, st) && st.pos < base + |buf| && IsClose(buf[st.pos - base])
    ensures Advances(buf, base, st, Step(f, pauses, buf, base, st).st)
  {
    hide CloseMatched;
    if st.stack != [] {
      var key := CloseKey(buf, base, buf[st.pos - base], st);
      MatchedAdvances(f, buf, base, key, buf[st.last - base..st.pos + 1 - base], st);
    }
  }

  lemma StringAdvances(f: FiltersChain, pauses: nat -> bool, buf: string, base: nat, st: State)
    requires Within(buf, base, st) && st.pos < base + |buf|
    requires StringStep(f, pauses, buf[st.pos - base..], st).Next?
    ensures Advances(buf, base, st, StringStep(f, pauses, buf[st.pos - base..], st).st)
  {
    hide Concat, Find, ClosingQuote;
  }

  lemma NumberAdvances(f: FiltersChain, buf: string, base: nat, st: State)
    requires Within(buf, base, st) && st.pos < base + |buf| && StartsNumber(buf[st.pos - base])
    requires NumberStep(f, buf[st.pos - base..], st).Next?
    ensures Advances(buf, base, st, NumberStep(f, buf[st.pos - base..], st).st)
  {
    hide Concat, Find;
  }

  lemma TokenAdvances(f: FiltersChain, pauses: nat -> bool, buf: string, base: nat, st: State)
    requires Within(buf, base, st) && st.pos < base + |buf|
    requires !IsOpen(buf[st.pos - base]) && !IsClose(buf[st.pos - base])
    requires Step(f, pauses, buf, base, st).Next?
    ensures Advances(buf, base, st, Step(f, pauses, buf, base, st).st)
  {
    hide Concat, Find, OpenStep, CloseStep, StringStep, NumberStep;
    var c := buf[st.pos - base];
    assert buf[st.pos - base..][0] == c;
    if c == QUOTE {
      StringAdvances(f, pauses, buf, base, st);
    } else if StartsNumber(c) && c != ',' {
      NumberAdvances(f, buf, base, st);
    }
  }

  /** A step keeps the shape of the state and moves on inside the chunk. */
  lemma StepAdvances(f: FiltersChain, pauses: nat -> bool, buf: string, base: nat, st: State)
    requires Within(buf, base, st)
    requires Step(f, pauses, buf, base, st).Next?
    ensures Advances(buf, base, st, Step(f, pauses, buf, base, st).st)
  {
    if IsOpen(buf[st.pos - base]) {
      OpenAdvances(f, pauses, buf, base, st);
    } else if IsClose(buf[st.pos - base]) {
      CloseAdvances(f, pauses, buf, base, st);
    } else {
      TokenAdvances(f, pauses, buf, base, st);
    }
  }
}
