/** The language of the splitter: a grammar for exactly the texts on which a stream finishes. */
module SplitterLanguage {
  import opened Wrappers
  import opened JsonScan
  import opened Brackets
  import opened SplitterSpec
  import opened SplitterRuns
  import opened Trees = SplitterTree

  // ----- The grammar

  datatype Value = Quoted(token: string) | Digits(token: string) | Block(isArray: bool, body: Body)

  /** What stands in a pair of brackets, one token after the other. */
  datatype Body =
    | End
    | Blank(rest: Body)
    | Comma(rest: Body)
    | Name(token: string, rest: Body)
    | Item(value: Value, rest: Body)

  /** A whole document: one value in brackets or an error code. Before it there may be strings, each followed by the
      name of what comes next. */
  datatype Document =
    | Tree(isArray: bool, body: Body)
    | Code(token: string)
    | Space(rest: Document)
    | Title(token: string, rest: Document)
    | Note(token: string, rest: Document)

  /** What is wanted first in a pair of brackets. */
  function First(isArray: bool): int { if isArray then 1 else 0 }

  /** Values stand where one is allowed (1) or due (-1), names and commas where none is (0), and a body does not
      end where one is due. */
  predicate Legal(b: Body, isArray: bool, want: int) {
    match b
    case End => want >= 0
    case Blank(rest) => Legal(rest, isArray, want)
    case Comma(rest) => want == 0 && Legal(rest, isArray, First(isArray))
    case Name(token, rest) => want == 0 && IsString(token) && Legal(rest, isArray, -1)
    case Item(value, rest) => want != 0 && LegalValue(value) && Legal(rest, isArray, 0)
  }

  predicate LegalValue(v: Value) {
    match v
    case Quoted(token) => IsString(token)
    case Digits(token) => IsNumber(token)
    case Block(isArray, body) => Legal(body, isArray, First(isArray))
  }

  predicate LegalDocument(d: Document, want: int) {
    match d
    case Tree(isArray, body) => want != 0 && Legal(body, isArray, First(isArray))
    case Code(token) => want != 0 && IsNumber(token)
    case Space(rest) => LegalDocument(rest, want)
    case Title(token, rest) => want == 0 && IsString(token) && LegalDocument(rest, -1)
    case Note(token, rest) => want != 0 && IsString(token) && LegalDocument(rest, 0)
  }

  function Show(b: Body): string {
    match b
    case End => ""
    case Blank(rest) => " " + Show(rest)
    case Comma(rest) => "," + Show(rest)
    case Name(token, rest) => token + ":" + Show(rest)
    case Item(value, rest) => ShowValue(value) + Show(rest)
  }

  function ShowValue(v: Value): string {
    match v
    case Quoted(token) => token
    case Digits(token) => token
    case Block(isArray, body) => [Open(isArray)] + Show(body) + [Shut(isArray)]
  }

  function ShowDocument(d: Document): string {
    match d
    case Tree(isArray, body) => [Open(isArray)] + Show(body) + [Shut(isArray)]
    case Code(token) => token
    case Space(rest) => " " + ShowDocument(rest)
    case Title(token, rest) => token + ":" + ShowDocument(rest)
    case Note(token, rest) => token + ShowDocument(rest)
  }

  predicate EndsInCode(d: Document) {
    match d
    case Tree(_, _) => false
    case Code(_) => true
    case Space(rest) => EndsInCode(rest)
    case Title(_, rest) => EndsInCode(rest)
    case Note(_, rest) => EndsInCode(rest)
  }

  /** The first n characters are a document; an error code shows its end by what follows. */
  ghost predicate Sentence(doc: string, n: nat) {
    && n <= |doc|
    && exists d: Document :: Spells(d, 1, doc, n)
  }

  ghost predicate Spells(d: Document, want: int, s: string, n: nat) {
    && n <= |s| && LegalDocument(d, want) && ShowDocument(d) == s[..n]
    && (EndsInCode(d) ==> n < |s| && !IsNumChar(s[n]))
  }

  // ----- The splitter without positions, paths and callbacks

  /** What the first token of a text does: nothing legal, the end of the document, or a new state behind it. */
  datatype Move = Stop | Done(n: nat) | Go(n: nat, stack: seq<bool>, want: int)

  function Innermost(stack: seq<bool>): bool
    requires stack != []
  {
    stack[|stack| - 1]
  }

  function CloseMove(c: char, stack: seq<bool>, want: int): Move {
    if want < 0 || stack == [] || c != Shut(Innermost(stack)) then Stop
    else if |stack| == 1 then Done(1)
    else Go(1, stack[..|stack| - 1], 0)
  }

  function QuoteMove(s: string, stack: seq<bool>, want: int): (m: Move)
    requires s != ""
    ensures m.Go? ==> 0 < m.n <= |s|
  {
    match StrEnd(s)
    case None => Stop
    case Some(t) =>
      if want != 0 then Go(t, stack, 0)
      else if t == |s| || s[t] != ':' then Stop
      else Go(t + 1, stack, -1)
  }

  function NumberMove(s: string, stack: seq<bool>, want: int): Move {
    var j := NumEnd(s);
    if want == 0 || j == |s| then Stop else if stack == [] then Done(j) else Go(j, stack, 0)
  }

  function MoveOf(s: string, stack: seq<bool>, want: int): (m: Move)
    ensures m.Go? || m.Done? ==> 0 < m.n <= |s|
  {
    if s == "" then Stop
    else if IsOpen(s[0]) then
      if want == 0 then Stop else Go(1, stack + [s[0] == '['], First(s[0] == '['))
    else if IsClose(s[0]) then CloseMove(s[0], stack, want)
    else if s[0] == ',' then
      if want != 0 || stack == [] then Stop else Go(1, stack, First(Innermost(stack)))
    else if s[0] == QUOTE then QuoteMove(s, stack, want)
    else if StartsNumber(s[0]) then NumberMove(s, stack, want)
    else if s[0] == ' ' then Go(1, stack, want)
    else Stop
  }

  /** How much of a text completes the document whose open brackets are given. */
  function Reads(s: string, stack: seq<bool>, want: int): (r: Option<nat>)
    ensures r.Some? ==> r.value <= |s|
    decreases |s|
  {
    match MoveOf(s, stack, want)
    case Stop => None
    case Done(n) => Some(n)
    case Go(n, stack', want') =>
      match Reads(s[n..], stack', want')
      case None => None
      case Some(m) => Some(n + m)
  }

  // ----- The splitter does the same

  /** The callback answers no. */
  ghost predicate Refuses(f: FiltersChain, e: Event) {
    match e
    case Started => Find(f, "").Some? && !Find(f, "").value("")
    case Delivered(_, key, text, _) => Find(f, key).Some? && !Find(f, key).value(text)
    case ParseError(_) => false
  }

  ghost predicate Refused(f: FiltersChain, log: seq<Event>) {
    exists i :: 0 <= i < |log| && Refuses(f, log[i])
  }

  ghost function Kinds(stack: seq<string>): seq<bool> {
    seq(|stack|, i requires 0 <= i < |stack| => stack[i] != "" && stack[i][0] == '[')
  }

  /** The step answers the move, or a callback has refused. */
  ghost predicate Agrees(f: FiltersChain, st: State, m: Move, r: StepResult) {
    match m
    case Stop => r.Next? ==> r.st.status == Failed
    case Done(n) => r.Next? && (Quits(f, r.st) || (Carries(f, st, n, r.st) && r.st.status == Finished))
    case Go(n, stack, want) =>
      && r.Next?
      && (Quits(f, r.st)
          || (Carries(f, st, n, r.st) && r.st.status == Running && Kinds(r.st.stack) == stack && r.st.want == want))
  }

  ghost predicate Quits(f: FiltersChain, st: State) {
    st.status == Failed && Refused(f, st.log)
  }

  ghost predicate Carries(f: FiltersChain, st: State, n: nat, st': State) {
    st'.pos == st.pos + n && (Refused(f, st'.log) ==> Refused(f, st.log))
  }

  lemma RefusedLast(f: FiltersChain, st: State, e: Event)
    ensures Refuses(f, e) ==> Quits(f, Fail(f, Log(st, e)))
    ensures !Refuses(f, e) && Refused(f, st.log + [e]) ==> Refused(f, st.log)
  {
    hide Refuses;
    var log := st.log + [e];
    if Refuses(f, e) {
      var log' := Fail(f, Log(st, e)).log;
      assert log'[|st.log|] == e;
    } else if Refused(f, log) {
      var i :| 0 <= i < |log| && Refuses(f, log[i]);
      assert st.log[i] == log[i];
    }
  }

  lemma OpenAgrees(f: FiltersChain, c: char, st: State)
    requires Valid(st) && IsOpen(c) && st.status == Running
    ensures Agrees(f, st, if st.want == 0 then Stop else Go(1, Kinds(st.stack) + [c == '['], First(c == '[')),
                   Next(OpenStep(f, c, st)))
  {
    hide Find, Concat, Refused;
    assert Kinds(st.stack + [[c] + st.name]) == Kinds(st.stack) + [c == '['];
  }

  lemma LeaveAgrees(f: FiltersChain, st: State, st1: State)
    requires Valid(st) && st.stack != [] && st1.stack == st.stack && |st.stack[|st.stack| - 1]| <= |st1.path|
    requires Carries(f, st, 1, st1) && st1.status == Running
    ensures var n := |st.stack| - 1;
            Agrees(f, st, if n == 0 then Done(1) else Go(1, Kinds(st.stack)[..n], 0), Next(Leave(st1)))
  {
    hide Refused, Concat;
    var n := |st.stack| - 1;
    assert Kinds(st.stack[..n]) == Kinds(st.stack)[..n];
  }

  lemma MatchedAgrees(f: FiltersChain, key: string, text: string, st: State)
    requires Valid(st) && st.stack != [] && st.status == Running
    ensures var n := |st.stack| - 1;
            Agrees(f, st, if n == 0 then Done(1) else Go(1, Kinds(st.stack)[..n], 0),
                   Next(CloseMatched(f, key, text, st)))
  {
    hide Leave, Refused, Concat, Fail, Quits, Find;
    PathHolds(st);
    var st1 := st.(name := "", pos := st.pos + 1);
    var e := Delivered(Container, key, text, st.last);
    RefusedLast(f, st1, e);
    if Find(f, key).None? {
      LeaveAgrees(f, st, st1);
    } else if Find(f, key).value(text) {
      LeaveAgrees(f, st, Log(st1, e).(last := st1.pos));
    }
  }

  lemma CloseAgrees(f: FiltersChain, buf: string, c: char, st: State)
    requires Within(buf, 0, st) && st.pos < |buf| && IsClose(c) && st.status == Running
    ensures Agrees(f, st, CloseMove(c, Kinds(st.stack), st.want), Next(CloseStep(f, buf, 0, c, st)))
  {
    hide CloseMatched, Concat, Find, Refused;
    if st.stack != [] {
      assert Innermost(Kinds(st.stack)) == (Top(st) == '[');
      MatchedAgrees(f, CloseKey(buf, 0, c, st), buf[st.last..st.pos + 1], st);
    }
  }

  lemma CommaAgrees(f: FiltersChain, st: State)
    requires Valid(st) && st.status == Running
    ensures var kinds := Kinds(st.stack);
            Agrees(f, st, if st.want != 0 || kinds == [] then Stop else Go(1, kinds, First(Innermost(kinds))),
                   Next(CommaStep(f, st)))
  {
    hide Find, Concat, Refused;
  }

  lemma StringValueAgrees(f: FiltersChain, token: string, st: State)
    requires st.status == Running
    ensures Agrees(f, st, Go(|token|, Kinds(st.stack), 0), StringValueStep(f, Never, token, st))
  {
    hide Find, Kinds, Refused, Fail, Quits;
    RefusedLast(f, st, Delivered(StringValue, StringKey(st.path, st.name), token, st.pos));
  }

  lemma StringAgrees(f: FiltersChain, s: string, st: State)
    requires st.status == Running && s != ""
    ensures Agrees(f, st, QuoteMove(s, Kinds(st.stack), st.want), StringStep(f, Never, s, st))
  {
    hide Find, Kinds, Refused, ClosingQuote, StringValueStep;
    if StrEnd(s).Some? && st.want != 0 {
      StringValueAgrees(f, s[..StrEnd(s).value], st);
    }
  }

  lemma NumberAgrees(f: FiltersChain, s: string, st: State)
    requires st.status == Running
    ensures Agrees(f, st, NumberMove(s, Kinds(st.stack), st.want), NumberStep(f, s, st))
  {
    hide Find, Refused, NumEnd, Quits;
    assert st.stack == [] <==> Kinds(st.stack) == [];
    var j := NumEnd(s);
    if st.want != 0 && j < |s| && st.stack == [] {
      RefusedLast(f, st.(pos := st.pos + j, want := 0), Delivered(Number, "#", s[..j], st.last));
    }
  }

  lemma StepAgrees(f: FiltersChain, doc: string, st: State)
    requires Within(doc, 0, st) && st.status == Running
    ensures Agrees(f, st, MoveOf(doc[st.pos..], Kinds(st.stack), st.want), Step(f, Never, doc, 0, st))
  {
    hide OpenStep, CloseStep, CommaStep, StringStep, NumberStep, QuoteMove, NumberMove, CloseMove, Kinds, Find, Valid;
    if st.pos < |doc| {
      var s := doc[st.pos..];
      if IsOpen(s[0]) {
        OpenAgrees(f, s[0], st);
      } else if IsClose(s[0]) {
        CloseAgrees(f, doc, s[0], st);
      } else if s[0] == ',' {
        CommaAgrees(f, st);
        KindsEmpty(st.stack);
      } else if s[0] == QUOTE {
        StringAgrees(f, s, st);
      } else if StartsNumber(s[0]) {
        NumberAgrees(f, s, st);
      }
    }
  }

  lemma KindsEmpty(stack: seq<string>)
    ensures Kinds(stack) == [] <==> stack == []
  {
  }

  /** The loop finishes where the reading says, unless a callback refuses. */
  lemma {:induction false} LoopReads(f: FiltersChain, doc: string, st: State)
    requires Within(doc, 0, st) && st.status == Running
    ensures var r, n := Loop(f, Never, doc, 0, st).0, Reads(doc[st.pos..], Kinds(st.stack), st.want);
            && (r.status == Finished ==>
                  n == Some(r.pos - st.pos) && (Refused(f, r.log) ==> Refused(f, st.log)))
            && (n.Some? && r.status != Finished ==> Refused(f, r.log))
    decreases |doc| - st.pos
  {
    hide Step, MoveOf, Kinds, Refused, Within;
    StepAgrees(f, doc, st);
    WithinEnds(doc, st);
    var s := doc[st.pos..];
    var m := MoveOf(s, Kinds(st.stack), st.want);
    if m.Go? {
      var st' := Step(f, Never, doc, 0, st).st;
      if st'.status == Running {
        StepAdvances(f, Never, doc, 0, st);
        WithinEnds(doc, st');
        LoopReads(f, doc, st');
        assert s[m.n..] == doc[st'.pos..];
      }
    }
  }

  lemma WithinEnds(doc: string, st: State)
    requires Within(doc, 0, st)
    ensures st.last <= st.pos <= |doc|
  {
  }

  /** One call on a text: it finishes if and only if the reading does and no callback refuses. */
  lemma WholeReads(f: FiltersChain, doc: string)
    ensures var r := Whole(f, doc);
            && (r.status == Finished <==> Reads(doc, [], 1).Some? && !Refused(f, r.log))
            && (r.status == Finished ==> Reads(doc, [], 1) == Some(r.pos))
  {
    hide Loop, Reads, Find;
    var st := Begin(f, Init);
    RefusedLast(f, Init, Started);
    if st.status == Running {
      assert doc[0..] == doc && Kinds([]) == [];
      LoopReads(f, doc, st);
    }
  }

  // ----- The reading accepts the grammar

  /** The text that completes the open brackets, the innermost, which is the last, first. */
  function Rest(stack: seq<bool>, bodies: seq<Body>): string
    requires |stack| == |bodies|
  {
    if stack == [] then "" else
    var n := |stack| - 1;
    Show(bodies[n]) + [Shut(stack[n])] + Rest(stack[..n], bodies[..n])
  }

  predicate LegalRest(stack: seq<bool>, bodies: seq<Body>, want: int) {
    && |stack| == |bodies|
    && (stack != [] ==>
          var n := |stack| - 1;
          Legal(bodies[n], stack[n], want) && LegalRest(stack[..n], bodies[..n], 0))
  }

  lemma RestAdd(stack: seq<bool>, bodies: seq<Body>, isArray: bool, b: Body, want: int)
    requires |stack| == |bodies|
    ensures Rest(stack + [isArray], bodies + [b]) == Show(b) + [Shut(isArray)] + Rest(stack, bodies)
    ensures LegalRest(stack + [isArray], bodies + [b], want) <==> Legal(b, isArray, want) && LegalRest(stack, bodies, 0)
  {
    var n := |stack|;
    assert (stack + [isArray])[..n] == stack && (bodies + [b])[..n] == bodies;
  }

  /** The same from the whole lists. */
  lemma RestLast(stack: seq<bool>, bodies: seq<Body>, want: int)
    requires |stack| == |bodies| > 0
    ensures var n := |stack| - 1;
            && stack == stack[..n] + [stack[n]] && bodies == bodies[..n] + [bodies[n]]
            && Rest(stack, bodies) == Show(bodies[n]) + [Shut(stack[n])] + Rest(stack[..n], bodies[..n])
            && (LegalRest(stack, bodies, want) <==>
                Legal(bodies[n], stack[n], want) && LegalRest(stack[..n], bodies[..n], 0))
  {
  }

  /** The token in front of a text: its length is that of the token, whatever follows. */
  lemma StringMove(token: string, rest: string, stack: seq<bool>, want: int)
    requires IsString(token)
    ensures want != 0 ==> MoveOf(token + rest, stack, want) == Go(|token|, stack, 0)
    ensures want == 0 && rest != "" && rest[0] == ':' ==>
              MoveOf(token + rest, stack, want) == Go(|token| + 1, stack, -1)
  {
    hide ClosingQuote;
    StrEndExtend(token, rest);
    assert (token + rest)[0] == QUOTE;
  }

  lemma NumberMoves(token: string, rest: string, stack: seq<bool>, want: int)
    requires IsNumber(token) && rest != "" && !IsNumChar(rest[0]) && want != 0
    ensures MoveOf(token + rest, stack, want) == if stack == [] then Done(|token|) else Go(|token|, stack, 0)
  {
    NumEndIs(token, rest);
    assert (token + rest)[0] == token[0];
  }

  lemma {:induction false} NumEndIs(token: string, rest: string)
    requires NumEnd(token) == |token| && rest != "" && !IsNumChar(rest[0])
    ensures NumEnd(token + rest) == |token|
  {
    if token == "" {
      assert token + rest == rest;
    } else {
      assert (token + rest)[1..] == token[1..] + rest;
      NumEndIs(token[1..], rest);
    }
  }

  /** What follows a value in a body does not go on with a number. */
  lemma {:induction false} NoNumberNext(b: Body, isArray: bool, more: string)
    requires Legal(b, isArray, 0)
    ensures var s := Show(b) + [Shut(isArray)] + more; s != "" && !IsNumChar(s[0])
  {
    match b
    case Name(token, rest) => assert (Show(b) + [Shut(isArray)] + more)[0] == token[0] == QUOTE;
    case _ =>
  }

  /** A move on the front of a text, and the reading of what is behind it. */
  lemma MoveThen(front: string, rest: string, tail: string, stack: seq<bool>, want: int, stack': seq<bool>, want': int)
    requires MoveOf(front + rest + tail, stack, want) == Go(|front|, stack', want')
    requires Reads(rest + tail, stack', want') == Some(|rest|)
    ensures Reads(front + rest + tail, stack, want) == Some(|front + rest|)
  {
    hide MoveOf;
    assert (front + rest + tail)[|front|..] == rest + tail;
  }

  /** The text behind the bracket of a body, up to the end of the document. */
  function Remainder(b: Body, isArray: bool, below: seq<bool>, bodies: seq<Body>): string
    requires |below| == |bodies|
  {
    Show(b) + [Shut(isArray)] + Rest(below, bodies)
  }

  /** A body that starts with a token of the innermost bracket. */
  lemma TokenThen(b: Body, r: Body, front: string, isArray: bool, below: seq<bool>, bodies: seq<Body>,
                  want: int, want': int, tail: string)
    requires |below| == |bodies| && Show(b) == front + Show(r)
    requires MoveOf(front + (Remainder(r, isArray, below, bodies) + tail), below + [isArray], want)
             == Go(|front|, below + [isArray], want')
    requires Reads(Remainder(r, isArray, below, bodies) + tail, below + [isArray], want')
             == Some(|Remainder(r, isArray, below, bodies)|)
    ensures Reads(Remainder(b, isArray, below, bodies) + tail, below + [isArray], want)
            == Some(|Remainder(b, isArray, below, bodies)|)
  {
    hide MoveOf, Reads, Show, Rest;
    var rest := Remainder(r, isArray, below, bodies);
    assert Remainder(b, isArray, below, bodies) == front + rest;
    assert front + rest + tail == front + (rest + tail);
    MoveThen(front, rest, tail, below + [isArray], want, below + [isArray], want');
  }

  lemma BlockText(k: bool, inner: Body, r: Body, isArray: bool, below: seq<bool>, bodies: seq<Body>)
    requires |below| == |bodies|
    ensures Remainder(Item(Block(k, inner), r), isArray, below, bodies)
            == [Open(k)] + Remainder(inner, k, below + [isArray], bodies + [r])
  {
    hide Rest, Open, Shut, Show;
    RestAdd(below, bodies, isArray, r, 0);
    ItemSize(Block(k, inner), r);
  }

  /** A body that starts with a block: the block comes first, then the body goes on. */
  lemma BlockThen(k: bool, inner: Body, r: Body, isArray: bool, below: seq<bool>, bodies: seq<Body>, want: int,
                  tail: string)
    requires |below| == |bodies| && want != 0
    requires var rest := Remainder(inner, k, below + [isArray], bodies + [r]);
             Reads(rest + tail, below + [isArray] + [k], First(k)) == Some(|rest|)
    ensures var all := Remainder(Item(Block(k, inner), r), isArray, below, bodies);
            Reads(all + tail, below + [isArray], want) == Some(|all|)
  {
    hide Reads, Rest, MoveOf, Remainder, Open, Show;
    var rest := Remainder(inner, k, below + [isArray], bodies + [r]);
    BlockText(k, inner, r, isArray, below, bodies);
    OpenMove(k, rest + tail, below + [isArray], want);
    assert [Open(k)] + rest + tail == [Open(k)] + (rest + tail);
    MoveThen([Open(k)], rest, tail, below + [isArray], want, below + [isArray] + [k], First(k));
  }

  /** The last bracket of a body. */
  lemma EndThen(isArray: bool, below: seq<bool>, bodies: seq<Body>, want: int, tail: string)
    requires |below| == |bodies| && want >= 0
    requires below != [] ==> Reads(Rest(below, bodies) + tail, below, 0) == Some(|Rest(below, bodies)|)
    ensures var all := Remainder(End, isArray, below, bodies);
            Reads(all + tail, below + [isArray], want) == Some(|all|)
  {
    var stack := below + [isArray];
    var rest := Rest(below, bodies);
    assert stack[..|stack| - 1] == below && Innermost(stack) == isArray;
    assert Remainder(End, isArray, below, bodies) == [Shut(isArray)] + rest;
    if below != [] {
      MoveThen([Shut(isArray)], rest, tail, stack, want, below, 0);
    }
  }

  /** Every legal body, with what completes the brackets around it, is read to its end. */
  lemma {:induction false} BodyReads(b: Body, isArray: bool, below: seq<bool>, bodies: seq<Body>, want: int,
                                     tail: string)
    requires Legal(b, isArray, want) && |below| == |bodies| && LegalRest(below, bodies, 0)
    ensures var all := Remainder(b, isArray, below, bodies);
            Reads(all + tail, below + [isArray], want) == Some(|all|)
    decreases |Remainder(b, isArray, below, bodies)|
  {
    hide Reads, MoveOf, Rest, LegalRest, IsString, IsNumber;
    match b
    case End =>
      if below != [] {
        var n := |below| - 1;
        RestLast(below, bodies, 0);
        BodyReads(bodies[n], below[n], below[..n], bodies[..n], 0, tail);
      }
      EndThen(isArray, below, bodies, want, tail);
    case Blank(r) =>
      BodyReads(r, isArray, below, bodies, want, tail);
      CharMove(Remainder(r, isArray, below, bodies) + tail, below, isArray, want);
      TokenThen(b, r, " ", isArray, below, bodies, want, want, tail);
    case Comma(r) =>
      BodyReads(r, isArray, below, bodies, First(isArray), tail);
      CharMove(Remainder(r, isArray, below, bodies) + tail, below, isArray, want);
      TokenThen(b, r, ",", isArray, below, bodies, want, First(isArray), tail);
    case Name(token, r) =>
      var rest := Remainder(r, isArray, below, bodies) + tail;
      BodyReads(r, isArray, below, bodies, -1, tail);
      StringMove(token, ":" + rest, below + [isArray], want);
      assert token + (":" + rest) == token + ":" + rest;
      TokenThen(b, r, token + ":", isArray, below, bodies, want, -1, tail);
    case Item(Quoted(token), r) =>
      TokenSize(token);
      ItemSize(b.value, r);
      BodyReads(r, isArray, below, bodies, 0, tail);
      StringMove(token, Remainder(r, isArray, below, bodies) + tail, below + [isArray], want);
      TokenThen(b, r, token, isArray, below, bodies, want, 0, tail);
    case Item(Digits(token), r) =>
      TokenSize(token);
      ItemSize(b.value, r);
      BodyReads(r, isArray, below, bodies, 0, tail);
      NoNumberNext(r, isArray, Rest(below, bodies));
      NumberMoves(token, Remainder(r, isArray, below, bodies) + tail, below + [isArray], want);
      TokenThen(b, r, token, isArray, below, bodies, want, 0, tail);
    case Item(Block(k, inner), r) =>
      RestAdd(below, bodies, isArray, r, 0);
      ItemSize(b.value, r);
      BodyReads(inner, k, below + [isArray], bodies + [r], First(k), tail);
      BlockThen(k, inner, r, isArray, below, bodies, want, tail);
  }

  lemma TokenSize(token: string)
    ensures IsString(token) || IsNumber(token) ==> token != ""
  {
  }

  lemma ItemSize(v: Value, r: Body)
    ensures Show(Item(v, r)) == ShowValue(v) + Show(r)
    ensures ShowValue(v) == if v.Block? then [Open(v.isArray)] + Show(v.body) + [Shut(v.isArray)] else v.token
  {
  }

  lemma CharMove(rest: string, below: seq<bool>, isArray: bool, want: int)
    ensures MoveOf(" " + rest, below + [isArray], want) == Go(1, below + [isArray], want)
    ensures want == 0 ==> MoveOf("," + rest, below + [isArray], want) == Go(1, below + [isArray], First(isArray))
  {
  }

  /** Every legal document is read to its end. */
  lemma {:induction false} DocumentReads(d: Document, want: int, tail: string)
    requires LegalDocument(d, want) && (EndsInCode(d) ==> tail != "" && !IsNumChar(tail[0]))
    ensures Reads(ShowDocument(d) + tail, [], want) == Some(|ShowDocument(d)|)
  {
    hide Reads, MoveOf, IsString, IsNumber, Show;
    match d
    case Tree(isArray, body) =>
      BodyReads(body, isArray, [], [], First(isArray), tail);
      var rest := Remainder(body, isArray, [], []);
      assert [] + [isArray] == [isArray] && ShowDocument(d) == [Open(isArray)] + rest;
      OpenMove(isArray, rest + tail, [], want);
      assert [Open(isArray)] + rest + tail == [Open(isArray)] + (rest + tail);
      MoveThen([Open(isArray)], rest, tail, [], want, [isArray], First(isArray));
    case Code(token) =>
      NumberMoves(token, tail, [], want);
      MoveDone(token + tail, [], want);
    case Space(r) =>
      var rest := ShowDocument(r);
      DocumentReads(r, want, tail);
      BlankMove(rest + tail, want);
      assert " " + rest + tail == " " + (rest + tail);
      MoveThen(" ", rest, tail, [], want, [], want);
    case Title(token, r) =>
      var rest := ShowDocument(r);
      DocumentReads(r, -1, tail);
      StringMove(token, ":" + (rest + tail), [], want);
      assert token + ":" + rest + tail == token + (":" + (rest + tail));
      MoveThen(token + ":", rest, tail, [], want, [], -1);
    case Note(token, r) =>
      var rest := ShowDocument(r);
      DocumentReads(r, 0, tail);
      StringMove(token, rest + tail, [], want);
      assert token + rest + tail == token + (rest + tail);
      MoveThen(token, rest, tail, [], want, [], 0);
  }

  lemma OpenMove(isArray: bool, rest: string, stack: seq<bool>, want: int)
    requires want != 0
    ensures MoveOf([Open(isArray)] + rest, stack, want) == Go(1, stack + [isArray], First(isArray))
  {
  }

  lemma BlankMove(rest: string, want: int)
    ensures MoveOf(" " + rest, [], want) == Go(1, [], want)
  {
  }

  lemma MoveDone(s: string, stack: seq<bool>, want: int)
    requires MoveOf(s, stack, want).Done?
    ensures Reads(s, stack, want) == Some(MoveOf(s, stack, want).n)
  {
  }

  // ----- And nothing else

  lemma {:induction false} ClosingQuotePrefix(s: string, i: nat, esc: bool, q: nat)
    requires i <= |s| && ClosingQuote(s, i, esc) == Some(q)
    ensures ClosingQuote(s[..q + 1], i, esc) == Some(q)
    decreases |s| - i
  {
    if esc {
      ClosingQuotePrefix(s, i + 1, false, q);
    } else if s[i] != QUOTE {
      ClosingQuotePrefix(s, i + 1, s[i] == BACKSLASH, q);
    }
  }

  lemma StringToken(s: string)
    requires s != "" && s[0] == QUOTE && StrEnd(s).Some?
    ensures IsString(s[..StrEnd(s).value])
  {
    ClosingQuotePrefix(s, 1, false, StrEnd(s).value - 1);
  }

  lemma {:induction false} NumEndPrefix(s: string)
    ensures NumEnd(s[..NumEnd(s)]) == NumEnd(s)
  {
    if s != "" && IsNumChar(s[0]) {
      NumEndPrefix(s[1..]);
      assert s[..NumEnd(s)][1..] == s[1..][..NumEnd(s[1..])];
    }
  }

  lemma NumberToken(s: string)
    requires s != "" && StartsNumber(s[0])
    ensures IsNumber(s[..NumEnd(s)])
  {
    NumEndPrefix(s);
  }

  /** The reading of a text goes on behind its first token. */
  lemma ReadsBehind(s: string, stack: seq<bool>, want: int)
    requires Reads(s, stack, want).Some? && MoveOf(s, stack, want).Go?
    ensures var m := MoveOf(s, stack, want);
            var r := Reads(s[m.n..], m.stack, m.want);
            && r.Some? && Reads(s, stack, want).value == m.n + r.value
            && s[..m.n + r.value] == s[..m.n] + s[m.n..][..r.value]
  {
  }

  /** A token in front of the innermost body. */
  lemma Prefixed(stack: seq<bool>, bodies: seq<Body>, b: Body, front: string, want': int, want: int)
      returns (all: seq<Body>)
    requires stack != [] && LegalRest(stack, bodies, want')
    requires Show(b) == front + Show(bodies[|stack| - 1])
    requires Legal(bodies[|stack| - 1], stack[|stack| - 1], want') ==> Legal(b, stack[|stack| - 1], want)
    ensures LegalRest(stack, all, want) && Rest(stack, all) == front + Rest(stack, bodies)
  {
    hide Show, Legal, Rest, LegalRest;
    LegalSize(stack, bodies, want');
    var n := |stack| - 1;
    RestLast(stack, bodies, want');
    all := bodies[..n] + [b];
    RestAdd(stack[..n], bodies[..n], stack[n], b, want);
  }

  lemma LegalSize(stack: seq<bool>, bodies: seq<Body>, want: int)
    requires LegalRest(stack, bodies, want)
    ensures |stack| == |bodies|
  {
  }

  /** The block that the innermost brackets complete, in front of the body around it. */
  lemma Enclosed(stack: seq<bool>, k: bool, bodies: seq<Body>, want: int) returns (all: seq<Body>)
    requires stack != [] && want != 0 && LegalRest(stack + [k], bodies, First(k))
    ensures LegalRest(stack, all, want) && Rest(stack, all) == [Open(k)] + Rest(stack + [k], bodies)
  {
    hide Show, Rest, LegalRest, Open, Shut;
    LegalSize(stack + [k], bodies, First(k));
    var n := |stack|;
    RestLast(stack + [k], bodies, First(k));
    assert (stack + [k])[..n] == stack;
    var outer := bodies[..n];
    var b := Item(Block(k, bodies[n]), outer[n - 1]);
    ItemSize(b.value, b.rest);
    all := Prefixed(stack, outer, b, ShowValue(b.value), 0, want);
  }

  /** Whatever completes the open brackets is legal. */
  lemma {:induction false} RestParses(s: string, stack: seq<bool>, want: int) returns (bodies: seq<Body>)
    requires stack != [] && Reads(s, stack, want).Some?
    ensures LegalRest(stack, bodies, want) && Rest(stack, bodies) == s[..Reads(s, stack, want).value]
    decreases |s|
  {
    hide Reads, Rest, LegalRest, QuoteMove, NumberMove, IsString, IsNumber;
    var m := MoveOf(s, stack, want);
    ReadsMoves(s, stack, want);
    if m.Done? {
      bodies := LastEnd(s, stack, want);
    } else {
      ReadsBehind(s, stack, want);
      GoKeeps(s, stack, want);
      var inner := RestParses(s[m.n..], m.stack, m.want);
      bodies := PutBack(s, stack, want, inner);
    }
  }

  lemma ReadsMoves(s: string, stack: seq<bool>, want: int)
    requires Reads(s, stack, want).Some?
    ensures var m := MoveOf(s, stack, want); !m.Stop? && (m.Done? ==> Reads(s, stack, want) == Some(m.n))
  {
  }

  lemma GoKeeps(s: string, stack: seq<bool>, want: int)
    requires stack != [] && MoveOf(s, stack, want).Go?
    ensures MoveOf(s, stack, want).stack != []
  {
  }

  lemma LastEnd(s: string, stack: seq<bool>, want: int) returns (bodies: seq<Body>)
    requires stack != [] && MoveOf(s, stack, want).Done?
    ensures LegalRest(stack, bodies, want) && Rest(stack, bodies) == s[..MoveOf(s, stack, want).n]
  {
    hide ClosingQuote, NumEnd;
    bodies := [End];
    assert stack[..0] == [] && bodies[..0] == [];
    assert s[..1] == [s[0]];
  }

  /** The first token in front of what was found behind it. */
  lemma PutBack(s: string, stack: seq<bool>, want: int, inner: seq<Body>) returns (bodies: seq<Body>)
    requires stack != [] && MoveOf(s, stack, want).Go?
    requires LegalRest(MoveOf(s, stack, want).stack, inner, MoveOf(s, stack, want).want)
    ensures LegalRest(stack, bodies, want) && |MoveOf(s, stack, want).stack| == |inner|
    ensures Rest(stack, bodies) == s[..MoveOf(s, stack, want).n] + Rest(MoveOf(s, stack, want).stack, inner)
  {
    hide Rest, LegalRest, ClosingQuote, NumEnd, IsString, IsNumber;
    var m := MoveOf(s, stack, want);
    assert s[..1] == [s[0]];
    LegalSize(m.stack, inner, m.want);
    if IsOpen(s[0]) {
      bodies := Enclosed(stack, s[0] == '[', inner, want);
    } else if IsClose(s[0]) {
      var n := |stack| - 1;
      assert stack == stack[..n] + [stack[n]];
      bodies := inner + [End];
      RestAdd(m.stack, inner, stack[n], End, want);
    } else {
      bodies := PutToken(s, stack, want, inner);
    }
  }

  lemma PutToken(s: string, stack: seq<bool>, want: int, inner: seq<Body>) returns (bodies: seq<Body>)
    requires stack != [] && MoveOf(s, stack, want).Go? && !IsOpen(s[0]) && !IsClose(s[0]) && |inner| == |stack|
    requires LegalRest(stack, inner, MoveOf(s, stack, want).want)
    ensures LegalRest(stack, bodies, want)
    ensures Rest(stack, bodies) == s[..MoveOf(s, stack, want).n] + Rest(stack, inner)
  {
    hide Rest, LegalRest, IsString, IsNumber, NumEnd, ClosingQuote;
    var m := MoveOf(s, stack, want);
    var r := inner[|stack| - 1];
    var front := s[..m.n];
    if s[0] == ',' {
      bodies := Prefixed(stack, inner, Comma(r), front, m.want, want);
    } else if s[0] == QUOTE {
      StringToken(s);
      var token := s[..StrEnd(s).value];
      if want != 0 {
        bodies := Prefixed(stack, inner, Item(Quoted(token), r), front, m.want, want);
      } else {
        assert front == token + ":";
        bodies := Prefixed(stack, inner, Name(token, r), front, m.want, want);
      }
    } else if StartsNumber(s[0]) {
      NumberToken(s);
      bodies := Prefixed(stack, inner, Item(Digits(front), r), front, m.want, want);
    } else {
      bodies := Prefixed(stack, inner, Blank(r), front, m.want, want);
    }
  }

  /** Whatever is read as a document is one. */
  lemma {:induction false} DocumentParses(s: string, want: int) returns (d: Document)
    requires Reads(s, [], want).Some?
    ensures Spells(d, want, s, Reads(s, [], want).value)
    decreases |s|
  {
    hide Reads, IsString, IsNumber, NumEnd, ClosingQuote, Rest, LegalRest;
    var m := MoveOf(s, [], want);
    ReadsMoves(s, [], want);
    if m.Done? {
      NumberToken(s);
      d := Code(s[..m.n]);
    } else {
      ReadsBehind(s, [], want);
      if IsOpen(s[0]) {
        d := TreeParses(s, want);
      } else {
        var r := DocumentParses(s[m.n..], m.want);
        d := PutFront(s, want, r);
      }
    }
  }

  lemma TreeParses(s: string, want: int) returns (d: Document)
    requires s != "" && IsOpen(s[0]) && Reads(s, [], want).Some?
    ensures Spells(d, want, s, Reads(s, [], want).value)
  {
    hide Reads, Rest, LegalRest, MoveOf, Show, Legal, Spells;
    var k := s[0] == '[';
    ReadsMoves(s, [], want);
    OpenMoves(s, want);
    ReadsBehind(s, [], want);
    var bodies := RestParses(s[1..], [k], First(k));
    LegalSize([k], bodies, First(k));
    RestLast([k], bodies, First(k));
    RestNone([k][..0], bodies[..0]);
    d := Tree(k, bodies[0]);
    TreeSpells(s, want, bodies[0], Reads(s, [], want).value);
  }

  lemma OpenMoves(s: string, want: int)
    requires s != "" && IsOpen(s[0]) && !MoveOf(s, [], want).Stop?
    ensures want != 0 && MoveOf(s, [], want) == Go(1, [s[0] == '['], First(s[0] == '['))
  {
    assert [] + [s[0] == '['] == [s[0] == '['];
  }

  lemma TreeSpells(s: string, want: int, b: Body, n: nat)
    requires 1 <= n <= |s| && IsOpen(s[0]) && want != 0
    requires var k := s[0] == '['; Legal(b, k, First(k)) && Show(b) + [Shut(k)] + "" == s[1..][..n - 1]
    ensures Spells(Tree(s[0] == '[', b), want, s, n)
  {
    hide Show, Legal;
    assert s[..n] == [s[0]] + s[1..][..n - 1];
  }

  lemma RestNone(stack: seq<bool>, bodies: seq<Body>)
    requires stack == [] && bodies == []
    ensures Rest(stack, bodies) == ""
  {
  }

  lemma PutFront(s: string, want: int, r: Document) returns (d: Document)
    requires Reads(s, [], want).Some? && MoveOf(s, [], want).Go? && !IsOpen(s[0])
    requires var m := MoveOf(s, [], want);
             var behind := Reads(s[m.n..], m.stack, m.want);
             m.stack == [] && behind.Some? && Spells(r, m.want, s[m.n..], behind.value)
    ensures Spells(d, want, s, Reads(s, [], want).value)
  {
    hide Reads, IsString, IsNumber, NumEnd, ClosingQuote;
    var m := MoveOf(s, [], want);
    ReadsBehind(s, [], want);
    if s[0] == QUOTE {
      StringToken(s);
      var token := s[..StrEnd(s).value];
      if want != 0 {
        d := Note(token, r);
      } else {
        assert s[..m.n] == token + ":";
        d := Title(token, r);
      }
    } else {
      assert s[..1] == " ";
      d := Space(r);
    }
  }

  // ----- The exact language

  lemma SentenceReads(doc: string, n: nat)
    ensures Sentence(doc, n) <==> Reads(doc, [], 1) == Some(n)
  {
    hide Reads, LegalDocument, ShowDocument;
    if Reads(doc, [], 1) == Some(n) {
      var d := DocumentParses(doc, 1);
    }
    if Sentence(doc, n) {
      var d :| Spells(d, 1, doc, n);
      assert doc == ShowDocument(d) + doc[n..];
      DocumentReads(d, 1, doc[n..]);
    }
  }

  /** One call finishes, after n characters, if and only if these are a document and no callback has refused. */
  lemma FinishedIff(f: FiltersChain, doc: string, n: nat)
    ensures var r := Whole(f, doc);
            r.status == Finished && r.pos == n <==> Sentence(doc, n) && !Refused(f, r.log)
  {
    hide Whole, Reads, Sentence, Refused;
    WholeReads(f, doc);
    SentenceReads(doc, n);
  }

  /** And so does every delivery in chunks, with any pauses. */
  lemma FinishedChunks(f: FiltersChain, doc: string, calls: seq<Request>, n: nat)
    requires ErrorOnlyAtStart(doc) && Complete(f, doc, calls)
    ensures var r := Run(f, doc, 0, calls, Init).0;
            r.status == Finished && r.pos == n <==> Sentence(doc, n) && !Refused(f, r.log)
  {
    hide Whole, Sentence, Refused;
    ChunkIndependenceAtStart(f, doc, calls);
    FinishedIff(f, doc, n);
  }

  /** With callbacks that never refuse, the text alone decides. */
  lemma AcceptingFinishes(f: FiltersChain, doc: string, n: nat)
    requires Accepting(f)
    ensures var r := Whole(f, doc); r.status == Finished && r.pos == n <==> Sentence(doc, n)
  {
    FinishedIff(f, doc, n);
  }

  /** No document is the beginning of another. */
  lemma SentenceUnique(doc: string, m: nat, n: nat)
    requires Sentence(doc, m) && Sentence(doc, n)
    ensures m == n
  {
    SentenceReads(doc, m);
    SentenceReads(doc, n);
  }

  /** Well-formed trees are documents. */
  lemma WellFormedIsSentence(v: Json, rest: string)
    requires v.Node? && WellFormed(v)
    ensures Sentence(Print(v) + rest, |Print(v)|)
  {
    WellFormedDocument([], v, rest);
    FinishedIff([], Print(v) + rest, |Print(v)|);
  }

  // ----- More than JSON

  function WithoutCommas(b: Body): Body {
    match b
    case End => End
    case Blank(rest) => Blank(WithoutCommas(rest))
    case Comma(rest) => WithoutCommas(rest)
    case Name(token, rest) => Name(token, WithoutCommas(rest))
    case Item(value, rest) => Item(value, WithoutCommas(rest))
  }

  lemma {:induction false} WithoutCommasLegal(b: Body, want: int)
    requires Legal(b, false, want)
    ensures Legal(WithoutCommas(b), false, want)
  {
    match b
    case End =>
    case Blank(rest) => WithoutCommasLegal(rest, want);
    case Comma(rest) => WithoutCommasLegal(rest, 0);
    case Name(_, rest) => WithoutCommasLegal(rest, -1);
    case Item(_, rest) => WithoutCommasLegal(rest, 0);
  }

  /** The splitter asks for no comma in an object: every document that is one stays one without its commas. */
  lemma CommasFree(b: Body, rest: string)
    requires Legal(b, false, 0)
    ensures var text := "{" + Show(b) + "}"; Sentence(text + rest, |text|)
    ensures var text := "{" + Show(WithoutCommas(b)) + "}"; Sentence(text + rest, |text|)
  {
    WithoutCommasLegal(b, 0);
    ObjectSentence(b, rest);
    ObjectSentence(WithoutCommas(b), rest);
  }

  lemma ObjectSentence(b: Body, rest: string)
    requires Legal(b, false, 0)
    ensures var text := "{" + Show(b) + "}"; Sentence(text + rest, |text|)
  {
    hide Show, Legal;
    var text := "{" + Show(b) + "}";
    assert (text + rest)[..|text|] == text;
    assert Spells(Tree(false, b), 1, text + rest, |text|);
  }

  // ----- Error codes

  /** A number in place of a document is delivered whole to the callback of "#", and nothing else but the start is. */
  lemma CodeDelivered(f: FiltersChain, token: string, rest: string)
    requires Accepting(f) && IsNumber(token) && rest != "" && !IsNumChar(rest[0])
    ensures var r := Whole(f, token + rest);
            && r.status == Finished && r.pos == |token|
            && r.log == (if Find(f, "").Some? then [Started] else [])
                        + (if Find(f, "#").Some? then [Delivered(Number, "#", token, 0)] else [])
  {
    hide Find, IsNumChar, NumEnd;
    var doc := token + rest;
    var st := Begin(f, Init);
    assert doc[0..] == doc;
    NumberFirst(token, rest);
    assert Step(f, Never, doc, 0, st) == NumberStep(f, doc, st);
    assert doc[..|token|] == token;
  }

  lemma NumberFirst(token: string, rest: string)
    requires IsNumber(token) && rest != "" && !IsNumChar(rest[0])
    ensures var s := token + rest;
            && NumEnd(s) == |token| > 0 && StartsNumber(s[0])
            && !IsOpen(s[0]) && !IsClose(s[0]) && s[0] != ',' && s[0] != QUOTE
  {
    NumEndIs(token, rest);
    assert (token + rest)[0] == token[0];
  }
}
