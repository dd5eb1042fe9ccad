/** The splitter against the tree of the document: on every well-formed document it finishes at the
    last bracket and delivers exactly what a walk over the tree delivers, in the same order. */
module SplitterTree {
  import opened Wrappers
  import opened JsonScan
  import opened SplitterSpec
  import opened SplitterRuns

  /** A JSON value. The members of an array have the empty name. */
  datatype Json =
    | Text(token: string)
    | Numeral(token: string)
    | Node(isArray: bool, members: seq<Member>)

  datatype Member = Member(name: string, value: Json)

  function Open(isArray: bool): char { if isArray then '[' else '{' }
  function Shut(isArray: bool): char { if isArray then ']' else '}' }
  function Label(isArray: bool, name: string): string { if isArray then "" else "\"" + name + "\":" }

  function Print(v: Json): (s: string)
    decreases v, 1
    ensures v.Node? ==> |s| >= 2
  {
    match v
    case Text(token) => token
    case Numeral(token) => token
    case Node(isArray, members) => [Open(isArray)] + PrintAll(isArray, members) + [Shut(isArray)]
  }

  function PrintAll(isArray: bool, members: seq<Member>): string
    decreases members, 0
  {
    if members == [] then "" else
    var m := members[0];
    Label(isArray, m.name) + Print(m.value) + if |members| == 1 then "" else "," + PrintAll(isArray, members[1..])
  }

  predicate IsString(token: string) { token != "" && token[0] == QUOTE && StrEnd(token) == Some(|token|) }
  predicate IsNumber(token: string) { token != "" && StartsNumber(token[0]) && NumEnd(token) == |token| }

  ghost predicate WellFormed(v: Json)
    decreases v, 1
  {
    match v
    case Text(token) => IsString(token)
    case Numeral(token) => IsNumber(token)
    case Node(isArray, members) => WellFormedAll(isArray, members)
  }

  ghost predicate WellFormedAll(isArray: bool, members: seq<Member>)
    decreases members, 0
  {
    members != [] ==>
      && (if isArray then members[0].name == "" else IsString("\"" + members[0].name + "\""))
      && WellFormed(members[0].value) && WellFormedAll(isArray, members[1..])
  }

  /** What a walk has delivered, and where the text not delivered yet starts. */
  datatype Trail = Trail(last: nat, log: seq<Event>)

  /** The walk over the value v, named name below path, whose text starts at position at. */
  function Visit(f: FiltersChain, v: Json, path: string, name: string, at: nat, t: Trail): (r: Trail)
    requires t.last <= at
    ensures t.last <= r.last <= at + |Print(v)|
    decreases v, 1
  {
    match v
    case Text(token) =>
      var key := StringKey(path, name);
      if Find(f, key).Some? then Trail(at + |token|, t.log + [Delivered(StringValue, key, token, at)]) else t
    case Numeral(_) => t
    case Node(isArray, members) =>
      var key := NodeKey(path, Open(isArray), name);
      var inner := VisitAll(f, isArray, members, key, at + 1, if Find(f, key).Some? then t.(last := at) else t);
      if Find(f, key).None? then inner else
      var text := Print(v)[inner.last - at..];
      Trail(at + |Print(v)|, inner.log + [Delivered(Container, key, text, inner.last)])
  }

  function VisitAll(f: FiltersChain, isArray: bool, members: seq<Member>, path: string, at: nat, t: Trail): (r: Trail)
    requires t.last <= at
    ensures t.last <= r.last <= at + |PrintAll(isArray, members)|
    decreases members, 0
  {
    if members == [] then t else
    var m := members[0];
    var from := at + |Label(isArray, m.name)|;
    var t1 := Visit(f, m.value, path, m.name, from, t);
    var end := from + |Print(m.value)|;
    if |members| == 1 then t1 else
    VisitAll(f, isArray, members[1..], path, end + 1, if t1.last == end then t1.(last := end + 1) else t1)
  }

  ghost predicate Accepting(f: FiltersChain) {
    forall key: string, text: string :: Find(f, key).Some? ==> Find(f, key).value(text)
  }

  /** The text of a value is followed by a separator. */
  ghost predicate Separated(doc: string, at: nat) {
    at < |doc| && (doc[at] == ',' || doc[at] == ']' || doc[at] == '}')
  }

  /** The single call goes from st to st'. */
  ghost predicate Leads(f: FiltersChain, doc: string, st: State, st': State) {
    && st.status == Running && st'.status == Running && Within(doc, 0, st) && Within(doc, 0, st')
    && Loop(f, Never, doc, 0, st) == Loop(f, Never, doc, 0, st')
  }

  lemma LeadsTrans(f: FiltersChain, doc: string, a: State, b: State, c: State)
    requires Leads(f, doc, a, b) && Leads(f, doc, b, c)
    ensures Leads(f, doc, a, c)
  {
  }

  lemma LeadsWithin(f: FiltersChain, doc: string, a: State, b: State)
    requires Leads(f, doc, a, b)
    ensures b.status == Running && Within(doc, 0, b)
  {
  }

  lemma StepLeads(f: FiltersChain, doc: string, st: State, st': State)
    requires st.status == Running && Within(doc, 0, st) && st'.status == Running
    requires Step(f, Never, doc, 0, st) == Next(st')
    ensures Leads(f, doc, st, st')
  {
    StepAdvances(f, Never, doc, 0, st);
  }

  /** The state after a value: everything as before but for what the walk says. */
  function Past(st: State, v: Json, r: Trail): State {
    st.(pos := st.pos + |Print(v)|, last := r.last, log := r.log, want := 0,
        name := if v.Numeral? then st.name else "")
  }

  /** A string token in value position. */
  lemma TextRuns(f: FiltersChain, doc: string, v: Json, st: State)
    requires v.Text? && WellFormed(v) && Accepting(f)
    requires st.status == Running && Within(doc, 0, st) && st.want != 0 && Here(doc, st.pos, Print(v))
    ensures Leads(f, doc, st, Past(st, v, Visit(f, v, st.path, st.name, st.pos, Trail(st.last, st.log))))
  {
    hide Step, StringStep, Visit, Leads, Concat;
    TextSteps(f, doc, v, st);
    TokenRest(doc, st.pos, v.token);
    StringDispatch(f, doc, st);
    StepLeads(f, doc, st, Past(st, v, Visit(f, v, st.path, st.name, st.pos, Trail(st.last, st.log))));
  }

  lemma TextSteps(f: FiltersChain, doc: string, v: Json, st: State)
    requires v.Text? && WellFormed(v) && Accepting(f)
    requires st.status == Running && Within(doc, 0, st) && st.want != 0 && Here(doc, st.pos, Print(v))
    ensures StringStep(f, Never, doc[st.pos..], st)
            == Next(Past(st, v, Visit(f, v, st.path, st.name, st.pos, Trail(st.last, st.log))))
  {
    hide Valid, Find, Here, StrEnd, StringKey;
    var rest := doc[st.pos..];
    TokenRest(doc, st.pos, v.token);
    StrEndExtend(v.token, doc[st.pos + |v.token|..]);
    assert rest[..|v.token|] == v.token;
  }

  /** A number token inside a bracket, followed by a separator. */
  lemma NumeralSteps(f: FiltersChain, doc: string, v: Json, st: State)
    requires v.Numeral? && WellFormed(v) && st.stack != []
    requires st.status == Running && Within(doc, 0, st) && st.want != 0 && Here(doc, st.pos, Print(v))
    requires Separated(doc, st.pos + |Print(v)|)
    ensures NumberStep(f, doc[st.pos..], st) == Next(Past(st, v, Trail(st.last, st.log)))
  {
    hide RootNumberStep, Valid, NumEnd, Find, Here;
    var tail := doc[st.pos + |v.token|..];
    TokenRest(doc, st.pos, v.token);
    assert tail[0] == doc[st.pos + |v.token|];
    NumEndStops(v.token, tail);
    assert NumEnd(doc[st.pos..]) == |v.token| < |doc[st.pos..]|;
  }

  lemma NumberDispatch(f: FiltersChain, doc: string, st: State)
    requires Within(doc, 0, st) && st.pos < |doc| && StartsNumber(doc[st.pos])
    ensures Step(f, Never, doc, 0, st) == NumberStep(f, doc[st.pos..], st)
  {
    hide NumberStep, CloseStep, CommaStep, OpenStep, StringStep, Valid;
    assert doc[st.pos..][0] == doc[st.pos];
  }

  lemma NumeralRuns(f: FiltersChain, doc: string, v: Json, st: State)
    requires v.Numeral? && WellFormed(v) && st.stack != []
    requires st.status == Running && Within(doc, 0, st) && st.want != 0 && Here(doc, st.pos, Print(v))
    requires Separated(doc, st.pos + |Print(v)|)
    ensures Leads(f, doc, st, Past(st, v, Visit(f, v, st.path, st.name, st.pos, Trail(st.last, st.log))))
  {
    hide Step, NumberStep;
    NumeralSteps(f, doc, v, st);
    TokenRest(doc, st.pos, v.token);
    NumberDispatch(f, doc, st);
    StepLeads(f, doc, st, Past(st, v, Trail(st.last, st.log)));
  }

  lemma {:induction false} NumEndStops(s: string, t: string)
    requires NumEnd(s) == |s| && (t != "" ==> !IsNumChar(t[0]))
    ensures NumEnd(s + t) == |s|
  {
    if s == "" {
      assert s + t == t;
    } else {
      NumEndStops(s[1..], t);
      assert (s + t)[1..] == s[1..] + t;
    }
  }

  /** The state just inside the brackets of a node. */
  function Inside(f: FiltersChain, isArray: bool, st: State): State {
    var key := NodeKey(st.path, Open(isArray), st.name);
    st.(pos := st.pos + 1, last := if Find(f, key).Some? then st.pos else st.last,
        stack := st.stack + [[Open(isArray)] + st.name], path := key, name := "", want := if isArray then 1 else 0)
  }

  lemma OpenRuns(f: FiltersChain, doc: string, isArray: bool, st: State)
    requires st.status == Running && Within(doc, 0, st) && st.want != 0
    requires st.pos < |doc| && doc[st.pos] == Open(isArray)
    ensures Leads(f, doc, st, Inside(f, isArray, st))
  {
    assert doc[st.pos..][0] == Open(isArray);
    StepLeads(f, doc, st, Inside(f, isArray, st));
  }

  /** A name and its colon. */
  lemma NameSteps(f: FiltersChain, doc: string, name: string, st: State)
    requires Within(doc, 0, st) && st.want == 0 && IsString("\"" + name + "\"") &&
             Here(doc, st.pos, "\"" + name + "\":")
    ensures StringStep(f, Never, doc[st.pos..], st) == Next(st.(pos := st.pos + |name| + 3, name := name, want := -1))
    ensures st.pos < |doc| && doc[st.pos] == QUOTE
  {
    hide Here, Valid, StrEnd, Find;
    var token := "\"" + name + "\"";
    assert "\"" + name + "\":" == token + ":";
    HereParts(doc, st.pos, token, ":");
    TokenRest(doc, st.pos, token);
    HereChar(doc, st.pos + |token|, ':');
    var rest := doc[st.pos..];
    StrEndExtend(token, doc[st.pos + |token|..]);
    assert rest[1..|token| - 1] == name;
    assert rest[|token|] == ':';
  }

  lemma StringDispatch(f: FiltersChain, doc: string, st: State)
    requires Within(doc, 0, st) && st.pos < |doc| && doc[st.pos] == QUOTE
    ensures Step(f, Never, doc, 0, st) == StringStep(f, Never, doc[st.pos..], st)
  {
    hide NumberStep, CloseStep, CommaStep, OpenStep, StringStep, Valid;
    assert doc[st.pos..][0] == doc[st.pos];
  }

  /** The label of a member; nothing in an array. */
  lemma LabelRuns(f: FiltersChain, doc: string, isArray: bool, name: string, st: State)
    requires st.status == Running && Within(doc, 0, st) && st.want == (if isArray then 1 else 0)
    requires if isArray then name == "" && st.name == "" else IsString("\"" + name + "\"")
    requires Here(doc, st.pos, Label(isArray, name))
    ensures Leads(f, doc, st, st.(pos := st.pos + |Label(isArray, name)|, name := name,
                                  want := if isArray then 1 else -1))
  {
    hide Step, StringStep, Here, IsString, Valid;
    if !isArray {
      NameSteps(f, doc, name, st);
      StringDispatch(f, doc, st);
      StepLeads(f, doc, st, st.(pos := st.pos + |Label(isArray, name)|, name := name, want := -1));
    }
  }

  /** The state after a comma. */
  function CommaPast(isArray: bool, st: State): State {
    st.(pos := st.pos + 1, want := if isArray then 1 else 0, last := if st.last == st.pos then st.pos + 1 else st.last)
  }

  lemma CommaRuns(f: FiltersChain, doc: string, isArray: bool, st: State)
    requires st.status == Running && Within(doc, 0, st) && st.want == 0 && st.stack != [] && Top(st) == Open(isArray)
    requires st.pos < |doc| && doc[st.pos] == ','
    ensures Leads(f, doc, st, CommaPast(isArray, st))
  {
    assert doc[st.pos..][0] == ',';
    StepLeads(f, doc, st, CommaStep(f, st));
  }

  /** The closing bracket of a node that is not the outermost: the step. */
  lemma ShutStep(f: FiltersChain, doc: string, isArray: bool, st: State)
    requires Within(doc, 0, st) && st.want >= 0 && |st.stack| > 1 && Top(st) == Open(isArray)
    requires st.pos < |doc| && doc[st.pos] == Shut(isArray)
    ensures Step(f, Never, doc, 0, st) == Next(CloseMatched(f, st.path, doc[st.last..st.pos + 1], st))
  {
    hide CloseMatched, Concat;
    assert doc[st.pos..][0] == Shut(isArray);
  }

  /** What the step does when all callbacks accept. */
  lemma ShutState(f: FiltersChain, text: string, st: State)
    requires Accepting(f) && Valid(st) && |st.stack| > 1
    ensures var n := |st.stack| - 1;
            var st' := st.(pos := st.pos + 1, want := 0, name := "", stack := st.stack[..n],
                           path := Concat(st.stack[..n]));
            CloseMatched(f, st.path, text, st)
            == if Find(f, st.path).None? then st'
               else st'.(last := st.pos + 1, log := st.log + [Delivered(Container, st.path, text, st.last)])
  {
    hide Find;
    var n := |st.stack| - 1;
    assert st.path == Concat(st.stack[..n]) + st.stack[n];
    assert st.path[..|st.path| - |st.stack[n]|] == Concat(st.stack[..n]);
  }

  /** The closing bracket of a node that is not the outermost. */
  lemma ShutRuns(f: FiltersChain, doc: string, isArray: bool, st: State, at: nat, r: Trail)
    requires Accepting(f) && st.status == Running && Within(doc, 0, st) && st.want >= 0
    requires |st.stack| > 1 && Top(st) == Open(isArray)
    requires at <= st.pos < |doc| && doc[st.pos] == Shut(isArray)
    requires Find(f, st.path).Some? ==> at <= st.last
    requires r == if Find(f, st.path).None? then Trail(st.last, st.log)
                  else Trail(st.pos + 1, st.log + [Delivered(Container, st.path,
                                                     doc[at..st.pos + 1][st.last - at..], st.last)])
    ensures var n := |st.stack| - 1;
            Leads(f, doc, st, st.(pos := st.pos + 1, last := r.last, log := r.log, want := 0, name := "",
                                  stack := st.stack[..n], path := Concat(st.stack[..n])))
  {
    hide Step, CloseMatched, Concat, Find, Accepting, Leads;
    ShutStep(f, doc, isArray, st);
    ShutState(f, doc[st.last..st.pos + 1], st);
    if Find(f, st.path).Some? {
      assert doc[at..st.pos + 1][st.last - at..] == doc[st.last..st.pos + 1];
    }
    StepLeads(f, doc, st, CloseMatched(f, st.path, doc[st.last..st.pos + 1], st));
  }

  /** A value below the outermost one. */
  lemma {:induction false} ValueRuns(f: FiltersChain, doc: string, v: Json, st: State)
    requires Accepting(f) && WellFormed(v) && st.stack != []
    requires st.status == Running && Within(doc, 0, st) && st.want != 0 && Here(doc, st.pos, Print(v))
    requires Separated(doc, st.pos + |Print(v)|)
    ensures Leads(f, doc, st, Past(st, v, Visit(f, v, st.path, st.name, st.pos, Trail(st.last, st.log))))
    decreases v, 1
  {
    hide Step, Loop, VisitAll, Visit, Concat, Print, PrintAll, Here, Separated;
    match v
    case Text(_) => TextRuns(f, doc, v, st);
    case Numeral(_) => NumeralRuns(f, doc, v, st);
    case Node(isArray, members) =>
      NodeLayout(doc, st.pos, v);
      OpenRuns(f, doc, isArray, st);
      var st1 := Inside(f, isArray, st);
      InsideShape(f, doc, isArray, st);
      MembersRun(f, doc, isArray, members, st1);
      var t := VisitAll(f, isArray, members, st1.path, st1.pos, Trail(st1.last, st1.log));
      LeadsTrans(f, doc, st, st1, Beyond(st1, isArray, members, t));
      NodeShuts(f, doc, v, st, t);
  }

  /** Where the parts of a node stand. */
  lemma NodeLayout(doc: string, at: nat, v: Json)
    requires v.Node? && Here(doc, at, Print(v))
    ensures var body := PrintAll(v.isArray, v.members);
            && |Print(v)| == |body| + 2 && at + 2 + |body| <= |doc|
            && doc[at] == Open(v.isArray) && Here(doc, at + 1, body)
            && doc[at + 1 + |body|] == Shut(v.isArray) && Separated(doc, at + 1 + |body|)
  {
    hide PrintAll;
    var open, body, shut := [Open(v.isArray)], PrintAll(v.isArray, v.members), [Shut(v.isArray)];
    assert open + (body + shut) == Print(v);
    HereParts(doc, at, open, body + shut);
    HereParts(doc, at + 1, body, shut);
    TokenRest(doc, at, open);
    TokenRest(doc, at + 1 + |body|, shut);
  }

  lemma InsideShape(f: FiltersChain, doc: string, isArray: bool, st: State)
    requires Valid(st)
    ensures var st1 := Inside(f, isArray, st); Valid(st1) && st1.stack != [] && Top(st1) == Open(isArray)
  {
    var st1 := Inside(f, isArray, st);
    assert st1.stack[..|st1.stack| - 1] == st.stack;
    assert NodeKey(st.path, Open(isArray), st.name) == st.path + ([Open(isArray)] + st.name);
  }

  /** The state after all members of a node. */
  function Beyond(st: State, isArray: bool, members: seq<Member>, r: Trail): State {
    st.(pos := st.pos + |PrintAll(isArray, members)|, last := r.last, log := r.log,
        want := if members == [] then st.want else 0,
        name := if members != [] && members[|members| - 1].value.Numeral? then members[|members| - 1].name else "")
  }

  /** What follows the first member. */
  function Tail(isArray: bool, members: seq<Member>): string
    requires members != []
  {
    if |members| == 1 then "" else "," + PrintAll(isArray, members[1..])
  }

  lemma PrintAllParts(isArray: bool, members: seq<Member>)
    requires members != []
    ensures PrintAll(isArray, members)
            == Label(isArray, members[0].name) + (Print(members[0].value) + Tail(isArray, members))
  {
    hide Print, Label;
  }

  lemma ThreeHere(doc: string, at: nat, a: string, b: string, c: string)
    requires Here(doc, at, a + (b + c))
    ensures Here(doc, at, a) && Here(doc, at + |a|, b) && Here(doc, at + |a| + |b|, c)
    ensures |a + (b + c)| == |a| + |b| + |c|
  {
    hide Here;
    HereParts(doc, at, a, b + c);
    HereParts(doc, at + |a|, b, c);
  }

  lemma CommaHere(doc: string, at: nat, rest: string)
    requires Here(doc, at, "," + rest)
    ensures Separated(doc, at) && at < |doc| && doc[at] == ',' && Here(doc, at + 1, rest)
  {
    HereParts(doc, at, ",", rest);
    HereChar(doc, at, ',');
  }

  /** Where the parts of a node's first member stand. */
  lemma MemberLayout(doc: string, at: nat, isArray: bool, members: seq<Member>)
    requires members != [] && Here(doc, at, PrintAll(isArray, members)) &&
             Separated(doc, at + |PrintAll(isArray, members)|)
    ensures var from := at + |Label(isArray, members[0].name)|;
            var end := from + |Print(members[0].value)|;
            && Here(doc, at, Label(isArray, members[0].name)) && Here(doc, from, Print(members[0].value))
            && Separated(doc, end)
            && (|members| > 1 ==> end < |doc| && doc[end] == ',' && Here(doc, end + 1, PrintAll(isArray, members[1..]))
                                  && Separated(doc, end + 1 + |PrintAll(isArray, members[1..])|))
  {
    hide Print, PrintAll, Label, Here, Separated;
    PrintAllParts(isArray, members);
    var tag, text := Label(isArray, members[0].name), Print(members[0].value);
    var tail := Tail(isArray, members);
    ThreeHere(doc, at, tag, text, tail);
    if |members| == 1 {
      assert tail == "";
    } else {
      CommaHere(doc, at + |tag| + |text|, PrintAll(isArray, members[1..]));
    }
  }

  /** The first member, up to its separator. */
  lemma {:induction false} MemberRuns(f: FiltersChain, doc: string, isArray: bool, members: seq<Member>, st: State)
    requires Accepting(f) && WellFormedAll(isArray, members) && members != []
    requires st.status == Running && Within(doc, 0, st) && st.want == (if isArray then 1 else 0)
    requires st.stack != [] && (isArray ==> st.name == "")
    requires Here(doc, st.pos, PrintAll(isArray, members)) && Separated(doc, st.pos + |PrintAll(isArray, members)|)
    ensures Leads(f, doc, st, FirstPast(f, isArray, members[0], st))
    decreases members, 0, 0
  {
    hide Step, Loop, Visit, Concat, PrintAll, Print, Here, IsString, Separated;
    var m := members[0];
    MemberLayout(doc, st.pos, isArray, members);
    LabelRuns(f, doc, isArray, m.name, st);
    ValueRuns(f, doc, m.value, st.(pos := st.pos + |Label(isArray, m.name)|, name := m.name,
                                   want := if isArray then 1 else -1));
  }

  /** The state after the first member of a node. */
  function FirstPast(f: FiltersChain, isArray: bool, m: Member, st: State): State
    requires st.last <= st.pos
  {
    var st1 := st.(pos := st.pos + |Label(isArray, m.name)|, name := m.name, want := if isArray then 1 else -1);
    Past(st1, m.value, Visit(f, m.value, st.path, m.name, st1.pos, Trail(st.last, st.log)))
  }

  /** The walk over all members goes through the walk over the first. */
  lemma BeyondOne(f: FiltersChain, isArray: bool, members: seq<Member>, st: State)
    requires |members| == 1 && st.last <= st.pos
    ensures Beyond(st, isArray, members, VisitAll(f, isArray, members, st.path, st.pos, Trail(st.last, st.log)))
            == FirstPast(f, isArray, members[0], st)
  {
    hide Print, Visit, Label;
  }

  lemma BeyondMore(f: FiltersChain, isArray: bool, members: seq<Member>, st: State)
    requires |members| > 1 && st.last <= st.pos
    ensures FirstPast(f, isArray, members[0], st).last <= FirstPast(f, isArray, members[0], st).pos
    ensures var st2 := CommaPast(isArray, FirstPast(f, isArray, members[0], st));
            Beyond(st, isArray, members, VisitAll(f, isArray, members, st.path, st.pos, Trail(st.last, st.log)))
            == Beyond(st2, isArray, members[1..],
                      VisitAll(f, isArray, members[1..], st2.path, st2.pos, Trail(st2.last, st2.log)))
  {
    hide Print, Visit, Label, PrintAll;
    PrintAllParts(isArray, members);
    assert members[1..][|members[1..]| - 1] == members[|members| - 1];
  }

  /** What the first member and the comma leave as it was. */
  lemma NextShape(f: FiltersChain, isArray: bool, m: Member, st: State)
    requires st.last <= st.pos && (isArray ==> m.name == "")
    ensures var st1 := FirstPast(f, isArray, m, st); var st2 := CommaPast(isArray, st1);
            && st1.want == 0 && st1.stack == st2.stack == st.stack
            && st1.pos == st.pos + |Label(isArray, m.name)| + |Print(m.value)| && st2.pos == st1.pos + 1
            && st2.want == (if isArray then 1 else 0) && (isArray ==> st2.name == "")
  {
    hide Print, Visit, Label;
  }

  lemma {:induction false} MembersRun(f: FiltersChain, doc: string, isArray: bool, members: seq<Member>, st: State)
    requires Accepting(f) && WellFormedAll(isArray, members)
    requires st.status == Running && Within(doc, 0, st) && st.want == (if isArray then 1 else 0)
    requires st.stack != [] && Top(st) == Open(isArray)
    requires isArray || members == [] ==> st.name == ""
    requires Here(doc, st.pos, PrintAll(isArray, members)) && Separated(doc, st.pos + |PrintAll(isArray, members)|)
    ensures Leads(f, doc, st, Beyond(st, isArray, members,
                    VisitAll(f, isArray, members, st.path, st.pos, Trail(st.last, st.log))))
    decreases members, 0, 1
  {
    hide Step, Loop, Visit, VisitAll, Concat, PrintAll, Print, Here, Separated, Label, FirstPast, CommaPast, Beyond,
         Accepting, Leads;
    if members == [] {
      NoMembers(f, isArray, st);
      LeadsItself(f, doc, st);
    } else {
      MemberRuns(f, doc, isArray, members, st);
      if |members| == 1 {
        BeyondOne(f, isArray, members, st);
      } else {
        MoreMembersRun(f, doc, isArray, members, st);
      }
    }
  }

  lemma LeadsItself(f: FiltersChain, doc: string, st: State)
    requires st.status == Running && Within(doc, 0, st)
    ensures Leads(f, doc, st, st)
  {
  }

  lemma {:induction false} MoreMembersRun(f: FiltersChain, doc: string, isArray: bool, members: seq<Member>, st: State)
    requires Accepting(f) && WellFormedAll(isArray, members) && |members| > 1
    requires st.status == Running && Within(doc, 0, st) && st.want == (if isArray then 1 else 0)
    requires st.stack != [] && Top(st) == Open(isArray) && (isArray ==> st.name == "")
    requires Here(doc, st.pos, PrintAll(isArray, members)) && Separated(doc, st.pos + |PrintAll(isArray, members)|)
    requires Leads(f, doc, st, FirstPast(f, isArray, members[0], st))
    ensures Leads(f, doc, st, Beyond(st, isArray, members,
                    VisitAll(f, isArray, members, st.path, st.pos, Trail(st.last, st.log))))
    decreases members, 0, 0
  {
    hide Step, Loop, Visit, VisitAll, Concat, PrintAll, Print, Here, Separated, Label, FirstPast, CommaPast, Beyond,
         Accepting, Leads;
    BeyondMore(f, isArray, members, st);
    MemberLayout(doc, st.pos, isArray, members);
    NextShape(f, isArray, members[0], st);
    var st1 := FirstPast(f, isArray, members[0], st);
    LeadsWithin(f, doc, st, st1);
    CommaRuns(f, doc, isArray, st1);
    var st2 := CommaPast(isArray, st1);
    LeadsWithin(f, doc, st1, st2);
    MembersRun(f, doc, isArray, members[1..], st2);
    LeadsTrans(f, doc, st, st1, st2);
    LeadsTrans(f, doc, st, st2, Beyond(st2, isArray, members[1..],
      VisitAll(f, isArray, members[1..], st2.path, st2.pos, Trail(st2.last, st2.log))));
  }

  lemma NoMembers(f: FiltersChain, isArray: bool, st: State)
    requires st.last <= st.pos && st.name == ""
    ensures Beyond(st, isArray, [], VisitAll(f, isArray, [], st.path, st.pos, Trail(st.last, st.log))) == st
  {
  }

  /** What the walk over a node adds to the walk over its members. */
  lemma NodeTrail(f: FiltersChain, doc: string, v: Json, path: string, name: string, at: nat, t0: Trail, t: Trail)
    requires v.Node? && t0.last <= at && Here(doc, at, Print(v))
    requires var key := NodeKey(path, Open(v.isArray), name);
             t == VisitAll(f, v.isArray, v.members, key, at + 1, if Find(f, key).Some? then t0.(last := at) else t0)
    ensures var key := NodeKey(path, Open(v.isArray), name);
            var end := at + |Print(v)|;
            && end <= |doc| && (Find(f, key).Some? ==> at <= t.last <= end)
            && Visit(f, v, path, name, at, t0)
               == if Find(f, key).None? then t
                  else Trail(end, t.log + [Delivered(Container, key, doc[at..end][t.last - at..], t.last)])
  {
    hide VisitAll, Here, Find, NodeKey, PrintAll;
    HereInside(doc, at, Print(v));
  }

  /** st2 stands before the closing bracket of a node that st is about to open and that is not the outermost. */
  ghost predicate AtShut(doc: string, v: Json, st: State, st2: State, t: Trail) {
    && v.Node? && st2.pos + 1 == st.pos + |Print(v)| <= |doc| && doc[st2.pos] == Shut(v.isArray)
    && st2.last == t.last && st2.log == t.log && st2.path == NodeKey(st.path, Open(v.isArray), st.name)
    && |st2.stack| == |st.stack| + 1 > 1 && st2.stack[..|st2.stack| - 1] == st.stack
    && st2.stack[|st2.stack| - 1] != "" && st2.stack[|st2.stack| - 1][0] == Open(v.isArray)
    && st2.want >= 0 && st2.starting == st.starting && st2.status == st.status
  }

  lemma NodeShape(f: FiltersChain, doc: string, v: Json, st: State, t: Trail)
    requires v.Node? && st.stack != [] && Valid(st) && Here(doc, st.pos, Print(v))
    ensures AtShut(doc, v, st, Beyond(Inside(f, v.isArray, st), v.isArray, v.members, t), t)
  {
    hide Print, PrintAll, Here, Valid, Find, NodeKey;
    NodeLayout(doc, st.pos, v);
  }

  /** From before its closing bracket past the node. */
  lemma ShutPast(f: FiltersChain, doc: string, v: Json, st: State, st2: State, t: Trail, r: Trail)
    requires Accepting(f) && st.status == Running && Within(doc, 0, st2) && AtShut(doc, v, st, st2, t) && Valid(st)
    requires st.pos <= st2.pos && (Find(f, st2.path).Some? ==> st.pos <= t.last)
    requires r == if Find(f, st2.path).None? then t
                  else Trail(st2.pos + 1, t.log + [Delivered(Container, st2.path,
                                                     doc[st.pos..st2.pos + 1][t.last - st.pos..], t.last)])
    ensures Leads(f, doc, st2, Past(st, v, r))
  {
    hide Print, Accepting, Find, Leads, Concat, NodeKey;
    StackPath(st);
    ShutRuns(f, doc, v.isArray, st2, st.pos, r);
  }

  /** The walk over the members of a node starts where the state inside it stands. */
  lemma InsideTrail(f: FiltersChain, isArray: bool, st: State)
    ensures var st1 := Inside(f, isArray, st);
            var key := NodeKey(st.path, Open(isArray), st.name);
            var t0 := Trail(st.last, st.log);
            && st1.path == key && st1.pos == st.pos + 1
            && Trail(st1.last, st1.log) == if Find(f, key).Some? then t0.(last := st.pos) else t0
  {
    hide Find, NodeKey;
  }

  /** Closing the node leads past it. */
  lemma NodeShuts(f: FiltersChain, doc: string, v: Json, st: State, t: Trail)
    requires Accepting(f) && v.Node? && st.stack != [] && Here(doc, st.pos, Print(v)) && Valid(st)
    requires st.status == Running && st.last <= st.pos
    requires var st1 := Inside(f, v.isArray, st);
             st1.last <= st1.pos && t == VisitAll(f, v.isArray, v.members, st1.path, st1.pos, Trail(st1.last, st1.log))
    requires Leads(f, doc, st, Beyond(Inside(f, v.isArray, st), v.isArray, v.members, t))
    ensures Leads(f, doc, st, Past(st, v, Visit(f, v, st.path, st.name, st.pos, Trail(st.last, st.log))))
  {
    hide Inside, Beyond, VisitAll, Visit, Here, Accepting, Find, Leads, NodeKey, Valid, Past;
    var st2 := Beyond(Inside(f, v.isArray, st), v.isArray, v.members, t);
    InsideTrail(f, v.isArray, st);
    NodeTrail(f, doc, v, st.path, st.name, st.pos, Trail(st.last, st.log), t);
    NodeShape(f, doc, v, st, t);
    LeadsWithin(f, doc, st, st2);
    var r := Visit(f, v, st.path, st.name, st.pos, Trail(st.last, st.log));
    ShutPast(f, doc, v, st, st2, t, r);
    LeadsTrans(f, doc, st, st2, Past(st, v, r));
  }

  lemma StackPath(st: State)
    requires Valid(st)
    ensures st.path == Concat(st.stack)
  {
  }

  // ----- Whole documents

  /** Everything a document delivers: the start, the walk below the outermost brackets, and those
      brackets themselves, which go to the error callback when nothing before them was given back
      and the text looks like an error response. */
  function WalkLog(f: FiltersChain, v: Json): seq<Event>
    requires v.Node?
  {
    var t := RootTrail(f, v);
    var key := RootKey(v, t.last);
    if Find(f, key).None? then t.log else t.log + [Delivered(Container, key, Print(v)[t.last..], t.last)]
  }

  function RootTrail(f: FiltersChain, v: Json): (t: Trail)
    requires v.Node?
    ensures t.last < |Print(v)|
  {
    VisitAll(f, v.isArray, v.members, [Open(v.isArray)], 1, Trail(0, if Find(f, "").Some? then [Started] else []))
  }

  function RootKey(v: Json, last: nat): string
    requires v.Node?
  {
    if !v.isArray && last == 0 && ErrorChunk(Print(v)) then "#" else [Open(v.isArray)]
  }

  lemma RootStarts(f: FiltersChain, doc: string)
    requires Accepting(f)
    ensures var st := Begin(f, Init);
            && st == Init.(starting := false, log := if Find(f, "").Some? then [Started] else [])
            && Whole(f, doc) == Loop(f, Never, doc, 0, st).0
  {
  }

  lemma RootStep(f: FiltersChain, doc: string, v: Json, st: State)
    requires v.Node? && Print(v) <= doc
    requires st.status == Running && Within(doc, 0, st) && st.want >= 0 && st.stack == [[Open(v.isArray)]]
    requires st.pos == |Print(v)| - 1
    ensures Step(f, Never, doc, 0, st) == Next(CloseMatched(f, RootKey(v, st.last), Print(v)[st.last..], st))
  {
    hide CloseMatched, PrintAll;
    var text := Print(v);
    assert doc[st.pos] == text[st.pos] == Shut(v.isArray);
    assert doc[st.pos..][0] == Shut(v.isArray);
    assert doc[st.last..st.pos + 1] == text[st.last..];
    assert doc == text + doc[|text|..];
    if !v.isArray {
      ErrorTestSettled(text, doc[|text|..], st.pos);
    }
    assert st.path == st.stack[0] by { assert Concat(st.stack[..0]) == ""; }
    assert CloseKey(doc, 0, Shut(v.isArray), st) == RootKey(v, st.last);
  }

  /** The outermost closing bracket ends the stream. */
  lemma RootShuts(f: FiltersChain, doc: string, v: Json, st: State)
    requires Accepting(f) && v.Node? && Print(v) <= doc
    requires st.status == Running && Within(doc, 0, st) && st.want >= 0 && st.stack == [[Open(v.isArray)]]
    requires st.pos == |Print(v)| - 1
    ensures var r := Loop(f, Never, doc, 0, st).0;
            var key := RootKey(v, st.last);
            && r.status == Finished && r.pos == r.last == |Print(v)| && r.stack == []
            && r.log == if Find(f, key).None? then st.log
                        else st.log + [Delivered(Container, key, Print(v)[st.last..], st.last)]
  {
    hide Step, Print, RootKey;
    RootStep(f, doc, v, st);
  }

  /** The state before the last bracket. */
  function RootState(f: FiltersChain, v: Json, st: State): State
    requires v.Node?
  {
    Beyond(Inside(f, v.isArray, st), v.isArray, v.members, RootTrail(f, v))
  }

  lemma RootInside(f: FiltersChain, v: Json, st: State)
    requires v.Node? && st == Init.(starting := false, log := if Find(f, "").Some? then [Started] else [])
    ensures var st1 := Inside(f, v.isArray, st);
            && st1.pos == 1 && st1.want == (if v.isArray then 1 else 0) && st1.last == 0 && st1.log == st.log
            && st1.name == ""
            && st1.path == [Open(v.isArray)] && st1.stack == [[Open(v.isArray)]] && Valid(st1)
            && Top(st1) == Open(v.isArray)
            && VisitAll(f, v.isArray, v.members, st1.path, st1.pos, Trail(st1.last, st1.log)) == RootTrail(f, v)
  {
    hide VisitAll, Find;
    assert Valid(st);
    InsideShape(f, "", v.isArray, st);
    assert "" + [Open(v.isArray)] + "" == [Open(v.isArray)] + "" == [Open(v.isArray)];
  }

  /** The first bracket and everything up to the last one. */
  lemma RootRuns(f: FiltersChain, doc: string, v: Json, st: State)
    requires Accepting(f) && v.Node? && WellFormed(v) && Here(doc, 0, Print(v)) && Valid(st)
    requires st == Init.(starting := false, log := if Find(f, "").Some? then [Started] else [])
    ensures Leads(f, doc, st, RootState(f, v, st))
    ensures RootState(f, v, st).pos == |Print(v)| - 1
  {
    hide VisitAll, PrintAll, Print, Here, Accepting, WellFormedAll, Valid, RootTrail, Separated, Top, Leads, Inside,
         Find;
    var st1 := Inside(f, v.isArray, st);
    NodeLayout(doc, 0, v);
    RootInside(f, v, st);
    OpenRuns(f, doc, v.isArray, st);
    LeadsWithin(f, doc, st, st1);
    MembersRun(f, doc, v.isArray, v.members, st1);
    LeadsTrans(f, doc, st, st1, RootState(f, v, st));
  }

  lemma EmptyValid(st: State)
    requires st.stack == [] && st.path == "" && st.last <= st.pos && -1 <= st.want <= 1
    ensures Valid(st)
  {
  }

  /** Every well-formed document is accepted, up to its last bracket, and delivers what its tree says. */
  lemma WellFormedDocument(f: FiltersChain, v: Json, rest: string)
    requires Accepting(f) && v.Node? && WellFormed(v)
    ensures var r := Whole(f, Print(v) + rest);
            r.status == Finished && r.pos == r.last == |Print(v)| && r.stack == [] && r.log == WalkLog(f, v)
  {
    hide Step, Loop, VisitAll, Print, Find, Accepting, WellFormed, Valid, Begin, Inside;
    var doc := Print(v) + rest;
    RootStarts(f, doc);
    var st := Begin(f, Init);
    assert Here(doc, 0, Print(v));
    assert Valid(st) by { EmptyValid(st); }
    RootRuns(f, doc, v, st);
    RootInside(f, v, st);
    RootShuts(f, doc, v, RootState(f, v, st));
  }

  /** The same holds of every way to deliver the document in chunks. */
  lemma WellFormedChunks(f: FiltersChain, v: Json, rest: string, calls: seq<Request>)
    requires Accepting(f) && v.Node? && WellFormed(v)
    requires ErrorOnlyAtStart(Print(v) + rest) && Complete(f, Print(v) + rest, calls)
    ensures var r := Run(f, Print(v) + rest, 0, calls, Init).0;
            r.status == Finished && r.pos == |Print(v)| && r.log == WalkLog(f, v)
  {
    ChunkIndependenceAtStart(f, Print(v) + rest, calls);
    WellFormedDocument(f, v, rest);
  }
}
