/** Whole runs of the name solver: from existing names through any requests. */
module NameCollisionRuns {
  import opened Machine
  import Decimals
  import opened IndexLists
  import opened NameParts
  import opened NameCollisions

  function Start(existing: seq<string>): Solver {
    if existing == [] then map[] else Remember(Start(existing[..|existing| - 1]), existing[|existing| - 1])
  }

  function After(ps: Solver, requests: seq<string>): Solver {
    if requests == [] then ps else Solve(After(ps, requests[..|requests| - 1]), requests[|requests| - 1]).0
  }

  function Answers(ps: Solver, requests: seq<string>): (a: seq<string>)
    ensures |a| == |requests|
  {
    if requests == [] then []
    else
      var init := requests[..|requests| - 1];
      Answers(ps, init) + [Solve(After(ps, init), requests[|requests| - 1]).1]
  }

  /** No two existing names read as the same base, kind and number, bare base names aside. */
  ghost predicate Distinct(existing: seq<string>) {
    forall i, j :: 0 <= i < j < |existing| && Parse(existing[i]).kind != BaseNameOnly ==>
      Parse(existing[i]) != Parse(existing[j])
  }

  ghost predicate AllFit(names: seq<string>, n: nat) {
    forall i :: 0 <= i < |names| ==> Fits(names[i], n)
  }

  /** Every name given is occupied. */
  ghost predicate Covers(ps: Solver, names: seq<string>) {
    forall i :: 0 <= i < |names| ==> Occupied(ps, Parse(names[i]))
  }

  /** Every answer reads differently from every name before it. */
  ghost predicate AnswersFresh(existing: seq<string>, answers: seq<string>) {
    forall j :: 0 <= j < |answers| ==>
      && (forall i :: 0 <= i < |existing| ==> Parse(answers[j]) != Parse(existing[i]))
      && (forall i :: 0 <= i < j ==> Parse(answers[j]) != Parse(answers[i]))
  }

  lemma BaseAgain(ps: Solver, name: string, n: nat)
    requires Inv(ps, n) && Parse(name).kind == BaseNameOnly
    ensures Inv(Remember(ps, name), n + 1)
    ensures Occupied(Remember(ps, name), Parse(name))
    ensures forall u: Parts :: Occupied(ps, u) ==> Occupied(Remember(ps, name), u)
    ensures forall u: Parts :: u.kind != BaseNameOnly ==> (Occupied(ps, u) <==> Occupied(Remember(ps, name), u))
  {
    hide Parse;
    InvOf(ps, n, Parse(name).base);
  }

  lemma OccupiesKeeps(ps: Solver, qs: Solver, t: Parts, u: Parts)
    requires Occupies(ps, qs, t) && Occupied(ps, u) && (u.kind == BaseNameOnly ==> u.id == 0)
    ensures Occupied(qs, u) && u != t
  {
  }

  lemma CoversMore(ps: Solver, qs: Solver, t: Parts, names: seq<string>)
    requires Occupies(ps, qs, t) && Covers(ps, names)
    ensures Covers(qs, names) && forall i :: 0 <= i < |names| ==> Parse(names[i]) != t
  {
    hide Parse, Occupies, Occupied;
    forall i | 0 <= i < |names|
      ensures Occupied(qs, Parse(names[i])) && Parse(names[i]) != t
    {
      ParseZero(names[i]);
      OccupiesKeeps(ps, qs, t, Parse(names[i]));
    }
  }

  /** What the solver knows at the start: the existing names, and of numbered names no others. */
  lemma {:induction false} StartMembers(existing: seq<string>)
    ensures Covers(Start(existing), existing)
    ensures forall u: Parts :: u.kind != BaseNameOnly && Occupied(Start(existing), u) ==>
              exists i :: 0 <= i < |existing| && Parse(existing[i]) == u
  {
    hide Parse, Remember;
    if existing == [] {
      EmptyInv();
    } else {
      var n := |existing| - 1;
      var init, name := existing[..n], existing[n];
      StartMembers(init);
      MembersStep(Start(init), init, name);
      assert existing == init + [name];
    }
  }

  lemma EmptyInv()
    ensures Inv(map[], 0) && forall u: Parts :: !Occupied(map[], u)
  {
  }

  lemma RememberMembers(ps: Solver, name: string)
    ensures Occupied(Remember(ps, name), Parse(name))
    ensures forall u: Parts :: Occupied(ps, u) ==> Occupied(Remember(ps, name), u)
    ensures forall u: Parts :: u.kind != BaseNameOnly && Occupied(Remember(ps, name), u) ==>
              Occupied(ps, u) || u == Parse(name)
  {
    hide Parse, Insert;
    var t := Parse(name);
    if t.kind != BaseNameOnly {
      InsertIs(Of(ps, t.base).List(t.kind), t.id);
    }
  }

  lemma MembersStep(ps: Solver, init: seq<string>, name: string)
    requires Covers(ps, init)
    requires forall u: Parts :: u.kind != BaseNameOnly && Occupied(ps, u) ==>
               exists i :: 0 <= i < |init| && Parse(init[i]) == u
    ensures Covers(Remember(ps, name), init + [name])
    ensures forall u: Parts :: u.kind != BaseNameOnly && Occupied(Remember(ps, name), u) ==>
              exists i :: 0 <= i < |init| + 1 && Parse((init + [name])[i]) == u
  {
    hide Parse, Remember, Occupied;
    var all := init + [name];
    RememberMembers(ps, name);
    forall u: Parts | u.kind != BaseNameOnly && Occupied(Remember(ps, name), u)
      ensures exists i :: 0 <= i < |init| + 1 && Parse(all[i]) == u
    {
      if Occupied(ps, u) {
        var i :| 0 <= i < |init| && Parse(init[i]) == u;
        assert Parse(all[i]) == u;
      } else {
        assert Parse(all[|init|]) == u;
      }
    }
  }

  /** With distinct names the lists start strictly sorted. */
  lemma {:induction false} StartInv(existing: seq<string>)
    requires Distinct(existing)
    ensures Inv(Start(existing), |existing|)
  {
    hide Parse, Remember, Inv, Occupied;
    if existing == [] {
      EmptyInv();
    } else {
      var n := |existing| - 1;
      var init, name := existing[..n], existing[n];
      StartInv(init);
      StartMembers(init);
      if Parse(name).kind == BaseNameOnly {
        BaseAgain(Start(init), name, n);
      } else {
        RememberOccupies(Start(init), name, n);
      }
    }
  }

  /** Every answer of a run is new: it reads differently from all existing names and all earlier answers. */
  lemma {:induction false} RunFresh(ps: Solver, existing: seq<string>, requests: seq<string>, n: nat)
    requires Inv(ps, n) && Covers(ps, existing) && AllFit(requests, n + |requests|)
    ensures Inv(After(ps, requests), n + |requests|)
    ensures Covers(After(ps, requests), existing) && Covers(After(ps, requests), Answers(ps, requests))
    ensures AnswersFresh(existing, Answers(ps, requests))
    decreases |requests|
  {
    hide Solve, Inv, Occupies, Fits, Parse, Covers, AnswersFresh;
    if requests == [] {
      NoAnswers(After(ps, []), existing);
    } else {
      var k := |requests| - 1;
      var init, name := requests[..k], requests[k];
      FitLess(requests, n + k + 1, n + k);
      RunFresh(ps, existing, init, n);
      var qs := After(ps, init);
      SolveOccupies(qs, name, n + k);
      var (rs, answer) := Solve(qs, name);
      RunStep(qs, rs, existing, Answers(ps, init), answer);
    }
  }

  lemma NoAnswers(ps: Solver, existing: seq<string>)
    ensures Covers(ps, []) && AnswersFresh(existing, [])
  {
  }

  lemma FitLess(requests: seq<string>, n: nat, m: nat)
    requires requests != [] && AllFit(requests, n) && m <= n
    ensures AllFit(requests[..|requests| - 1], m) && Fits(requests[|requests| - 1], m)
  {
    hide Parse, LineFree;
    var last := |requests| - 1;
    assert Fits(requests[last], n);
    forall i | 0 <= i < last
      ensures Fits(requests[..last][i], m)
    {
      assert Fits(requests[i], n);
    }
  }

  lemma RunStep(qs: Solver, rs: Solver, existing: seq<string>, answers: seq<string>, answer: string)
    requires Covers(qs, existing) && Covers(qs, answers) && AnswersFresh(existing, answers) &&
             Occupies(qs, rs, Parse(answer))
    ensures Covers(rs, existing) && Covers(rs, answers + [answer]) && AnswersFresh(existing, answers + [answer])
  {
    hide Occupies, Parse, Occupied;
    assert Occupied(rs, Parse(answer)) by { JustOccupied(qs, rs, Parse(answer)); }
    CoversMore(qs, rs, Parse(answer), existing);
    CoversMore(qs, rs, Parse(answer), answers);
  }

  lemma JustOccupied(qs: Solver, rs: Solver, t: Parts)
    requires Occupies(qs, rs, t)
    ensures Occupied(rs, t)
  {
  }

  /** Every answer is a name that neither exists nor was answered before. */
  ghost predicate AllNew(existing: seq<string>, answers: seq<string>) {
    forall j :: 0 <= j < |answers| ==> answers[j] !in existing && answers[j] !in answers[..j]
  }

  /** Names that read differently are different. */
  lemma FreshMeansNew(existing: seq<string>, answers: seq<string>)
    requires AnswersFresh(existing, answers)
    ensures AllNew(existing, answers)
  {
    hide Parse;
  }

  // ----- Exactly when answers are new

  ghost predicate AllSorted(ps: Solver) {
    forall b :: b in ps ==> Sorted(ps[b].noSpace) && Sorted(ps[b].space)
  }

  lemma RememberSorted(ps: Solver, name: string)
    requires AllSorted(ps)
    ensures AllSorted(Remember(ps, name))
  {
    hide Parse, Insert;
    var t := Parse(name);
    if t.kind != BaseNameOnly {
      InsertKeepsOrder(Of(ps, t.base).List(t.kind), t.id);
    }
  }

  lemma {:induction false} StartSorted(existing: seq<string>)
    ensures AllSorted(Start(existing))
  {
    hide Remember;
    if existing != [] {
      var n := |existing| - 1;
      StartSorted(existing[..n]);
      RememberSorted(Start(existing[..n]), existing[n]);
    }
  }

  ghost predicate HeldTwice(ps: Solver, t: Parts) {
    t.kind != BaseNameOnly && Twice(Of(ps, t.base).List(t.kind), t.id)
  }

  lemma RememberTwice(ps: Solver, name: string, t: Parts)
    requires t.kind != BaseNameOnly && (HeldTwice(ps, t) || (Parse(name) == t && Occupied(ps, t)))
    ensures HeldTwice(Remember(ps, name), t)
  {
    hide Parse, Insert, Twice;
    var u := Parse(name);
    if u.base == t.base && u.kind == t.kind {
      InsertTwice(Of(ps, t.base).List(t.kind), t.id, u.id);
    }
  }

  lemma {:induction false} StartTwice(existing: seq<string>, i: nat, j: nat)
    requires i < j < |existing| && Parse(existing[i]) == Parse(existing[j]) && Parse(existing[i]).kind != BaseNameOnly
    ensures HeldTwice(Start(existing), Parse(existing[i]))
  {
    hide Parse, Remember, HeldTwice, Occupied;
    var n := |existing| - 1;
    var init := existing[..n];
    if j == n {
      StartMembers(init);
      assert Occupied(Start(init), Parse(init[i]));
    } else {
      StartTwice(init, i, j);
    }
    RememberTwice(Start(init), existing[n], Parse(existing[i]));
  }

  /** A number held twice, and r numbers after the first of them already answered. */
  ghost predicate Climbs(ps: Solver, t: Parts, r: nat) {
    var s := Of(ps, t.base).List(t.kind);
    t.kind != BaseNameOnly && Climbing(s, LowerBound(s, t.id), t.id, r)
  }

  /** The next request for it is answered with the number after these, taken or not. */
  lemma ClimbAnswer(ps: Solver, t: Parts, r: nat)
    requires Climbs(ps, t, r) && Proper(t) && t.id + r + 1 < WORD
    ensures Solve(ps, Print(t)).1 == Print(t.(id := t.id + r + 1)) && Climbs(Solve(ps, Print(t)).0, t, r + 1)
  {
    hide Print, Parse, Free, NextFree, InsertAt, LowerBound, Climbing, Proper;
    ParsePrint(t);
    var s := Of(ps, t.base).List(t.kind);
    ClimbNext(s, LowerBound(s, t.id), t.id, r);
  }

  function Times(name: string, k: nat): (r: seq<string>)
    ensures |r| == k && forall i :: 0 <= i < k ==> r[i] == name
  {
    seq(k, _ => name)
  }

  lemma {:induction false} ClimbAnswers(ps: Solver, t: Parts, k: nat)
    requires Climbs(ps, t, 0) && Proper(t) && t.id + k < WORD
    ensures Climbs(After(ps, Times(Print(t), k)), t, k)
    ensures k > 0 ==> Answers(ps, Times(Print(t), k))[k - 1] == Print(t.(id := t.id + k))
  {
    hide Print, Solve, Climbs, Proper;
    if k > 0 {
      var requests := Times(Print(t), k);
      assert requests[..k - 1] == Times(Print(t), k - 1);
      ClimbAnswers(ps, t, k - 1);
      ClimbAnswer(After(ps, requests[..k - 1]), t, k - 1);
    }
  }

  /** The first request, then the others. */
  lemma {:induction false} FirstThen(ps: Solver, a: string, rest: seq<string>)
    ensures After(ps, [a] + rest) == After(Solve(ps, a).0, rest)
    ensures Answers(ps, [a] + rest) == [Solve(ps, a).1] + Answers(Solve(ps, a).0, rest)
    decreases |rest|
  {
    hide Solve;
    var all := [a] + rest;
    if rest == [] {
      assert all == [a] && all[..0] == [];
    } else {
      var n := |rest| - 1;
      FirstThen(ps, a, rest[..n]);
      assert all[..n + 1] == [a] + rest[..n];
    }
  }

  /** A free number is answered as it is. */
  lemma FreeAnswered(ps: Solver, t: Parts)
    requires AllSorted(ps) && t.kind != BaseNameOnly && Proper(t) && !Occupied(ps, t)
    ensures Solve(ps, Print(t)) == (Remember(ps, Print(t)), Print(t)) && Parse(Print(t)) == t
  {
    hide Print, Parse, Free, Sorted, Insert;
    ParsePrint(t);
    FreeMeans(Of(ps, t.base).List(t.kind), t.id);
  }

  lemma TwiceStartsClimb(ps: Solver, t: Parts)
    requires AllSorted(ps) && HeldTwice(ps, t)
    ensures Climbs(ps, t, 0)
  {
    hide Climbing, Twice, LowerBound, Sorted;
    SortedList(ps, t);
    TwiceClimbs(Of(ps, t.base).List(t.kind), t.id);
  }

  lemma SortedList(ps: Solver, t: Parts)
    requires AllSorted(ps)
    ensures Sorted(Of(ps, t.base).List(t.kind))
  {
  }

  lemma PrintFits(t: Parts, n: nat)
    requires t.kind != BaseNameOnly && Proper(t) && t.id + n + 1 < WORD
    ensures Fits(Print(t), n)
  {
    ParsePrint(t);
    PrintLineFree(t);
  }

  lemma {:induction false} StartSize(existing: seq<string>, base: string)
    ensures Of(Start(existing), base).AtMost(|existing|)
  {
    hide Parse, Insert;
    if existing != [] {
      var n := |existing| - 1;
      StartSize(existing[..n], base);
      InsertLength(Of(Start(existing[..n]), base), Parse(existing[n]));
    }
  }

  lemma InsertLength(p: Provider, t: Parts)
    ensures forall k: nat :: p.AtMost(k) ==> Add(p, t.kind, t.id).AtMost(k + 1)
  {
  }

  /** A number above, for the same base and kind, that no existing name has. */
  lemma FreeNumber(existing: seq<string>, t: Parts) returns (m: nat)
    requires t.kind != BaseNameOnly && t.id + |existing| + 1 < WORD
    ensures t.id < m <= t.id + |existing| + 1 && !Occupied(Start(existing), t.(id := m))
  {
    hide Start;
    StartSize(existing, t.base);
    m := NearFree(Of(Start(existing), t.base).List(t.kind), t.id);
  }

  /** If two existing numbered names read the same,
      some requests are answered with one name twice: a free number m above
      theirs, and then their own until the answers reach m. */
  lemma RepeatCollides(existing: seq<string>, i: nat, j: nat) returns (requests: seq<string>)
    requires i < j < |existing| && Parse(existing[i]) == Parse(existing[j]) && Parse(existing[i]).kind != BaseNameOnly
    requires Fits(existing[i], 3 * |existing| + 6)
    ensures AllFit(requests, |existing| + |requests|)
    ensures !AllNew(existing, Answers(Start(existing), requests))
  {
    hide Print, Parse, Solve, Remember, AllSorted, HeldTwice, Occupied, Start, Climbs, Answers, After;
    var ps, t := Start(existing), Parse(existing[i]);
    ParseProper(existing[i]);
    StartSorted(existing);
    StartTwice(existing, i, j);
    var m := FreeNumber(existing, t);
    var free := t.(id := m);
    var k := m - t.id;
    requests := [Print(free)] + Times(Print(t), k);
    FreeAnswered(ps, free);
    var qs := Remember(ps, Print(free));
    RememberSorted(ps, Print(free));
    RememberTwice(ps, Print(free), t);
    TwiceStartsClimb(qs, t);
    ClimbAnswers(qs, t, k);
    FirstThen(ps, Print(free), Times(Print(t), k));
    var answers := Answers(ps, requests);
    assert answers[0] == answers[k] == Print(free);
    assert answers[k] in answers[..k];
    PrintFits(t, |existing| + |requests|);
    PrintFits(free, |existing| + |requests|);
  }

  lemma OneAnswer(ps: Solver, a: string)
    ensures Answers(ps, [a]) == [Solve(ps, a).1] && After(ps, [a]) == Solve(ps, a).0
  {
    assert [a][..0] == [];
  }

  lemma TwoAnswers(ps: Solver, a: string, b: string)
    ensures Answers(ps, [a, b]) == [Solve(ps, a).1, Solve(Solve(ps, a).0, b).1]
  {
    OneAnswer(ps, a);
    assert [a, b][..1] == [a];
  }

  /** Whatever is requested, every answer is a new name. */
  ghost predicate AlwaysNew(existing: seq<string>) {
    forall requests :: AllFit(requests, |existing| + |requests|) ==>
      AllNew(existing, Answers(Start(existing), requests))
  }

  lemma DistinctIsNew(existing: seq<string>)
    requires Distinct(existing)
    ensures AlwaysNew(existing)
  {
    hide Parse, Start, Answers, AnswersFresh, AllNew, Fits;
    StartInv(existing);
    StartMembers(existing);
    forall requests | AllFit(requests, |existing| + |requests|)
      ensures AllNew(existing, Answers(Start(existing), requests))
    {
      RunFresh(Start(existing), existing, requests, |existing|);
      FreshMeansNew(existing, Answers(Start(existing), requests));
    }
  }

  lemma RepeatIsNotNew(existing: seq<string>)
    requires AllFit(existing, 3 * |existing| + 6) && !Distinct(existing)
    ensures !AlwaysNew(existing)
  {
    hide Parse, Start, Answers, AllNew, Fits;
    var i, j :| 0 <= i < j < |existing| && Parse(existing[i]).kind != BaseNameOnly &&
        Parse(existing[i]) == Parse(existing[j]);
    var requests := RepeatCollides(existing, i, j);
  }

  /** Every answer to all requests is a new name exactly when no two existing numbered names read the same. */
  lemma FreshIff(existing: seq<string>)
    requires AllFit(existing, 3 * |existing| + 6)
    ensures AlwaysNew(existing) <==> Distinct(existing)
  {
    hide Distinct, AlwaysNew;
    if Distinct(existing) {
      DistinctIsNew(existing);
    } else {
      RepeatIsNotNew(existing);
    }
  }

  // ----- Line breaks

  lemma BrokenIsWhole(name: string)
    requires !LineFree(name)
    ensures Parse(name) == Parts(name, BaseNameOnly, 0)
  {
    var p := BracketAt(name);
    if p >= 0 {
      var i :| 0 <= i < |name| && (name[i] == '\n' || name[i] == '\r');
      Outside(name, p, i);
      assert name[..BaseEnd(name, p)][i] == name[i];
    }
  }

  lemma Outside(name: string, p: nat, i: nat)
    requires p == BracketAt(name) && i < |name| && (name[i] == '\n' || name[i] == '\r')
    ensures i < BaseEnd(name, p)
  {
  }

  lemma BrokenLonger(name: string, more: string)
    requires !LineFree(name)
    ensures !LineFree(name + more)
  {
    var i :| 0 <= i < |name| && (name[i] == '\n' || name[i] == '\r');
    assert (name + more)[i] == name[i];
  }

  /** A name read as a whole and not taken is answered as it is. */
  lemma WholeAnswered(ps: Solver, name: string)
    requires Parse(name) == Parts(name, BaseNameOnly, 0) && name !in ps
    ensures Solve(ps, name) == (ps[name := Provider([], [], true)], name)
  {
    hide Parse;
  }

  /** Once taken, it is answered with the number 1. */
  lemma WholeNumbered(ps: Solver, name: string)
    requires Parse(name) == Parts(name, BaseNameOnly, 0) && name in ps && ps[name] == Provider([], [], true)
    ensures Solve(ps, name) == (ps[name := Provider([], [1], true)], Print(Parts(name, WithIdSpace, 1)))
  {
    hide Parse, Print, TakeNext;
    TakeOne();
  }

  lemma TakeOne()
    ensures TakeNext(Provider([], [], true), WithIdSpace, 1) == (Provider([], [1], true), 1)
  {
    var p := Provider([], [], true);
    assert p.List(WithIdSpace) == [] && NextFree([], 1) == (0, 1);
    assert InsertAt([], 0, 1) == [1];
  }

  lemma ThreeAnswers(ps: Solver, a: string, b: string, c: string)
    ensures var qs := Solve(ps, a).0;
            Answers(ps, [a, b, c]) == [Solve(ps, a).1, Solve(qs, b).1, Solve(Solve(qs, b).0, c).1]
  {
    hide Solve;
    TwoAnswers(ps, a, b);
    OneAnswer(ps, a);
    assert [a, b, c][..2] == [a, b] && [a, b][..1] == [a];
  }

  /** With a line break in a name, numbered answers are not recognized later: three requests answer one name twice. */
  lemma LineBreakCollides(name: string)
    requires !LineFree(name)
    ensures var numbered := Print(Parts(name, WithIdSpace, 1));
            Answers(map[], [name, name, numbered]) == [name, numbered, numbered]
  {
    hide Parse, Solve, LineFree, Answers;
    var numbered := Print(Parts(name, WithIdSpace, 1));
    BrokenLonger(name, " (" + Decimals.Show(1) + ")");
    assert numbered == name + (" (" + Decimals.Show(1) + ")");
    BrokenIsWhole(name);
    BrokenIsWhole(numbered);
    var ps: Solver := map[name := Provider([], [], true)];
    WholeAnswered(map[], name);
    WholeNumbered(ps, name);
    WholeAnswered(ps[name := Provider([], [1], true)], numbered);
    ThreeAnswers(map[], name, name, numbered);
  }
}
