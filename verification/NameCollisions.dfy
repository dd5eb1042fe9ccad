/** Finding a free name: what a solver remembers, what it answers, and that its answers are new. */
module NameCollisions {
  import opened Machine
  import opened IndexLists
  import opened NameParts

  // ----- The taken indices of one base name

  datatype Provider = Provider(noSpace: seq<int>, space: seq<int>, baseOccupied: bool) {
    function List(kind: Kind): seq<int> {
      if kind == WithIdSpace then space else noSpace
    }

    function With(kind: Kind, list: seq<int>): Provider {
      if kind == WithIdSpace then this.(space := list) else this.(noSpace := list)
    }

    predicate Taken(kind: Kind, id: int) {
      if kind == BaseNameOnly then baseOccupied else id in List(kind)
    }

    predicate Valid() {
      StrictlySorted(noSpace) && StrictlySorted(space)
    }

    predicate Ordered() {
      Sorted(noSpace) && Sorted(space)
    }

    /** The list that an index of this kind is looked up in can be searched for it. */
    predicate Searchable(kind: Kind, id: int) {
      if kind == BaseNameOnly then Partitioned(space, 1) else Partitioned(List(kind), id)
    }

    predicate AtMost(n: nat) {
      |noSpace| <= n && |space| <= n
    }
  }

  const NOTHING := Provider([], [], false)

  function Add(p: Provider, kind: Kind, id: int): Provider {
    if kind == BaseNameOnly then p.(baseOccupied := true) else p.With(kind, Insert(p.List(kind), id))
  }

  predicate IsFree(p: Provider, kind: Kind, id: int) {
    if kind == BaseNameOnly then !p.baseOccupied else Free(p.List(kind), id)
  }

  /** The next free index of a list, now taken. */
  function TakeNext(p: Provider, kind: Kind, minimum: word): (Provider, word)
    requires kind != BaseNameOnly
  {
    var (at, id) := NextFree(p.List(kind), minimum);
    (p.With(kind, InsertAt(p.List(kind), at, id)), id)
  }

  /** A base name gets a number from 1 up once it is taken itself. */
  function GetNext(p: Provider, kind: Kind, minimum: word): (Provider, word) {
    if kind != BaseNameOnly then TakeNext(p, kind, minimum)
    else if !p.baseOccupied then (p.(baseOccupied := true), 0)
    else TakeNext(p, WithIdSpace, 1)
  }

  lemma FreeIsNotTaken(p: Provider, kind: Kind, id: int)
    requires p.Ordered()
    ensures IsFree(p, kind, id) <==> !p.Taken(kind, id)
  {
    if kind != BaseNameOnly {
      FreeMeans(p.List(kind), id);
    }
  }

  /** Adding a free index takes that one and no other. */
  lemma AddTakes(p: Provider, kind: Kind, id: int, n: nat)
    requires p.Valid() && p.AtMost(n) && !p.Taken(kind, id)
    ensures Add(p, kind, id).Valid() && Add(p, kind, id).AtMost(n + 1)
    ensures forall k, i :: Add(p, kind, id).Taken(k, i) <==>
              p.Taken(k, i) || (k == kind && (i == id || kind == BaseNameOnly))
  {
    if kind != BaseNameOnly {
      var s := p.List(kind);
      InsertSorted(s, id);
      InsertMembers(s, LowerBound(s, id), id);
    }
  }

  /** The index that is next is the least free one from the minimum up; it and no other becomes taken. */
  lemma TakeNextTakes(p: Provider, kind: Kind, minimum: word, n: nat)
    requires kind != BaseNameOnly && p.Valid() && p.AtMost(n) && minimum + n < WORD
    ensures var (q, id) := TakeNext(p, kind, minimum);
            && q.Valid() && q.AtMost(n + 1) && minimum <= id && !p.Taken(kind, id)
            && (forall x :: minimum <= x < id ==> p.Taken(kind, x))
            && (forall k, i :: q.Taken(k, i) <==> p.Taken(k, i) || (k == kind && i == id))
  {
    var s := p.List(kind);
    NextFreeLeast(s, minimum);
    var (at, id) := NextFree(s, minimum);
    InsertMembers(s, at, id);
  }

  // ----- The solver

  type Solver = map<string, Provider>

  function Of(ps: Solver, base: string): Provider {
    if base in ps then ps[base] else NOTHING
  }

  predicate Occupied(ps: Solver, t: Parts) {
    Of(ps, t.base).Taken(t.kind, t.id)
  }

  function Remember(ps: Solver, name: string): Solver {
    var t := Parse(name);
    ps[t.base := Add(Of(ps, t.base), t.kind, t.id)]
  }

  /** The form a changed name takes. */
  function Changed(t: Parts, id: word): Parts {
    Parts(t.base, if t.kind == WithIdNoSpace then WithIdNoSpace else WithIdSpace, id)
  }

  function Solve(ps: Solver, name: string): (Solver, string) {
    var t := Parse(name);
    var p := Of(ps, t.base);
    if IsFree(p, t.kind, t.id) then (ps[t.base := Add(p, t.kind, t.id)], name)
    else
      var (q, id) := GetNext(p, t.kind, t.id);
      (ps[t.base := q], Print(Changed(t, id)))
  }

  ghost predicate Inv(ps: Solver, n: nat) {
    forall b :: b in ps ==> ps[b].Valid() && ps[b].AtMost(n)
  }

  lemma InvOf(ps: Solver, n: nat, base: string)
    requires Inv(ps, n)
    ensures Of(ps, base).Valid() && Of(ps, base).AtMost(n) && Of(ps, base).Ordered()
    ensures forall kind, id :: Of(ps, base).Searchable(kind, id)
  {
  }

  /** One set of parts becomes occupied: new ones, and no other. */
  ghost predicate Occupies(ps: Solver, qs: Solver, t: Parts) {
    && !Occupied(ps, t) && Occupied(qs, t)
    && (forall u: Parts :: u.kind != BaseNameOnly || u.id == 0 ==> (Occupied(qs, u) <==> Occupied(ps, u) || u == t))
  }

  lemma ParseZero(name: string)
    ensures Parse(name).kind == BaseNameOnly ==> Parse(name).id == 0
  {
  }

  /** A provider that has taken one thing more. */
  ghost predicate Takes(p: Provider, q: Provider, kind: Kind, id: int) {
    && !p.Taken(kind, id)
    && forall k, i :: q.Taken(k, i) <==> p.Taken(k, i) || (k == kind && (i == id || kind == BaseNameOnly))
  }

  lemma UpdateOccupies(ps: Solver, q: Provider, t: Parts, n: nat)
    requires Inv(ps, n) && q.Valid() && q.AtMost(n + 1) && Takes(Of(ps, t.base), q, t.kind, t.id)
    requires t.kind == BaseNameOnly ==> t.id == 0
    ensures Inv(ps[t.base := q], n + 1) && Occupies(ps, ps[t.base := q], t)
  {
  }

  lemma RememberOccupies(ps: Solver, name: string, n: nat)
    requires Inv(ps, n) && !Occupied(ps, Parse(name))
    ensures Inv(Remember(ps, name), n + 1) && Occupies(ps, Remember(ps, name), Parse(name))
  {
    hide Parse, Add, Inv, Occupies;
    ParseZero(name);
    var t := Parse(name);
    InvOf(ps, n, t.base);
    AddTakes(Of(ps, t.base), t.kind, t.id, n);
    UpdateOccupies(ps, Add(Of(ps, t.base), t.kind, t.id), t, n);
  }

  /** A name and the room its number needs among n names. */
  predicate Fits(name: string, n: nat) {
    LineFree(name) && Parse(name).id + n + 1 < WORD
  }

  /** Every answer reads as parts that were free and are occupied from then on; a name that is free is answered
      unchanged. */
  lemma SolveOccupies(ps: Solver, name: string, n: nat)
    requires Inv(ps, n) && Fits(name, n)
    ensures var (qs, answer) := Solve(ps, name);
            && Inv(qs, n + 1) && Occupies(ps, qs, Parse(answer)) && LineFree(answer)
            && (!Occupied(ps, Parse(name)) ==> answer == name)
  {
    hide Parse, Add, TakeNext, Print, LineFree, Inv, Occupies, Provider.Taken;
    ParseZero(name);
    var t := Parse(name);
    var p := Of(ps, t.base);
    InvOf(ps, n, t.base);
    FreeIsNotTaken(p, t.kind, t.id);
    if IsFree(p, t.kind, t.id) {
      AddTakes(p, t.kind, t.id, n);
      UpdateOccupies(ps, Add(p, t.kind, t.id), t, n);
    } else {
      var kind := if t.kind == WithIdNoSpace then WithIdNoSpace else WithIdSpace;
      var minimum: word := if t.kind == BaseNameOnly then 1 else t.id;
      TakeNextTakes(p, kind, minimum, n);
      var (q, id) := TakeNext(p, kind, minimum);
      UpdateOccupies(ps, q, Changed(t, id), n);
      ParseProper(name);
      ParsePrint(Changed(t, id));
      PrintLineFree(Changed(t, id));
    }
  }

  /** The answer to a taken name has the same base and the least free number from its own, or from 1, up. */
  lemma AnswerIsLeast(ps: Solver, name: string, n: nat)
    requires Inv(ps, n) && Fits(name, n) && Occupied(ps, Parse(name))
    ensures var t := Parse(name); var u := Parse(Solve(ps, name).1);
            var minimum := if t.kind == BaseNameOnly then 1 else t.id;
            && u.base == t.base && u.kind == (if t.kind == WithIdNoSpace then WithIdNoSpace else WithIdSpace)
            && minimum <= u.id && (forall x: word :: minimum <= x < u.id ==> Occupied(ps, u.(id := x)))
  {
    hide Parse, Add, TakeNext, Print, LineFree;
    ParseZero(name);
    var t := Parse(name);
    var p := Of(ps, t.base);
    InvOf(ps, n, t.base);
    FreeIsNotTaken(p, t.kind, t.id);
    var kind := if t.kind == WithIdNoSpace then WithIdNoSpace else WithIdSpace;
    var minimum: word := if t.kind == BaseNameOnly then 1 else t.id;
    TakeNextTakes(p, kind, minimum, n);
    ParseProper(name);
    ParsePrint(Changed(t, TakeNext(p, kind, minimum).1));
  }
}
