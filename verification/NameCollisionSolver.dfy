/** The name solver as the object that the callers use. */
module NameCollisionSolvers {
  import opened Machine
  import opened IndexLists
  import opened NameParts
  import opened NameCollisions
  import opened NameCollisionRuns

  /** Binary search for the first index that is at least v. */
  method FindLowerBound(s: seq<int>, v: int) returns (i: nat)
    requires Partitioned(s, v)
    ensures i == LowerBound(s, v)
  {
    var lo, hi := 0, |s|;
    while lo < hi
      invariant 0 <= lo <= hi <= |s|
      invariant (forall k :: 0 <= k < lo ==> s[k] < v) && (forall k :: hi <= k < |s| ==> s[k] >= v)
    {
      var mid := (lo + hi) / 2;
      if s[mid] < v {
        lo := mid + 1;
      } else {
        hi := mid;
      }
    }
    i := lo;
    LowerBoundIs(s, i, v);
  }

  /** Raises the minimum past the indices that follow one another. */
  method FindNextFree(s: seq<int>, minimumAllowed: word) returns (at: nat, index: word)
    requires Partitioned(s, minimumAllowed)
    ensures at <= |s| && (at, index) == NextFree(s, minimumAllowed)
  {
    index := minimumAllowed;
    at := FindLowerBound(s, index);
    while at < |s| && s[at] == index
      invariant at <= |s| && Scan(s, at, index) == NextFree(s, minimumAllowed)
      decreases |s| - at
    {
      index := (index + 1) % WORD;
      at := at + 1;
    }
  }

  class NewFreeIndexProvider {
    var occupiedIndicesNoSpace: seq<int>
    var occupiedIndicesSpace: seq<int>
    var baseNameOccupied: bool

    ghost function Abs(): Provider
      reads this
    {
      Provider(occupiedIndicesNoSpace, occupiedIndicesSpace, baseNameOccupied)
    }

    constructor ()
      ensures Abs() == NOTHING
    {
      occupiedIndicesNoSpace, occupiedIndicesSpace, baseNameOccupied := [], [], false;
    }

    method AddOccupiedIndex(kind: Kind, index: word)
      requires kind != BaseNameOnly ==> Abs().Searchable(kind, index)
      modifies this
      ensures Abs() == Add(old(Abs()), kind, index)
    {
      match kind {
        case BaseNameOnly =>
          baseNameOccupied := true;
        case WithIdSpace =>
          var at := FindLowerBound(occupiedIndicesSpace, index);
          occupiedIndicesSpace := InsertAt(occupiedIndicesSpace, at, index);
        case WithIdNoSpace =>
          var at := FindLowerBound(occupiedIndicesNoSpace, index);
          occupiedIndicesNoSpace := InsertAt(occupiedIndicesNoSpace, at, index);
      }
    }

    method IsFreeIndex(kind: Kind, index: word) returns (free: bool)
      requires kind != BaseNameOnly ==> Abs().Searchable(kind, index)
      ensures free == IsFree(Abs(), kind, index) && (Abs().Ordered() ==> free == !Abs().Taken(kind, index))
    {
      if Abs().Ordered() {
        FreeIsNotTaken(Abs(), kind, index);
      }
      if kind == BaseNameOnly {
        return !baseNameOccupied;
      }
      var container := if kind == WithIdSpace then occupiedIndicesSpace else occupiedIndicesNoSpace;
      var at := FindLowerBound(container, index);
      free := at == |container| || container[at] != index;
    }

    method GetNextFreeIndex(kind: Kind, minimumAllowed: word) returns (index: word)
      requires Abs().Searchable(kind, minimumAllowed)
      modifies this
      ensures (Abs(), index) == GetNext(old(Abs()), kind, minimumAllowed)
    {
      hide NextFree, InsertAt;
      if kind == BaseNameOnly && !baseNameOccupied {
        baseNameOccupied := true;
        return 0;
      }
      var at: nat;
      if kind == WithIdNoSpace {
        at, index := FindNextFree(occupiedIndicesNoSpace, minimumAllowed);
        occupiedIndicesNoSpace := InsertAt(occupiedIndicesNoSpace, at, index);
      } else {
        at, index := FindNextFree(occupiedIndicesSpace, if kind == BaseNameOnly then 1 else minimumAllowed);
        occupiedIndicesSpace := InsertAt(occupiedIndicesSpace, at, index);
      }
    }
  }

  class NameCollisionSolver {
    var indexProviders: map<string, NewFreeIndexProvider>

    /** Every base name has a provider of its own. */
    ghost predicate Separate()
      reads this
    {
      forall a, b :: a in indexProviders && b in indexProviders && indexProviders[a] == indexProviders[b] ==> a == b
    }

    ghost function Abs(): Solver
      reads this, indexProviders.Values
    {
      map b | b in indexProviders :: indexProviders[b].Abs()
    }

    constructor (existingNames: seq<string>)
      ensures Separate() && fresh(indexProviders.Values) && Abs() == Start(existingNames) && AllSorted(Abs())
    {
      hide AllSorted, Remember;
      indexProviders := map[];
      new;
      StartEmpty();
      for i := 0 to |existingNames|
        invariant Separate() && fresh(indexProviders.Values) && Abs() == Start(existingNames[..i])
        invariant AllSorted(Abs())
      {
        RememberName(existingNames[i]);
        assert existingNames[..i + 1][..i] == existingNames[..i];
      }
      assert existingNames[..|existingNames|] == existingNames;
    }

    /** Takes in one existing name. */
    method RememberName(name: string)
      requires Separate() && AllSorted(Abs())
      modifies this, indexProviders.Values
      ensures Separate() && fresh(indexProviders.Values - old(indexProviders.Values))
      ensures Abs() == Remember(old(Abs()), name) && AllSorted(Abs())
    {
      hide Parse, AllSorted, Add, Separate, Abs, Provider.Searchable;
      RememberSorted(Abs(), name);
      var t := Parse(name);
      SortedOf(Abs(), t.base);
      Occupy(t.base, t.kind, t.id);
    }

    /** The provider of a base name, made if there is none. */
    method ProviderOf(base: string) returns (p: NewFreeIndexProvider)
      requires Separate()
      modifies this
      ensures Separate() && base in indexProviders && indexProviders[base] == p
      ensures Abs() == old(Abs())[base := Of(old(Abs()), base)]
      ensures fresh(indexProviders.Values - old(indexProviders.Values))
      ensures p.Abs() == Of(old(Abs()), base)
    {
      if base !in indexProviders {
        p := new NewFreeIndexProvider();
        indexProviders := indexProviders[base := p];
      }
      p := indexProviders[base];
    }

    /** Marks an index of a base name. */
    method Occupy(base: string, kind: Kind, id: word)
      requires Separate() && (kind != BaseNameOnly ==> Of(Abs(), base).Searchable(kind, id))
      modifies this, indexProviders.Values
      ensures Separate() && fresh(indexProviders.Values - old(indexProviders.Values))
      ensures Abs() == old(Abs())[base := Add(Of(old(Abs()), base), kind, id)]
    {
      hide Add, Provider.Searchable;
      ghost var before := Abs();
      var p := ProviderOf(base);
      p.AddOccupiedIndex(kind, id);
      assert Abs() == before[base := p.Abs()];
    }

    /** Takes the next free index of a base name. */
    method TakeFree(base: string, kind: Kind, minimum: word) returns (id: word)
      requires Separate() && Of(Abs(), base).Searchable(kind, minimum)
      modifies this, indexProviders.Values
      ensures Separate() && fresh(indexProviders.Values - old(indexProviders.Values))
      ensures id == GetNext(Of(old(Abs()), base), kind, minimum).1
      ensures Abs() == old(Abs())[base := GetNext(Of(old(Abs()), base), kind, minimum).0]
    {
      hide GetNext, Provider.Searchable;
      ghost var before := Abs();
      var p := ProviderOf(base);
      id := p.GetNextFreeIndex(kind, minimum);
      assert Abs() == before[base := p.Abs()];
    }

    method IsFreeName(t: Parts) returns (free: bool)
      requires Separate() && Of(Abs(), t.base).Searchable(t.kind, t.id)
      ensures free == IsFree(Of(Abs(), t.base), t.kind, t.id)
    {
      if t.base !in indexProviders {
        return true;
      }
      free := indexProviders[t.base].IsFreeIndex(t.kind, t.id);
    }

    /** Answers a name; from a valid solver the answer is new. */
    method Resolve(nameToValidate: string, ghost n: nat) returns (answer: string)
      requires Separate()
      requires Of(Abs(), Parse(nameToValidate).base).Searchable(Parse(nameToValidate).kind, Parse(nameToValidate).id)
      modifies this, indexProviders.Values
      ensures Separate() && fresh(indexProviders.Values - old(indexProviders.Values))
      ensures (Abs(), answer) == Solve(old(Abs()), nameToValidate)
      ensures old(Inv(Abs(), n)) && Fits(nameToValidate, n) ==>
                Inv(Abs(), n + 1) && Occupies(old(Abs()), Abs(), Parse(answer))
    {
      hide Parse, Add, GetNext, Print, Inv, Occupies, IsFree, Fits, Separate, Abs, Provider.Searchable;
      ghost var before := Abs();
      if Inv(before, n) && Fits(nameToValidate, n) {
        SolveOccupies(before, nameToValidate, n);
      }
      var t := Parse(nameToValidate);
      var free := IsFreeName(t);
      if free {
        Occupy(t.base, t.kind, t.id);
        return nameToValidate;
      }
      var validId := TakeFree(t.base, t.kind, t.id);
      answer := Print(Changed(t, validId));
    }
  }

  lemma StartEmpty()
    ensures Start([]) == map[] && AllSorted(map[])
  {
  }

  lemma SortedOf(ps: Solver, base: string)
    requires AllSorted(ps)
    ensures forall kind, id :: Of(ps, base).Searchable(kind, id)
  {
  }
}
