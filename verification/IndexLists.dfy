/** Sorted lists of taken indices and the search for the next free one. */
module IndexLists {
  import opened Machine

  predicate Sorted(s: seq<int>) {
    forall i, j :: 0 <= i < j < |s| ==> s[i] <= s[j]
  }

  predicate StrictlySorted(s: seq<int>) {
    forall i, j :: 0 <= i < j < |s| ==> s[i] < s[j]
  }

  /** The first position whose index is at least v. */
  function LowerBound(s: seq<int>, v: int): (i: nat)
    ensures i <= |s| && (forall k :: 0 <= k < i ==> s[k] < v) && (i < |s| ==> s[i] >= v)
  {
    if s == [] || s[0] >= v then 0 else 1 + LowerBound(s[1..], v)
  }

  function InsertAt(s: seq<int>, i: nat, v: int): (r: seq<int>)
    requires i <= |s|
    ensures |r| == |s| + 1
    ensures forall k :: 0 <= k < |r| ==> r[k] == if k < i then s[k] else if k == i then v else s[k - 1]
  {
    s[..i] + [v] + s[i..]
  }

  function Insert(s: seq<int>, v: int): seq<int> {
    InsertAt(s, LowerBound(s, v), v)
  }

  /** Goes on from position i as long as the list holds one index after the other, in 32-bit arithmetic. */
  function Scan(s: seq<int>, i: nat, m: word): (r: (nat, word))
    requires i <= |s|
    ensures i <= r.0 <= |s|
    decreases |s| - i
  {
    if i < |s| && s[i] == m then Scan(s, i + 1, (m + 1) % WORD) else (i, m)
  }

  /** The index chosen and where it goes. */
  function NextFree(s: seq<int>, minimum: word): (nat, word) {
    Scan(s, LowerBound(s, minimum), minimum)
  }

  predicate Free(s: seq<int>, v: int) {
    var i := LowerBound(s, v);
    i == |s| || s[i] != v
  }

  // ----- What they mean

  /** The test of one position decides membership. */
  lemma FreeMeans(s: seq<int>, v: int)
    requires Sorted(s)
    ensures Free(s, v) <==> v !in s
  {
    var i := LowerBound(s, v);
    if v in s {
      var k :| 0 <= k < |s| && s[k] == v;
      assert i <= k;
    }
  }

  lemma InsertMembers(s: seq<int>, i: nat, v: int)
    requires i <= |s|
    ensures forall x :: x in InsertAt(s, i, v) <==> x == v || x in s
  {
    var r := InsertAt(s, i, v);
    forall x
      ensures x in r <==> x == v || x in s
    {
      if x in s {
        var k :| 0 <= k < |s| && s[k] == x;
        assert r[if k < i then k else k + 1] == x;
      }
      assert r[i] == v;
    }
  }

  lemma InsertIs(s: seq<int>, v: int)
    ensures forall x :: x in Insert(s, v) <==> x == v || x in s
  {
    InsertMembers(s, LowerBound(s, v), v);
  }

  /** A list without repetitions stays one when a free index is added. */
  lemma InsertSorted(s: seq<int>, v: int)
    requires StrictlySorted(s) && v !in s
    ensures StrictlySorted(Insert(s, v))
  {
    var i := LowerBound(s, v);
    assert Splits(s, i, v);
    SplitsInsert(s, i, v);
  }

  lemma InsertKeepsOrder(s: seq<int>, v: int)
    requires Sorted(s)
    ensures Sorted(Insert(s, v))
  {
  }

  /** Position i is the place of m. */
  predicate Splits(s: seq<int>, i: nat, m: int) {
    i <= |s| && (forall k :: 0 <= k < i ==> s[k] < m) && (forall k :: i <= k < |s| ==> s[k] >= m)
  }

  lemma {:induction false} LowerBoundIs(s: seq<int>, i: nat, v: int)
    requires Splits(s, i, v)
    ensures LowerBound(s, v) == i
  {
    if i > 0 {
      LowerBoundIs(s[1..], i - 1, v);
    }
  }

  lemma SplitsInsert(s: seq<int>, i: nat, m: int)
    requires StrictlySorted(s) && Splits(s, i, m) && (i < |s| ==> s[i] != m)
    ensures m !in s && StrictlySorted(InsertAt(s, i, m))
  {
    assert forall k :: i <= k < |s| ==> s[k] > m;
  }

  lemma {:induction false} ScanLeast(s: seq<int>, i: nat, m: word)
    requires StrictlySorted(s) && Splits(s, i, m) && m + |s| < WORD + i
    ensures var (at, free) := Scan(s, i, m);
            && m <= free <= m + |s| - i && Splits(s, at, free) && (at < |s| ==> s[at] != free)
            && (forall x :: m <= x < free ==> x in s)
    decreases |s| - i
  {
    if i < |s| && s[i] == m {
      ScanLeast(s, i + 1, m + 1);
      assert m in s;
    }
  }

  /** The chosen index is the least free one from the minimum up, and the list stays strictly sorted. */
  lemma NextFreeLeast(s: seq<int>, minimum: word)
    requires StrictlySorted(s) && minimum + |s| < WORD
    ensures var (at, free) := NextFree(s, minimum);
            && minimum <= free <= minimum + |s| && free !in s
            && (forall x :: minimum <= x < free ==> x in s)
            && StrictlySorted(InsertAt(s, at, free))
  {
    var i := LowerBound(s, minimum);
    assert Splits(s, i, minimum);
    ScanLeast(s, i, minimum);
    var (at, free) := NextFree(s, minimum);
    SplitsInsert(s, at, free);
  }

  /** An index that a list holds more than once. */
  ghost predicate Twice(s: seq<int>, v: int) {
    exists i, j :: 0 <= i < j < |s| && s[i] == v && s[j] == v
  }

  /** Where element i is after an insertion. */
  function Shift(at: nat, i: nat): nat {
    if i < at then i else i + 1
  }

  lemma Shifted(s: seq<int>, at: nat, w: int, i: nat)
    requires at <= |s| && i < |s|
    ensures InsertAt(s, at, w)[Shift(at, i)] == s[i] && InsertAt(s, at, w)[at] == w
  {
  }

  lemma InsertTwice(s: seq<int>, v: int, w: int)
    requires Twice(s, v) || (w == v && v in s)
    ensures Twice(Insert(s, w), v)
  {
    hide InsertAt;
    var at := LowerBound(s, w);
    if Twice(s, v) {
      var i, j :| 0 <= i < j < |s| && s[i] == v && s[j] == v;
      Shifted(s, at, w, i);
      Shifted(s, at, w, j);
    } else {
      var i :| 0 <= i < |s| && s[i] == v;
      Shifted(s, at, w, i);
    }
  }

  /** Position p starts a run of indices from i up to i + r, and then comes i once more. */
  predicate Climbing(s: seq<int>, p: nat, i: int, r: nat) {
    && Splits(s, p, i) && p + r + 1 < |s|
    && (forall k :: p <= k <= p + r ==> s[k] == i + k - p)
    && s[p + r + 1] == i
  }

  lemma TwiceClimbs(s: seq<int>, i: int)
    requires Sorted(s) && Twice(s, i)
    ensures Climbing(s, LowerBound(s, i), i, 0)
  {
    var j, k :| 0 <= j < k < |s| && s[j] == i && s[k] == i;
    var p := LowerBound(s, i);
    assert p <= j && s[p] == i;
    assert s[p] <= s[p + 1] <= s[k];
  }

  lemma {:induction false} ScanRun(s: seq<int>, p: nat, i: nat, r: nat, k: nat)
    requires Climbing(s, p, i, r) && k <= r + 1 && i + r + 1 < WORD
    ensures Scan(s, p + k, i + k) == (p + r + 1, i + r + 1)
    decreases r + 1 - k
  {
    if k <= r {
      assert s[p + k] == i + k;
      ScanRun(s, p, i, r, k + 1);
    }
  }

  /** The search climbs the run, stops at the repetition and makes the run longer by one. */
  lemma ClimbNext(s: seq<int>, p: nat, i: nat, r: nat)
    requires Climbing(s, p, i, r) && i + r + 1 < WORD
    ensures LowerBound(s, i) == p && !Free(s, i) && NextFree(s, i) == (p + r + 1, i + r + 1)
    ensures Climbing(InsertAt(s, p + r + 1, i + r + 1), p, i, r + 1)
    ensures LowerBound(InsertAt(s, p + r + 1, i + r + 1), i) == p
  {
    hide LowerBound, Scan;
    LowerBoundIs(s, p, i);
    ScanRun(s, p, i, r, 0);
    var longer := InsertAt(s, p + r + 1, i + r + 1);
    assert Splits(longer, p, i);
    LowerBoundIs(longer, p, i);
  }

  /** A repetition misleads the search: it stops at the next index even when that one is taken. */
  lemma RepetitionMisleads(s: seq<int>, m: word)
    requires Sorted(s) && Twice(s, m) && m + 1 < WORD
    ensures !Free(s, m) && NextFree(s, m).1 == m + 1
  {
    TwiceClimbs(s, m);
    ClimbNext(s, LowerBound(s, m), m, 0);
  }

  /** Among one index more than a set has, one is not in it. */
  lemma {:induction false} FreeAbove(taken: set<int>, i: int) returns (m: int)
    ensures i < m <= i + |taken| + 1 && m !in taken
    decreases |taken|
  {
    m := i + 1;
    if m in taken {
      m := FreeAbove(taken - {i + 1}, i + 1);
    }
  }

  lemma {:induction false} Members(s: seq<int>) returns (all: set<int>)
    ensures |all| <= |s| && forall x :: x in s <==> x in all
  {
    all := {};
    if s != [] {
      all := Members(s[1..]);
      assert s == [s[0]] + s[1..];
      all := all + {s[0]};
    }
  }

  /** A list leaves some index free within its own length above i. */
  lemma NearFree(s: seq<int>, i: int) returns (m: int)
    ensures i < m <= i + |s| + 1 && m !in s
  {
    var all := Members(s);
    m := FreeAbove(all, i);
  }

  /** The indices below v come first: what a binary search for v needs. */
  predicate Partitioned(s: seq<int>, v: int) {
    forall i, j :: 0 <= i < j < |s| && s[j] < v ==> s[i] < v
  }
}
