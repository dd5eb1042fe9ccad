/** The search for a proof of work: workers, a deadline and cancellation, as interleaved steps. */
module HashcashSearch {
  import opened Machine
  import opened Hashcash
  import Base64

  /** What does not change during a search. */
  datatype Search = Search(sha: Sha, token: string, easiness: byte, workers: nat)

  ghost predicate Ready(c: Search) {
    0 < c.workers < WORD && |Base64.Decode(c.token, 0)| == TOKEN_BYTES
  }

  predicate Hit(c: Search, n: word)
    requires Base64.Decode(c.token, 0) != []
  {
    Proves(c.sha, Base64.Decode(c.token, 0), c.easiness, BigEndian(n))
  }

  function Sent(n: word): string {
    Base64.Encode(BigEndian(n))
  }

  /** Where a worker is: before the first look at the flags, before the second, before the test, or with its result. */
  datatype Worker =
    | Looking(n: word)
    | Hashing(n: word)
    | Testing(n: word)
    | Returned(local: string)
    | Finished

  /** Where the coordinator is. */
  datatype Coordinator =
    | Waiting
    | Joining(cancelTriggered: bool)
    | Result(text: string)

  datatype State = State(
    pool: seq<Worker>,
    stop: bool,
    cancelled: bool,
    winner: string,
    coordinator: Coordinator
  )

  /** A step of one worker, of the outside world, or of the coordinator. */
  datatype Action = Work(w: nat) | Cancel | WakeUp(deadlinePassed: bool) | Join

  function Start(c: Search): State
    requires c.workers < WORD
  {
    State(seq(c.workers, w requires 0 <= w < c.workers => Looking(w)), false, false, "", Waiting)
  }

  predicate Stopping(s: State) {
    s.stop || s.cancelled
  }

  /** Every worker has finished. */
  predicate Over(s: State) {
    forall w :: 0 <= w < |s.pool| ==> s.pool[w].Finished?
  }

  predicate Enabled(s: State, a: Action) {
    match a
    case Work(w) => w < |s.pool| && !s.pool[w].Finished?
    case Cancel => true
    case WakeUp(deadlinePassed) => s.coordinator.Waiting? && (s.winner != "" || s.cancelled || deadlinePassed)
    case Join => s.coordinator.Joining? && Over(s)
  }

  function Step(c: Search, s: State, a: Action): State
    requires Base64.Decode(c.token, 0) != [] && Enabled(s, a)
  {
    match a
    case Work(w) => WorkStep(c, s, w)
    case Cancel => s.(cancelled := true)
    case WakeUp(_) => s.(stop := s.stop || s.winner == "" || s.cancelled, coordinator := Joining(s.cancelled))
    case Join =>
      s.(coordinator := Result(if s.winner != "" && (s.coordinator.cancelTriggered || s.cancelled)
                               then "" else s.winner))
  }

  function WorkStep(c: Search, s: State, w: nat): State
    requires Base64.Decode(c.token, 0) != [] && w < |s.pool| && !s.pool[w].Finished?
  {
    match s.pool[w]
    case Looking(n) => s.(pool := s.pool[w := if Stopping(s) then Returned("") else Hashing(n)])
    case Hashing(n) => s.(pool := s.pool[w := if Stopping(s) then Returned("") else Testing(n)])
    case Testing(n) =>
      if Hit(c, n) then s.(pool := s.pool[w := Returned(Sent(n))], stop := true)
      else s.(pool := s.pool[w := Looking((n + c.workers) % WORD)])
    case Returned(local) =>
      var wins := local != "" && s.winner == "";
      s.(pool := s.pool[w := Finished], winner := if wins then local else s.winner,
         stop := s.stop || wins || s.cancelled)
  }

  // ----- Runs

  ghost predicate Run(c: Search, states: seq<State>, actions: seq<Action>) {
    && Base64.Decode(c.token, 0) != []
    && |states| == |actions| + 1
    && forall i :: 0 <= i < |actions| ==>
          Enabled(states[i], actions[i]) && states[i + 1] == Step(c, states[i], actions[i])
  }

  ghost predicate Good(c: Search, text: string) {
    text != "" ==> Accepted(c.sha, c.token, c.easiness, text)
  }

  /** What a worker holds is its own nonce, or an accepted result. */
  ghost predicate WorkerOk(c: Search, w: nat, worker: Worker)
    requires c.workers > 0
  {
    match worker
    case Looking(n) => Own(c, w, n)
    case Hashing(n) => Own(c, w, n)
    case Testing(n) => Own(c, w, n)
    case Returned(local) => Good(c, local)
    case Finished => true
  }

  /** Some round of worker w reaches n. */
  ghost predicate Own(c: Search, w: nat, n: word) {
    exists k: nat :: n == Nonce(c.workers, w, k)
  }

  /** The nonce of a worker's k-th round, in 32-bit arithmetic. */
  function Nonce(workers: nat, w: nat, k: nat): word {
    (w + k * workers) % WORD
  }

  ghost predicate Inv(c: Search, s: State) {
    && Ready(c) && |s.pool| == c.workers
    && (forall w :: 0 <= w < |s.pool| ==> WorkerOk(c, w, s.pool[w]))
    && Good(c, s.winner)
    && (s.winner != "" ==> s.stop)
    && (s.coordinator.Joining? ==> Stopping(s) && (s.coordinator.cancelTriggered ==> s.cancelled))
    && (s.coordinator.Result? ==> Over(s) && Good(c, s.coordinator.text))
    && (s.coordinator.Result? && !s.cancelled ==> s.coordinator.text == s.winner)
  }

  lemma NextNonce(workers: nat, w: nat, k: nat)
    ensures (Nonce(workers, w, k) + workers) % WORD == Nonce(workers, w, k + 1)
  {
    var x := w + k * workers;
    assert w + (k + 1) * workers == x + workers;
    assert x == x / WORD * WORD + x % WORD;
    assert (x % WORD + workers) % WORD == (x + workers) % WORD;
  }

  lemma StartInv(c: Search)
    requires Ready(c)
    ensures Inv(c, Start(c))
  {
    forall w | 0 <= w < c.workers
      ensures WorkerOk(c, w, Start(c).pool[w])
    {
      assert w == Nonce(c.workers, w, 0);
    }
  }

  lemma WorkerKeeps(c: Search, s: State, w: nat)
    requires Inv(c, s) && w < |s.pool| && !s.pool[w].Finished?
    ensures WorkerOk(c, w, WorkStep(c, s, w).pool[w])
  {
    hide Accepted, Nonce;
    assert WorkerOk(c, w, s.pool[w]);
    if s.pool[w].Testing? {
      var n := s.pool[w].n;
      if Hit(c, n) {
        SentNonceAccepted(c.sha, c.token, c.easiness, n);
      } else {
        var k: nat :| n == Nonce(c.workers, w, k);
        NextNonce(c.workers, w, k);
      }
    }
  }

  /** No interleaving breaks the invariant. */
  lemma StepKeeps(c: Search, s: State, a: Action)
    requires Inv(c, s) && Enabled(s, a)
    ensures Inv(c, Step(c, s, a))
  {
    hide Accepted, Nonce, Own, Base64.Decode;
    if a.Work? {
      WorkerKeeps(c, s, a.w);
      assert WorkerOk(c, a.w, s.pool[a.w]);
    }
  }

  lemma {:induction false} RunKeeps(c: Search, states: seq<State>, actions: seq<Action>)
    requires Run(c, states, actions) && Ready(c) && states[0] == Start(c)
    ensures Inv(c, states[|actions|])
    decreases |actions|
  {
    hide Inv, Step, Start;
    if actions == [] {
      StartInv(c);
    } else {
      var n := |actions| - 1;
      RunKeeps(c, states[..n + 1], actions[..n]);
      StepKeeps(c, states[n], actions[n]);
    }
  }

  /** Soundness over all interleavings: whatever the search returns, if not empty, is accepted for the same token and
      easiness. */
  lemma Sound(c: Search, states: seq<State>, actions: seq<Action>)
    requires Run(c, states, actions) && Ready(c) && states[0] == Start(c)
    requires states[|actions|].coordinator.Result? && states[|actions|].coordinator.text != ""
    ensures Accepted(c.sha, c.token, c.easiness, states[|actions|].coordinator.text)
  {
    RunKeeps(c, states, actions);
  }

  /** The winner, once set, never changes. */
  lemma {:induction false} WinnerOnce(c: Search, states: seq<State>, actions: seq<Action>, i: nat, j: nat)
    requires Run(c, states, actions) && i <= j <= |actions| && states[i].winner != ""
    ensures states[j].winner == states[i].winner
    decreases j
  {
    if i < j {
      WinnerOnce(c, states, actions, i, j - 1);
      assert states[j - 1 + 1] == Step(c, states[j - 1], actions[j - 1]);
    }
  }

  /** Without a cancellation the result is the winner, if there is one; all workers have finished by then. */
  lemma WinnerReturned(c: Search, states: seq<State>, actions: seq<Action>)
    requires Run(c, states, actions) && Ready(c) && states[0] == Start(c)
    requires states[|actions|].coordinator.Result? && !states[|actions|].cancelled
    ensures states[|actions|].coordinator.text == states[|actions|].winner && Over(states[|actions|])
  {
    RunKeeps(c, states, actions);
  }

  /** A worker that has a text to hand in, or a winner. */
  ghost predicate Found(s: State) {
    s.winner != "" || exists w :: 0 <= w < |s.pool| && Holding(s.pool[w])
  }

  predicate Holding(w: Worker) {
    w.Returned? && w.local != ""
  }

  /** What was found is not lost on any step. */
  lemma FoundStays(c: Search, s: State, a: Action)
    requires Base64.Decode(c.token, 0) != [] && Enabled(s, a) && Found(s)
    ensures Found(Step(c, s, a))
  {
    hide Base64.Decode, Hit;
    var s' := Step(c, s, a);
    if s'.winner == "" {
      var w :| 0 <= w < |s.pool| && Holding(s.pool[w]);
      assert Holding(s'.pool[w]);
    }
  }

  lemma {:induction false} FoundUntil(c: Search, states: seq<State>, actions: seq<Action>, i: nat, j: nat)
    requires Run(c, states, actions) && i <= j <= |actions| && Found(states[i])
    ensures Found(states[j])
    decreases j
  {
    hide Found, Step;
    if i < j {
      FoundUntil(c, states, actions, i, j - 1);
      FoundStays(c, states[j - 1], actions[j - 1]);
    }
  }

  /** No hit is lost: without a cancellation, a text that any worker came back with makes a result that is not empty. */
  lemma NoHitLost(c: Search, states: seq<State>, actions: seq<Action>, i: nat, w: nat)
    requires Run(c, states, actions) && Ready(c) && states[0] == Start(c)
    requires i <= |actions| && w < |states[i].pool| && Holding(states[i].pool[w])
    requires states[|actions|].coordinator.Result? && !states[|actions|].cancelled
    ensures states[|actions|].coordinator.text != ""
    ensures Accepted(c.sha, c.token, c.easiness, states[|actions|].coordinator.text)
  {
    hide Accepted, Step;
    FoundUntil(c, states, actions, i, |actions|);
    WinnerReturned(c, states, actions);
    RunKeeps(c, states, actions);
  }

  // ----- Every stopped search ends

  /** The steps a worker has left once the search is stopping. */
  function Rank(w: Worker): (r: nat)
    ensures r <= 3
  {
    match w
    case Looking(_) => 2
    case Hashing(_) => 2
    case Testing(_) => 3
    case Returned(_) => 1
    case Finished => 0
  }

  function Ranks(pool: seq<Worker>): (r: nat)
    ensures r <= 3 * |pool|
  {
    if pool == [] then 0 else Ranks(pool[..|pool| - 1]) + Rank(pool[|pool| - 1])
  }

  lemma {:induction false} RanksUpdate(pool: seq<Worker>, w: nat, worker: Worker)
    requires w < |pool|
    ensures Ranks(pool[w := worker]) == Ranks(pool) - Rank(pool[w]) + Rank(worker)
  {
    var last := |pool| - 1;
    if w == last {
      assert pool[w := worker][..last] == pool[..last];
    } else {
      assert pool[w := worker][..last] == pool[..last][w := worker];
      RanksUpdate(pool[..last], w, worker);
    }
  }

  lemma StopStays(c: Search, s: State, a: Action)
    requires Base64.Decode(c.token, 0) != [] && Enabled(s, a) && Stopping(s)
    ensures Stopping(Step(c, s, a))
    ensures Ranks(Step(c, s, a).pool) + (if a.Work? then 1 else 0) <= Ranks(s.pool)
  {
    hide Ranks, Base64.Decode;
    if a.Work? {
      RanksUpdate(s.pool, a.w, WorkStep(c, s, a.w).pool[a.w]);
    }
  }

  function WorkDone(actions: seq<Action>): nat {
    if actions == [] then 0
    else WorkDone(actions[..|actions| - 1]) + (if actions[|actions| - 1].Work? then 1 else 0)
  }

  /** From the moment a search is told to stop, its workers together take at most three more steps each, in any
      interleaving. */
  lemma {:induction false} StoppedSearchEnds(c: Search, states: seq<State>, actions: seq<Action>)
    requires Run(c, states, actions) && Stopping(states[0])
    ensures Stopping(states[|actions|])
    ensures WorkDone(actions) + Ranks(states[|actions|].pool) <= Ranks(states[0].pool) <= 3 * |states[0].pool|
    decreases |actions|
  {
    hide Ranks, Step, Stopping;
    if actions != [] {
      var n := |actions| - 1;
      StoppedSearchEnds(c, states[..n + 1], actions[..n]);
      StopStays(c, states[n], actions[n]);
    }
  }

  /** Every nonce is that of some worker in some round before the numbers wrap. */
  lemma NonceReached(workers: nat, n: word)
    requires 0 < workers
    ensures n % workers < workers && n % workers + n / workers * workers == n
    ensures Nonce(workers, n % workers, n / workers) == n
  {
    var k: int := n;
    assert k == k / workers * workers + k % workers;
  }

  /** And of one worker in one round only. */
  lemma NonceOnce(workers: nat, w: nat, k: nat, w1: nat, k1: nat)
    requires w < workers && w1 < workers && w + k * workers == w1 + k1 * workers
    ensures w == w1 && k == k1
  {
    if k < k1 {
      Monotone(workers, k + 1, k1);
    } else if k1 < k {
      Monotone(workers, k1 + 1, k);
    }
  }
}
