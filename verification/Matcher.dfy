/** Matching a command line, as a list of words, against a grammar. */
module Matcher {
  import opened Wrappers
  import opened Decimals

  datatype Word = Word(s: string, quoted: bool)

  datatype Grammar =
    | Optional(sub: Grammar)
    | Repeat(sub: Grammar)
    | Sequence(current: Grammar, next: Grammar)
    | Either(eithers: seq<Grammar>)
    | Text(exactText: string, param: bool)
    | Flag(flagText: string)
    | WholeNumber

  /** The word that a terminal accepts. */
  predicate Accepts(g: Grammar, w: Word) {
    match g
    case Text(exactText, param) => if param then w.s != "" && (w.s[0] != '-' || w.quoted) else w.s == exactText
    case Flag(flagText) => w.s == flagText
    case WholeNumber => AllDigits(w.s)
    case _ => false
  }

  predicate IsTerminal(g: Grammar) {
    g.Text? || g.Flag? || g.WholeNumber?
  }

  /** The grammar can match without a word. */
  predicate Nullable(g: Grammar) {
    match g
    case Optional(_) => true
    case Repeat(_) => true
    case Sequence(current, next) => Nullable(current) && Nullable(next)
    case Either(eithers) => exists i :: 0 <= i < |eithers| && Nullable(eithers[i])
    case _ => false
  }

  /** Every repeated part needs a word. */
  predicate Grounded(g: Grammar) {
    match g
    case Optional(sub) => Grounded(sub)
    case Repeat(sub) => Grounded(sub) && !Nullable(sub)
    case Sequence(current, next) => Grounded(current) && Grounded(next)
    case Either(eithers) => forall i :: 0 <= i < |eithers| ==> Grounded(eithers[i])
    case _ => true
  }

  // ----- How a line is matched

  /** Whether the match succeeds, and the word it stops at. */
  function Match(g: Grammar, words: seq<Word>, i: nat): (r: (bool, nat))
    requires Grounded(g) && i <= |words|
    ensures r.1 <= |words|
    ensures r.0 ==> i <= r.1 && (!Nullable(g) ==> i < r.1)
    ensures g.Optional? || g.Repeat? ==> r.0
    decreases |words| - i, g, if g.Either? then |g.eithers| + 1 else 0
  {
    match g
    case Optional(sub) =>
      var (ok, j) := Match(sub, words, i);
      (true, if ok then j else i)
    case Repeat(sub) =>
      if i == |words| then (true, i)
      else
        var (ok, j) := Match(sub, words, i);
        if ok then Match(g, words, j) else (true, i)
    case Sequence(current, next) =>
      var (ok, j) := Match(current, words, i);
      if ok then Match(next, words, j) else (false, j)
    case Either(eithers) => MatchFirst(g, words, i, 0, i)
    case _ =>
      if i < |words| && Accepts(g, words[i]) then (true, i + 1) else (false, i)
  }

  /** The first alternative from the k-th that matches; `at` is where the one before it stopped. */
  function MatchFirst(g: Grammar, words: seq<Word>, i: nat, k: nat, at: nat): (r: (bool, nat))
    requires g.Either? && Grounded(g) && i <= |words| && k <= |g.eithers| && at <= |words|
    ensures r.1 <= |words|
    ensures r.0 ==> i <= r.1 && (!Nullable(g) ==> i < r.1)
    decreases |words| - i, g, |g.eithers| - k
  {
    if k == |g.eithers| then (false, at)
    else
      var (ok, j) := Match(g.eithers[k], words, i);
      if ok then (true, j) else MatchFirst(g, words, i, k + 1, j)
  }

  // ----- What a grammar means

  /** The lists of words a grammar stands for. */
  ghost predicate Derives(g: Grammar, ws: seq<Word>)
    decreases |ws|, g
  {
    match g
    case Optional(sub) => ws == [] || Derives(sub, ws)
    case Repeat(sub) => ws == [] || exists k :: 0 < k <= |ws| && Derives(sub, ws[..k]) && Derives(g, ws[k..])
    case Sequence(current, next) => exists k :: 0 <= k <= |ws| && Derives(current, ws[..k]) && Derives(next, ws[k..])
    case Either(eithers) => exists i :: 0 <= i < |eithers| && Derives(eithers[i], ws)
    case _ => |ws| == 1 && Accepts(g, ws[0])
  }

  // ----- A match consumes words of the language

  lemma Slice(words: seq<Word>, i: nat, j: nat, k: nat)
    requires i <= j <= k <= |words|
    ensures words[i..k][..j - i] == words[i..j] && words[i..k][j - i..] == words[j..k]
  {
  }

  /** The words that a successful match takes are words of the language. */
  lemma {:induction false} MatchDerives(g: Grammar, words: seq<Word>, i: nat)
    requires Grounded(g) && i <= |words|
    ensures Match(g, words, i).0 ==> Derives(g, words[i..Match(g, words, i).1])
    decreases |words| - i, g, if g.Either? then |g.eithers| + 1 else 0
  {
    match g
    case Optional(sub) => MatchDerives(sub, words, i);
    case Repeat(sub) =>
      if i < |words| {
        MatchDerives(sub, words, i);
        var (ok, j) := Match(sub, words, i);
        if ok {
          MatchDerives(g, words, j);
          RepeatDerives(g, words, i, j, Match(g, words, j).1);
        }
      }
    case Sequence(current, next) =>
      MatchDerives(current, words, i);
      var (ok, j) := Match(current, words, i);
      if ok {
        MatchDerives(next, words, j);
        if Match(next, words, j).0 {
          SequenceDerives(g, words, i, j, Match(next, words, j).1);
        }
      }
    case Either(eithers) => MatchFirstDerives(g, words, i, 0, i);
    case _ =>
  }

  lemma RepeatDerives(g: Grammar, words: seq<Word>, i: nat, j: nat, k: nat)
    requires g.Repeat? && i < j <= k <= |words| && Derives(g.sub, words[i..j]) && Derives(g, words[j..k])
    ensures Derives(g, words[i..k])
  {
    Slice(words, i, j, k);
    assert 0 < j - i <= |words[i..k]|;
  }

  lemma SequenceDerives(g: Grammar, words: seq<Word>, i: nat, j: nat, k: nat)
    requires g.Sequence? && i <= j <= k <= |words| && Derives(g.current, words[i..j]) && Derives(g.next, words[j..k])
    ensures Derives(g, words[i..k])
  {
    Slice(words, i, j, k);
    assert 0 <= j - i <= |words[i..k]|;
  }

  lemma {:induction false} MatchFirstDerives(g: Grammar, words: seq<Word>, i: nat, k: nat, at: nat)
    requires g.Either? && Grounded(g) && i <= |words| && k <= |g.eithers| && at <= |words|
    ensures MatchFirst(g, words, i, k, at).0 ==> Derives(g, words[i..MatchFirst(g, words, i, k, at).1])
    decreases |words| - i, g, |g.eithers| - k
  {
    if k < |g.eithers| {
      MatchDerives(g.eithers[k], words, i);
      var (ok, j) := Match(g.eithers[k], words, i);
      if !ok {
        MatchFirstDerives(g, words, i, k + 1, j);
      }
    }
  }

  // ----- When the match misses nothing

  /** Two terminals accept a common word. */
  predicate Clash(a: Grammar, b: Grammar) {
    match a
    case Text(x, false) =>
      (match b
       case Text(y, false) => x == y
       case Text(_, true) => x != ""
       case Flag(y) => x == y
       case WholeNumber => AllDigits(x)
       case _ => false)
    case Text(_, true) =>
      (match b
       case Text(y, false) => y != ""
       case Text(_, true) => true
       case Flag(y) => y != ""
       case WholeNumber => true
       case _ => false)
    case Flag(x) =>
      (match b
       case Text(y, false) => x == y
       case Text(_, true) => x != ""
       case Flag(y) => x == y
       case WholeNumber => AllDigits(x)
       case _ => false)
    case WholeNumber =>
      (match b
       case Text(y, false) => AllDigits(y)
       case Text(_, true) => true
       case Flag(y) => AllDigits(y)
       case WholeNumber => true
       case _ => false)
    case _ => false
  }

  /** A word that both accept, when they clash. */
  function Common(a: Grammar, b: Grammar): Word {
    if a.Text? && !a.param then Word(a.exactText, true)
    else if a.Flag? then Word(a.flagText, true)
    else if b.Text? && !b.param then Word(b.exactText, true)
    else if b.Flag? then Word(b.flagText, true)
    else Word("0", true)
  }

  lemma ClashMeans(a: Grammar, b: Grammar)
    ensures Clash(a, b) <==> exists w: Word :: Accepts(a, w) && Accepts(b, w)
    ensures Clash(a, b) ==> Accepts(a, Common(a, b)) && Accepts(b, Common(a, b))
  {
    if Clash(a, b) {
      assert Accepts(a, Common(a, b)) && Accepts(b, Common(a, b));
    }
  }

  /** The terminals that can accept the first word of what the grammar derives. */
  function First(g: Grammar): seq<Grammar> {
    match g
    case Optional(sub) => First(sub)
    case Repeat(sub) => First(sub)
    case Sequence(current, next) => First(current) + (if Nullable(current) then First(next) else [])
    case Either(eithers) => FirstOf(eithers)
    case _ => [g]
  }

  function FirstOf(gs: seq<Grammar>): seq<Grammar> {
    if gs == [] then [] else First(gs[0]) + FirstOf(gs[1..])
  }

  /** The terminals that can take one more word after something complete. */
  function More(g: Grammar): seq<Grammar> {
    (if Nullable(g) then First(g) else []) +
    match g
    case Optional(sub) => More(sub)
    case Repeat(sub) => First(sub) + More(sub)
    case Sequence(current, next) => More(next) + (if Nullable(next) then More(current) else [])
    case Either(eithers) => MoreOf(eithers)
    case _ => []
  }

  function MoreOf(gs: seq<Grammar>): seq<Grammar> {
    if gs == [] then [] else More(gs[0]) + MoreOf(gs[1..])
  }

  /** Some terminal accepts the word. */
  predicate Takes(ts: seq<Grammar>, w: Word) {
    exists i :: 0 <= i < |ts| && Accepts(ts[i], w)
  }

  /** No terminal of the one clashes with one of the other. */
  predicate Apart(ts: seq<Grammar>, us: seq<Grammar>) {
    forall i, j :: 0 <= i < |ts| && 0 <= j < |us| ==> !Clash(ts[i], us[j])
  }

  /** One word ahead decides: what may follow is not what could still be taken, and alternatives start differently. */
  predicate Decided(g: Grammar) {
    match g
    case Optional(sub) => Decided(sub)
    case Repeat(sub) => Decided(sub) && Apart(More(sub), First(sub))
    case Sequence(current, next) => Decided(current) && Decided(next) && Apart(More(current), First(next))
    case Either(eithers) =>
      && (forall i :: 0 <= i < |eithers| ==> Decided(eithers[i]))
      && (forall i, j :: 0 <= i < j < |eithers| ==>
            !Nullable(eithers[i]) && Apart(First(eithers[i]), First(eithers[j])))
    case _ => true
  }

  lemma TakesConcat(ts: seq<Grammar>, us: seq<Grammar>, w: Word)
    ensures Takes(ts + us, w) <==> Takes(ts, w) || Takes(us, w)
  {
    var all := ts + us;
    if Takes(ts, w) {
      var i :| 0 <= i < |ts| && Accepts(ts[i], w);
      assert all[i] == ts[i];
    }
    if Takes(us, w) {
      var i :| 0 <= i < |us| && Accepts(us[i], w);
      assert all[|ts| + i] == us[i];
    }
  }

  lemma {:induction false} FirstOfTakes(gs: seq<Grammar>, i: nat, w: Word)
    requires i < |gs| && Takes(First(gs[i]), w)
    ensures Takes(FirstOf(gs), w)
  {
    TakesConcat(First(gs[0]), FirstOf(gs[1..]), w);
    if i > 0 {
      FirstOfTakes(gs[1..], i - 1, w);
    }
  }

  lemma {:induction false} MoreOfTakes(gs: seq<Grammar>, i: nat, w: Word)
    requires i < |gs| && Takes(More(gs[i]), w)
    ensures Takes(MoreOf(gs), w)
  {
    TakesConcat(More(gs[0]), MoreOf(gs[1..]), w);
    if i > 0 {
      MoreOfTakes(gs[1..], i - 1, w);
    }
  }

  lemma ApartWord(ts: seq<Grammar>, us: seq<Grammar>, w: Word)
    requires Apart(ts, us) && Takes(us, w)
    ensures !Takes(ts, w)
  {
    if Takes(ts, w) {
      var i :| 0 <= i < |ts| && Accepts(ts[i], w);
      var j :| 0 <= j < |us| && Accepts(us[j], w);
      ClashMeans(ts[i], us[j]);
    }
  }

  /** Only a grammar that needs no word derives nothing. */
  lemma {:induction false} EmptyNullable(g: Grammar)
    requires Derives(g, [])
    ensures Nullable(g)
    decreases g
  {
    match g
    case Sequence(current, next) =>
      var k :| 0 <= k <= 0 && Derives(current, [][..k]) && Derives(next, [][k..]);
      EmptyNullable(current);
      EmptyNullable(next);
    case Either(eithers) =>
      var i :| 0 <= i < |eithers| && Derives(eithers[i], []);
      EmptyNullable(eithers[i]);
    case _ =>
  }

  /** The first word of what a grammar derives is one that it can start with. */
  lemma {:induction false} FirstWord(g: Grammar, ws: seq<Word>)
    requires Derives(g, ws) && ws != []
    ensures Takes(First(g), ws[0])
    decreases |ws|, g
  {
    match g
    case Optional(sub) => FirstWord(sub, ws);
    case Repeat(sub) =>
      var k :| 0 < k <= |ws| && Derives(sub, ws[..k]) && Derives(g, ws[k..]);
      FirstWord(sub, ws[..k]);
    case Sequence(current, next) =>
      var k :| 0 <= k <= |ws| && Derives(current, ws[..k]) && Derives(next, ws[k..]);
      SequenceFirst(g, ws, k);
    case Either(eithers) =>
      var i :| 0 <= i < |eithers| && Derives(eithers[i], ws);
      FirstWord(eithers[i], ws);
      FirstOfTakes(eithers, i, ws[0]);
    case _ =>
      assert First(g)[0] == g;
  }

  lemma {:induction false} SequenceFirst(g: Grammar, ws: seq<Word>, k: nat)
    requires g.Sequence? && ws != [] && k <= |ws| && Derives(g.current, ws[..k]) && Derives(g.next, ws[k..])
    ensures Takes(First(g), ws[0])
    decreases |ws|, g, 0
  {
    if k > 0 {
      FirstWord(g.current, ws[..k]);
    } else {
      assert ws[..0] == [] && ws[0..] == ws;
      EmptyNullable(g.current);
      FirstWord(g.next, ws);
    }
    TakesConcat(First(g.current), if Nullable(g.current) then First(g.next) else [], ws[0]);
  }

  /** There is no word at i, or one that the terminals do not take. */
  ghost predicate Refused(ts: seq<Grammar>, words: seq<Word>, i: nat) {
    i < |words| ==> !Takes(ts, words[i])
  }

  lemma RefusedConcat(ts: seq<Grammar>, us: seq<Grammar>, words: seq<Word>, i: nat)
    ensures Refused(ts + us, words, i) <==> Refused(ts, words, i) && Refused(us, words, i)
  {
    if i < |words| {
      TakesConcat(ts, us, words[i]);
    }
  }

  /** At a word that it cannot start with a grammar takes nothing, and succeeds exactly when it needs no word. */
  lemma {:induction false} RefusedMatch(g: Grammar, words: seq<Word>, i: nat)
    requires Grounded(g) && i <= |words| && Refused(First(g), words, i)
    ensures Match(g, words, i).0 <==> Nullable(g)
    ensures Match(g, words, i).0 ==> Match(g, words, i).1 == i
    decreases g, if g.Either? then |g.eithers| + 1 else 0
  {
    match g
    case Optional(sub) => RefusedMatch(sub, words, i);
    case Repeat(sub) => RefusedMatch(sub, words, i);
    case Sequence(current, next) =>
      RefusedConcat(First(current), if Nullable(current) then First(next) else [], words, i);
      RefusedMatch(current, words, i);
      if Nullable(current) {
        RefusedMatch(next, words, i);
      }
    case Either(eithers) => RefusedFirst(g, words, i, 0, i);
    case _ =>
      assert First(g)[0] == g;
  }

  lemma {:induction false} RefusedFirst(g: Grammar, words: seq<Word>, i: nat, k: nat, at: nat)
    requires g.Either? && Grounded(g) && i <= |words| && k <= |g.eithers| && at <= |words| &&
             Refused(First(g), words, i)
    ensures MatchFirst(g, words, i, k, at).0 <==> exists j :: k <= j < |g.eithers| && Nullable(g.eithers[j])
    ensures MatchFirst(g, words, i, k, at).0 ==> MatchFirst(g, words, i, k, at).1 == i
    decreases g, |g.eithers| - k
  {
    if k < |g.eithers| {
      AlternativeRefused(g, words, i, k);
      RefusedMatch(g.eithers[k], words, i);
      RefusedFirst(g, words, i, k + 1, Match(g.eithers[k], words, i).1);
    }
  }

  lemma AlternativeRefused(g: Grammar, words: seq<Word>, i: nat, k: nat)
    requires g.Either? && k < |g.eithers| && Refused(First(g), words, i)
    ensures Refused(First(g.eithers[k]), words, i)
  {
    if i < |words| && Takes(First(g.eithers[k]), words[i]) {
      FirstOfTakes(g.eithers, k, words[i]);
    }
  }

  /** The words from i to j, followed by one that the grammar cannot take any more, are matched whole. */
  lemma {:induction false} DerivedMatches(g: Grammar, words: seq<Word>, i: nat, j: nat)
    requires Grounded(g) && Decided(g) && i <= j <= |words| && Derives(g, words[i..j]) && Refused(More(g), words, j)
    ensures Match(g, words, i) == (true, j)
    decreases j - i, g, if g.Either? then |g.eithers| + 1 else 1
  {
    hide Match;
    MoreRefused(g, words, j);
    match g
    case Optional(sub) => OptionalMatches(g, words, i, j);
    case Repeat(sub) => RepeatMatches(g, words, i, j);
    case Sequence(current, next) => SequenceMatches(g, words, i, j);
    case Either(eithers) =>
      var k :| 0 <= k < |eithers| && Derives(eithers[k], words[i..j]);
      EitherMatches(g, words, i, j, k, 0, i);
      EitherIs(g, words, i);
    case _ => TerminalMatches(g, words, i, j);
  }

  lemma EitherIs(g: Grammar, words: seq<Word>, i: nat)
    requires g.Either? && Grounded(g) && i <= |words|
    ensures Match(g, words, i) == MatchFirst(g, words, i, 0, i)
  {
  }

  lemma TerminalMatches(g: Grammar, words: seq<Word>, i: nat, j: nat)
    requires IsTerminal(g)
    requires i <= j <= |words| && Derives(g, words[i..j])
    ensures Match(g, words, i) == (true, j)
  {
  }

  lemma MoreRefused(g: Grammar, words: seq<Word>, j: nat)
    requires Refused(More(g), words, j)
    ensures Nullable(g) ==> Refused(First(g), words, j)
    ensures g.Optional? || g.Repeat? ==> Refused(More(g.sub), words, j) && Refused(First(g.sub), words, j)
    ensures g.Sequence? ==> Refused(More(g.next), words, j) && (Nullable(g.next) ==> Refused(More(g.current), words, j))
    ensures g.Either? ==> Refused(MoreOf(g.eithers), words, j)
  {
    hide Takes;
    var first := if Nullable(g) then First(g) else [];
    match g
    case Optional(sub) => RefusedConcat(first, More(sub), words, j);
    case Repeat(sub) =>
      RefusedConcat(first, First(sub) + More(sub), words, j);
      RefusedConcat(First(sub), More(sub), words, j);
    case Sequence(current, next) =>
      var more := if Nullable(next) then More(current) else [];
      RefusedConcat(first, More(next) + more, words, j);
      RefusedConcat(More(next), more, words, j);
    case Either(eithers) => RefusedConcat(first, MoreOf(eithers), words, j);
    case _ => RefusedConcat(first, [], words, j);
  }

  lemma {:induction false} OptionalMatches(g: Grammar, words: seq<Word>, i: nat, j: nat)
    requires g.Optional? && Grounded(g) && Decided(g) && i <= j <= |words| && Derives(g, words[i..j])
    requires Refused(More(g.sub), words, j) && Refused(First(g.sub), words, j)
    ensures Match(g, words, i) == (true, j)
    decreases j - i, g, 0
  {
    if i == j {
      RefusedMatch(g.sub, words, i);
    } else {
      DerivedMatches(g.sub, words, i, j);
    }
  }

  /** After something complete comes what follows it, or nothing of it. */
  lemma NextRefused(more: seq<Grammar>, next: Grammar, words: seq<Word>, j: nat, end: nat)
    requires j < end <= |words| && Derives(next, words[j..end]) && Apart(more, First(next))
    ensures Refused(more, words, j)
  {
    FirstWord(next, words[j..end]);
    ApartWord(more, First(next), words[j]);
  }

  lemma RepeatIs(g: Grammar, words: seq<Word>, i: nat)
    requires g.Repeat? && Grounded(g) && i <= |words|
    ensures i == |words| || !Match(g.sub, words, i).0 ==> Match(g, words, i) == (true, i)
    ensures i < |words| && Match(g.sub, words, i).0 ==> Match(g, words, i) == Match(g, words, Match(g.sub, words, i).1)
  {
  }

  /** A repetition of at least one word starts with one round. */
  lemma RepeatRound(g: Grammar, words: seq<Word>, i: nat, j: nat) returns (m: nat)
    requires g.Repeat? && i < j <= |words| && Derives(g, words[i..j])
    ensures i < m <= j && Derives(g.sub, words[i..m]) && Derives(g, words[m..j])
  {
    var ws := words[i..j];
    var k :| 0 < k <= |ws| && Derives(g.sub, ws[..k]) && Derives(g, ws[k..]);
    m := i + k;
    Slice(words, i, m, j);
  }

  lemma {:induction false} RepeatMatches(g: Grammar, words: seq<Word>, i: nat, j: nat)
    requires g.Repeat? && Grounded(g) && Decided(g) && i <= j <= |words| && Derives(g, words[i..j])
    requires Refused(More(g), words, j) && Refused(More(g.sub), words, j) && Refused(First(g.sub), words, j)
    ensures Match(g, words, i) == (true, j)
    decreases j - i, g, 0
  {
    hide Takes, Apart, Match, Derives;
    RepeatIs(g, words, i);
    if i == j {
      if i < |words| {
        RefusedMatch(g.sub, words, i);
      }
    } else {
      var m := RepeatRound(g, words, i, j);
      if m < j {
        NextRefused(More(g.sub), g, words, m, j);
      }
      DerivedMatches(g.sub, words, i, m);
      DerivedMatches(g, words, m, j);
    }
  }

  lemma {:induction false} SequenceMatches(g: Grammar, words: seq<Word>, i: nat, j: nat)
    requires g.Sequence? && Grounded(g) && Decided(g) && i <= j <= |words| && Derives(g, words[i..j])
    requires Refused(More(g.next), words, j) && (Nullable(g.next) ==> Refused(More(g.current), words, j))
    ensures Match(g, words, i) == (true, j)
    decreases j - i, g, 0
  {
    hide Takes, Apart;
    var ws := words[i..j];
    var k :| 0 <= k <= |ws| && Derives(g.current, ws[..k]) && Derives(g.next, ws[k..]);
    var m := i + k;
    Slice(words, i, m, j);
    if m < j {
      NextRefused(More(g.current), g.next, words, m, j);
    } else {
      assert words[m..j] == [];
      EmptyNullable(g.next);
    }
    DerivedMatches(g.current, words, i, m);
    DerivedMatches(g.next, words, m, j);
  }

  /** The alternatives before the k-th fail, and the k-th matches. */
  lemma {:induction false} EitherMatches(g: Grammar, words: seq<Word>, i: nat, j: nat, k: nat, m: nat, at: nat)
    requires g.Either? && Grounded(g) && Decided(g) && i <= j <= |words| && m <= k < |g.eithers| && at <= |words|
    requires Derives(g.eithers[k], words[i..j]) && Refused(MoreOf(g.eithers), words, j)
    requires Nullable(g) ==> Refused(First(g), words, j)
    ensures MatchFirst(g, words, i, m, at) == (true, j)
    decreases j - i, g, |g.eithers| - m
  {
    hide Match;
    if m == k {
      if j < |words| && Takes(More(g.eithers[k]), words[j]) {
        MoreOfTakes(g.eithers, k, words[j]);
      }
      DerivedMatches(g.eithers[k], words, i, j);
    } else {
      EarlierRefused(g, words, i, j, k, m);
      RefusedMatch(g.eithers[m], words, i);
      EitherMatches(g, words, i, j, k, m + 1, Match(g.eithers[m], words, i).1);
    }
  }

  lemma EarlierRefused(g: Grammar, words: seq<Word>, i: nat, j: nat, k: nat, m: nat)
    requires g.Either? && Decided(g) && i <= j <= |words| && m < k < |g.eithers| && Derives(g.eithers[k], words[i..j])
    requires Nullable(g) ==> Refused(First(g), words, j)
    ensures !Nullable(g.eithers[m]) && Refused(First(g.eithers[m]), words, i)
  {
    if i < j {
      NextRefused(First(g.eithers[m]), g.eithers[k], words, i, j);
    } else {
      assert words[i..j] == [];
      EmptyNullable(g.eithers[k]);
      AlternativeRefused(g, words, i, m);
    }
  }

  /** Where one word ahead decides, the match accepts exactly the lines of the language. */
  lemma MatchIsDerives(g: Grammar, ws: seq<Word>)
    requires Grounded(g) && Decided(g)
    ensures Match(g, ws, 0) == (true, |ws|) <==> Derives(g, ws)
  {
    hide Match, Derives;
    assert ws[0..|ws|] == ws;
    MatchDerives(g, ws, 0);
    if Derives(g, ws) {
      DerivedMatches(g, ws, 0, |ws|);
    }
  }

  /** The match accepts every line of the language. */
  ghost predicate Complete(g: Grammar)
    requires Grounded(g)
  {
    forall ws: seq<Word> :: Derives(g, ws) ==> Match(g, ws, 0) == (true, |ws|)
  }

  lemma TerminalShape(g: Grammar)
    requires IsTerminal(g)
    ensures Grounded(g) && Decided(g) && !Nullable(g) && First(g) == [g] && More(g) == []
  {
  }

  /** The match is greedy: an optional word before a word of its own kind is taken, and the line is missed. */
  lemma GreedyMisses(a: Grammar, b: Grammar)
    requires IsTerminal(a) && IsTerminal(b)
    ensures var g := Sequence(Optional(a), b); Grounded(g) && (Complete(g) <==> !Clash(a, b))
  {
    var g := Sequence(Optional(a), b);
    TerminalShape(a);
    TerminalShape(b);
    if Clash(a, b) {
      ClashMeans(a, b);
      var ws := [Common(a, b)];
      assert ws[..0] == [] && ws[0..] == ws;
      assert Derives(Optional(a), ws[..0]) && Derives(b, ws[0..]);
      assert Match(a, ws, 0) == (true, 1) && Match(Optional(a), ws, 0) == (true, 1) && !Match(b, ws, 1).0;
      assert Derives(g, ws) && !Match(g, ws, 0).0;
    } else {
      assert More(Optional(a)) == [a];
      assert Decided(g);
      forall ws: seq<Word> | Derives(g, ws)
        ensures Match(g, ws, 0) == (true, |ws|)
      {
        MatchIsDerives(g, ws);
      }
    }
  }

  /** In the same way a repeated word before a word of its own kind. */
  lemma GreedyRepeats(a: Grammar, b: Grammar)
    requires IsTerminal(a) && IsTerminal(b)
    ensures var g := Sequence(Repeat(a), b); Grounded(g) && (Complete(g) <==> !Clash(a, b))
  {
    var g := Sequence(Repeat(a), b);
    TerminalShape(a);
    TerminalShape(b);
    if Clash(a, b) {
      ClashMeans(a, b);
      var ws := [Common(a, b)];
      assert ws[..0] == [] && ws[0..] == ws;
      assert Derives(Repeat(a), ws[..0]) && Derives(b, ws[0..]);
      assert Match(Repeat(a), ws, 0) == (true, 1);
      assert Derives(g, ws) && !Match(g, ws, 0).0;
    } else {
      assert More(Repeat(a)) == [a, a];
      assert Decided(g);
      forall ws: seq<Word> | Derives(g, ws)
        ensures Match(g, ws, 0) == (true, |ws|)
      {
        MatchIsDerives(g, ws);
      }
    }
  }

  // ----- Exactly when a repetition ends

  /** No terminal of the grammar accepts the word. */
  predicate Foreign(g: Grammar, w: Word) {
    match g
    case Optional(sub) => Foreign(sub, w)
    case Repeat(sub) => Foreign(sub, w)
    case Sequence(current, next) => Foreign(current, w) && Foreign(next, w)
    case Either(eithers) => forall i :: 0 <= i < |eithers| ==> Foreign(eithers[i], w)
    case _ => !Accepts(g, w)
  }

  /** A grammar takes nothing from a foreign word, and succeeds on it exactly when it needs no word. */
  lemma {:induction false} ForeignStalls(g: Grammar, w: Word)
    requires Grounded(g) && Foreign(g, w)
    ensures Match(g, [w], 0) == (Nullable(g), 0)
    decreases g, if g.Either? then |g.eithers| + 1 else 0
  {
    match g
    case Optional(sub) => ForeignStalls(sub, w);
    case Repeat(sub) => ForeignStalls(sub, w);
    case Sequence(current, next) =>
      ForeignStalls(current, w);
      ForeignStalls(next, w);
    case Either(eithers) => FirstStalls(g, w, 0);
    case _ =>
  }

  lemma {:induction false} FirstStalls(g: Grammar, w: Word, k: nat)
    requires g.Either? && Grounded(g) && Foreign(g, w) && k <= |g.eithers|
    ensures MatchFirst(g, [w], 0, k, 0) == (exists i :: k <= i < |g.eithers| && Nullable(g.eithers[i]), 0)
    decreases g, |g.eithers| - k
  {
    if k < |g.eithers| {
      ForeignStalls(g.eithers[k], w);
      FirstStalls(g, w, k + 1);
    }
  }

  /** The longest text of a grammar. */
  function Longest(g: Grammar): nat {
    match g
    case Optional(sub) => Longest(sub)
    case Repeat(sub) => Longest(sub)
    case Sequence(current, next) => Longest(current) + Longest(next)
    case Either(eithers) => LongestOf(eithers)
    case Text(exactText, _) => |exactText|
    case Flag(flagText) => |flagText|
    case WholeNumber => 0
  }

  function LongestOf(gs: seq<Grammar>): nat {
    if gs == [] then 0 else Longest(gs[0]) + LongestOf(gs[1..])
  }

  lemma {:induction false} LongestOfCovers(gs: seq<Grammar>, i: nat)
    requires i < |gs|
    ensures Longest(gs[i]) <= LongestOf(gs)
  {
    if i > 0 {
      LongestOfCovers(gs[1..], i - 1);
    }
  }

  /** A flag longer than every text is foreign. */
  lemma {:induction false} LongFlagForeign(g: Grammar, w: Word)
    requires |w.s| > Longest(g) && w.s[0] == '-' && !w.quoted
    ensures Foreign(g, w)
    decreases g
  {
    match g
    case Optional(sub) => LongFlagForeign(sub, w);
    case Repeat(sub) => LongFlagForeign(sub, w);
    case Sequence(current, next) =>
      LongFlagForeign(current, w);
      LongFlagForeign(next, w);
    case Either(eithers) =>
      forall i | 0 <= i < |eithers|
        ensures Foreign(eithers[i], w)
      {
        LongestOfCovers(eithers, i);
        LongFlagForeign(eithers[i], w);
      }
    case _ =>
  }

  /** Some line makes the grammar succeed at a word without taking it. */
  ghost predicate Stalls(g: Grammar)
    requires Grounded(g)
  {
    exists words: seq<Word>, i: nat :: i < |words| && Match(g, words, i) == (true, i)
  }

  /** A repetition goes round forever on some line exactly when its body can match without a word. */
  lemma StallsIff(g: Grammar)
    requires Grounded(g)
    ensures Stalls(g) <==> Nullable(g)
  {
    if Nullable(g) {
      var w := Word(seq(Longest(g) + 1, _ => '-'), false);
      LongFlagForeign(g, w);
      ForeignStalls(g, w);
      assert Match(g, [w], 0) == (true, 0);
    }
  }

  // ----- The matcher itself

  class ACState {
    const words: seq<Word>
    var i: nat

    constructor (words: seq<Word>)
      ensures this.words == words && i == 0
    {
      this.words, i := words, 0;
    }

    method MatchHere(g: Grammar) returns (ok: bool)
      requires Grounded(g) && i <= |words|
      modifies this
      ensures (ok, i) == Match(g, words, old(i))
      decreases |words| - i, g, 1
    {
      match g {
        case Optional(sub) =>
          var start := i;
          ok := MatchHere(sub);
          if !ok {
            i := start;
          }
          return true;
        case Repeat(sub) =>
          MatchRepeat(g);
          return true;
        case Sequence(current, next) =>
          ok := MatchHere(current);
          if ok {
            ok := MatchHere(next);
          }
        case Either(_) =>
          ok := MatchEither(g);
        case _ =>
          ok := i < |words| && Accepts(g, words[i]);
          if ok {
            i := i + 1;
          }
      }
    }

    method MatchesWhole(g: Grammar) returns (ok: bool)
      requires Grounded(g)
      modifies this
      ensures ok == Whole(g, words)
    {
      i := 0;
      ok := MatchHere(g);
      ok := ok && i == |words|;
    }

    method MatchesBegin(g: Grammar) returns (ok: bool)
      requires Grounded(g)
      modifies this
      ensures ok == Begins(g, words)
    {
      i := 0;
      ok := false;
      if g.Sequence? {
        ok := MatchHere(g.current);
      }
    }

    method MatchRepeat(g: Grammar)
      requires g.Repeat? && Grounded(g) && i <= |words|
      modifies this
      ensures (true, i) == Match(g, words, old(i))
      decreases |words| - i, g, 0
    {
      while i < |words|
        invariant old(i) <= i <= |words| && Match(g, words, i) == Match(g, words, old(i))
        decreases |words| - i
      {
        var start := i;
        var ok := MatchHere(g.sub);
        if !ok {
          i := start;
          return;
        }
      }
    }

    method MatchEither(g: Grammar) returns (ok: bool)
      requires g.Either? && Grounded(g) && i <= |words|
      modifies this
      ensures (ok, i) == MatchFirst(g, words, old(i), 0, old(i))
      decreases |words| - i, g, 0
    {
      var start := i;
      for k := 0 to |g.eithers|
        invariant i <= |words| && MatchFirst(g, words, start, k, i) == MatchFirst(g, words, start, 0, start)
      {
        i := start;
        ok := MatchHere(g.eithers[k]);
        if ok {
          return;
        }
      }
      ok := false;
    }
  }

  // ----- Running a command

  /** An alternative and the function it runs, if it has one. */
  datatype Command = Command(syntax: Grammar, exec: Option<nat>)

  /** What becomes of a command line. */
  datatype Outcome =
    | Nothing
    | NoMatch
    | InvalidSyntax(firstWordMatches: seq<nat>)
    | Executed(f: nat)
    | NotImplemented
    | Ambiguous(matches: seq<nat>)

  predicate Blank(w: Word) {
    w.s == "" && !w.quoted
  }

  /** The words without the blank ones at the end. */
  function Trimmed(words: seq<Word>): (r: seq<Word>)
    ensures r <= words && (r != [] ==> !Blank(r[|r| - 1])) && forall i :: |r| <= i < |words| ==> Blank(words[i])
  {
    if words != [] && Blank(words[|words| - 1]) then Trimmed(words[..|words| - 1]) else words
  }

  predicate AllGrounded(commands: seq<Command>) {
    forall k :: 0 <= k < |commands| ==> Grounded(commands[k].syntax)
  }

  /** The alternative matches the whole line. */
  predicate Whole(g: Grammar, words: seq<Word>)
    requires Grounded(g)
  {
    Match(g, words, 0) == (true, |words|)
  }

  /** The first part of the alternative matches. */
  predicate Begins(g: Grammar, words: seq<Word>)
    requires Grounded(g)
  {
    g.Sequence? && Match(g.current, words, 0).0
  }

  /** The alternatives among the first n that match the whole line. */
  function WholeMatches(commands: seq<Command>, words: seq<Word>, n: nat): (r: seq<nat>)
    requires AllGrounded(commands) && n <= |commands|
    ensures forall i :: 0 <= i < |r| ==> r[i] < n && Whole(commands[r[i]].syntax, words)
    ensures forall k :: 0 <= k < n && Whole(commands[k].syntax, words) ==> k in r
    ensures forall i, j :: 0 <= i < j < |r| ==> r[i] < r[j]
  {
    if n == 0 then []
    else
      var init := WholeMatches(commands, words, n - 1);
      if Whole(commands[n - 1].syntax, words) then init + [n - 1] else init
  }

  function FirstMatches(commands: seq<Command>, words: seq<Word>, n: nat): (r: seq<nat>)
    requires AllGrounded(commands) && n <= |commands|
    ensures forall k :: k in r <==> 0 <= k < n && Begins(commands[k].syntax, words)
  {
    if n == 0 then []
    else
      var init := FirstMatches(commands, words, n - 1);
      if Begins(commands[n - 1].syntax, words) then init + [n - 1] else init
  }

  lemma MatchesStep(commands: seq<Command>, words: seq<Word>, k: nat)
    requires AllGrounded(commands) && k < |commands|
    ensures WholeMatches(commands, words, k + 1)
         == WholeMatches(commands, words, k) + (if Whole(commands[k].syntax, words) then [k] else [])
    ensures FirstMatches(commands, words, k + 1)
         == FirstMatches(commands, words, k) + (if Begins(commands[k].syntax, words) then [k] else [])
  {
    hide Whole, Begins;
  }

  lemma NoMatches(commands: seq<Command>, words: seq<Word>)
    requires AllGrounded(commands)
    ensures WholeMatches(commands, words, 0) == [] && FirstMatches(commands, words, 0) == []
  {
  }

  /** Tries every alternative on the whole line, and its first part on the beginning. */
  method Collect(commands: seq<Command>, words: seq<Word>) returns (v: seq<nat>, first: seq<nat>, f: Option<nat>)
    requires AllGrounded(commands)
    ensures v == WholeMatches(commands, words, |commands|) && first == FirstMatches(commands, words, |commands|)
    ensures |v| > 0 ==> f == commands[v[|v| - 1]].exec
  {
    hide Match, Grounded, Whole, Begins, WholeMatches, FirstMatches;
    NoMatches(commands, words);
    var acs := new ACState(words);
    v, first, f := [], [], None;
    for k := 0 to |commands|
      invariant v == WholeMatches(commands, words, k) && first == FirstMatches(commands, words, k)
      invariant |v| > 0 ==> f == commands[v[|v| - 1]].exec
    {
      MatchesStep(commands, words, k);
      var whole := acs.MatchesWhole(commands[k].syntax);
      if whole {
        v, f := v + [k], commands[k].exec;
      }
      var begins := acs.MatchesBegin(commands[k].syntax);
      if begins {
        first := first + [k];
      }
    }
  }

  /** What is done with the alternatives that match. */
  function Verdict(commands: seq<Command>, matches: seq<nat>, first: seq<nat>, reportNoMatch: bool): Outcome
    requires forall i :: 0 <= i < |matches| ==> matches[i] < |commands|
  {
    if matches == [] then (if reportNoMatch then InvalidSyntax(first) else NoMatch)
    else if |matches| > 1 then Ambiguous(matches)
    else
      match commands[matches[0]].exec
      case Some(f) => Executed(f)
      case None => if reportNoMatch then NotImplemented else NoMatch
  }

  method AutoExec(commands: seq<Command>, line: seq<Word>, reportNoMatch: bool) returns (r: Outcome)
    requires AllGrounded(commands)
    ensures var words := Trimmed(line);
            r == if words == [] then Nothing
                 else Verdict(commands, WholeMatches(commands, words, |commands|),
                              FirstMatches(commands, words, |commands|), reportNoMatch)
  {
    hide WholeMatches, FirstMatches;
    var words := line;
    while words != [] && Blank(words[|words| - 1])
      invariant Trimmed(words) == Trimmed(line)
    {
      words := words[..|words| - 1];
    }
    if words == [] {
      return Nothing;
    }
    var v, first, f := Collect(commands, words);
    if v == [] {
      r := if reportNoMatch then InvalidSyntax(first) else NoMatch;
    } else if |v| == 1 {
      r := match f case Some(x) => Executed(x) case None => if reportNoMatch then NotImplemented else NoMatch;
    } else {
      r := Ambiguous(v);
    }
  }

  /** A function runs only when exactly one alternative matches the whole line; it is that one's, and the line is in
      its language. */
  lemma ExecutedMeans(commands: seq<Command>, words: seq<Word>, first: seq<nat>, reportNoMatch: bool, f: nat)
      returns (k: nat)
    requires AllGrounded(commands)
    requires Verdict(commands, WholeMatches(commands, words, |commands|), first, reportNoMatch) == Executed(f)
    ensures k < |commands| && commands[k].exec == Some(f) && Derives(commands[k].syntax, words)
    ensures forall j :: 0 <= j < |commands| ==> (Whole(commands[j].syntax, words) <==> j == k)
  {
    hide Match, WholeMatches, Derives;
    var matches := WholeMatches(commands, words, |commands|);
    k := matches[0];
    MatchDerives(commands[k].syntax, words, 0);
    assert words[0..|words|] == words;
    forall j | 0 <= j < |commands| && Whole(commands[j].syntax, words)
      ensures j == k
    {
      assert j in matches;
    }
  }

  predicate AllDecided(commands: seq<Command>) {
    forall k :: 0 <= k < |commands| ==> Decided(commands[k].syntax)
  }

  /** The line is in the language of this alternative and of no other. */
  ghost predicate OnlyIn(commands: seq<Command>, words: seq<Word>, k: nat) {
    && k < |commands|
    && Derives(commands[k].syntax, words)
    && forall j :: 0 <= j < |commands| && j != k ==> !Derives(commands[j].syntax, words)
  }

  lemma WholeIsDerives(commands: seq<Command>, words: seq<Word>)
    requires AllGrounded(commands) && AllDecided(commands)
    ensures forall j :: 0 <= j < |commands| ==>
              (Whole(commands[j].syntax, words) <==> Derives(commands[j].syntax, words))
  {
    hide Match, Derives, Grounded, Decided;
    forall j | 0 <= j < |commands|
      ensures Whole(commands[j].syntax, words) <==> Derives(commands[j].syntax, words)
    {
      MatchIsDerives(commands[j].syntax, words);
    }
  }

  lemma OneLeft(s: seq<nat>, k: nat)
    requires k in s && (forall i :: 0 <= i < |s| ==> s[i] == k) && forall i, j :: 0 <= i < j < |s| ==> s[i] < s[j]
    ensures s == [k]
  {
    var a, b := s[0], s[|s| - 1];
    assert a == k && b == k;
  }

  /** Where one word ahead decides every alternative, a function runs exactly when the line is in the language of its
      alternative and of no other. */
  lemma ExecutedIff(commands: seq<Command>, words: seq<Word>, first: seq<nat>, reportNoMatch: bool, f: nat)
    requires AllGrounded(commands) && AllDecided(commands)
    ensures Verdict(commands, WholeMatches(commands, words, |commands|), first, reportNoMatch) == Executed(f)
       <==> exists k: nat :: OnlyIn(commands, words, k) && commands[k].exec == Some(f)
  {
    hide Whole, WholeMatches, Derives, Grounded, Decided;
    WholeIsDerives(commands, words);
    var matches := WholeMatches(commands, words, |commands|);
    if Verdict(commands, matches, first, reportNoMatch) == Executed(f) {
      var k := ExecutedMeans(commands, words, first, reportNoMatch, f);
      assert OnlyIn(commands, words, k);
    }
    forall k: nat | OnlyIn(commands, words, k) && commands[k].exec == Some(f)
      ensures Verdict(commands, matches, first, reportNoMatch) == Executed(f)
    {
      assert k in matches;
      OneLeft(matches, k);
    }
  }

  /** A parameter takes every word but the empty one and those that look like a flag; quotes make a word no flag. */
  lemma ParameterTakes(name: string, s: string)
    ensures Accepts(Text(name, true), Word(s, true)) <==> s != ""
    ensures Accepts(Text(name, true), Word(s, false)) <==> s != "" && !("-" <= s)
    ensures forall f: string :: "-" <= f && Accepts(Flag(f), Word(s, false)) ==>
              !Accepts(Text(name, true), Word(s, false))
  {
    assert "-" <= s <==> s != "" && s[0] == '-';
  }
}
