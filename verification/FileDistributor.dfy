/** Handing a downloaded file out to its targets, on a file system whose primitives may fail. */
module FileDistributors {
  import opened Machine
  import opened Decimals

  type Path = string

  /** A folder stands for itself and all it holds. */
  datatype Node = File(data: seq<byte>) | Folder

  type Files = map<Path, Node>

  datatype Resolution =
    | OverwriteTarget
    | RenameWithBracketedNumber
    | MoveReplacedFileToSyncDebris
    | RenameExistingToOldN

  // ----- Paths

  function LastOf(p: Path, c: char): (r: int)
    ensures -1 <= r < |p| && (r >= 0 ==> p[r] == c)
    ensures forall i :: r < i < |p| ==> p[i] != c
  {
    if p == [] then -1
    else if p[|p| - 1] == c then |p| - 1
    else LastOf(p[..|p| - 1], c)
  }

  /** Where a suffix goes: before the extension of the last component, or at the end. */
  function StemEnd(p: Path): (r: nat)
    ensures r <= |p|
  {
    var dot, sep := LastOf(p, '.'), LastOf(p, '/');
    if dot < 0 || sep > dot then |p| else dot
  }

  function InsertSuffix(p: Path, suffix: string): Path {
    p[..StemEnd(p)] + suffix + p[StemEnd(p)..]
  }

  lemma InsertSuffixInjective(p: Path, a: string, b: string)
    requires InsertSuffix(p, a) == InsertSuffix(p, b)
    ensures a == b
  {
    var k := StemEnd(p);
    var x, y := InsertSuffix(p, a), InsertSuffix(p, b);
    assert x[k..|x| - (|p| - k)] == a;
    assert y[k..|y| - (|p| - k)] == b;
  }

  function Numbered(kind: Resolution, n: nat): string {
    if kind == RenameWithBracketedNumber then " (" + Show(n) + ")" else ".old" + Show(n)
  }

  /** The n-th name tried in place of p. */
  function Candidate(p: Path, kind: Resolution, n: nat): Path {
    InsertSuffix(p, Numbered(kind, n))
  }

  lemma CandidatesDiffer(p: Path, kind: Resolution, m: nat, n: nat)
    requires Candidate(p, kind, m) == Candidate(p, kind, n)
    ensures m == n
  {
    var a, b := Numbered(kind, m), Numbered(kind, n);
    InsertSuffixInjective(p, a, b);
    if kind == RenameWithBracketedNumber {
      assert a[2..|a| - 1] == Show(m) && b[2..|b| - 1] == Show(n);
    } else {
      assert a[4..] == Show(m) && b[4..] == Show(n);
    }
    ShowInjective(m, n);
  }

  lemma CandidateIsOther(p: Path, kind: Resolution, n: nat)
    ensures Candidate(p, kind, n) != p
  {
    assert |Candidate(p, kind, n)| > |p|;
  }

  // ----- What a numbered name is, character by character

  /** The extension of the last component starts at k, with its only dot; if it has none, k is the end. */
  ghost predicate ExtensionAt(p: Path, k: nat) {
    && k <= |p|
    && (forall i :: k < i < |p| ==> p[i] != '.' && p[i] != '/')
    && (k < |p| ==> p[k] == '.')
    && (k == |p| ==> forall i :: 0 <= i < |p| && p[i] == '.' ==> exists j :: i < j < |p| && p[j] == '/')
  }

  predicate Inserted(p: Path, kind: Resolution, k: nat, digits: string, q: Path) {
    var suffix := if kind == RenameWithBracketedNumber then " (" + digits + ")" else ".old" + digits;
    k <= |p| && q == p[..k] + suffix + p[k..]
  }

  /** q is p with " (n)", or ".oldn", before the extension of its last component. */
  ghost predicate IsNumbered(p: Path, kind: Resolution, n: nat, q: Path) {
    exists k: nat, digits :: Inserted(p, kind, k, digits, q) && ExtensionAt(p, k) && IsNumeral(digits, n)
  }

  lemma StemEndIs(p: Path, k: nat)
    ensures ExtensionAt(p, k) <==> k == StemEnd(p)
  {
    var dot, sep := LastOf(p, '.'), LastOf(p, '/');
    if k == StemEnd(p) && k == |p| && dot >= 0 {
      assert forall i :: 0 <= i < |p| && p[i] == '.' ==> i < sep < |p| && p[sep] == '/';
    }
  }

  /** The names that are tried are exactly these. */
  lemma NumberedIff(p: Path, kind: Resolution, n: nat, q: Path)
    ensures IsNumbered(p, kind, n, q) <==> q == Candidate(p, kind, n)
  {
    hide StemEnd, ExtensionAt, Show, IsNumeral;
    StemEndIs(p, StemEnd(p));
    NumeralIff(Show(n), n);
    assert q == Candidate(p, kind, n) ==> Inserted(p, kind, StemEnd(p), Show(n), q);
    if IsNumbered(p, kind, n, q) {
      var k: nat, digits :| Inserted(p, kind, k, digits, q) && ExtensionAt(p, k) && IsNumeral(digits, n);
      StemEndIs(p, k);
      NumeralIff(digits, n);
    }
  }

  function InFolder(folder: Path, p: Path): Path {
    folder + "/" + p[LastOf(p, '/') + 1..]
  }

  /** The last component of p in another folder. */
  ghost predicate IsInFolder(folder: Path, p: Path, q: Path) {
    exists k :: LeafAt(p, k) && q == folder + "/" + p[k..]
  }

  predicate LeafAt(p: Path, k: int) {
    0 <= k <= |p| && (k == 0 || p[k - 1] == '/') && forall i :: k <= i < |p| ==> p[i] != '/'
  }

  lemma InFolderIs(folder: Path, p: Path)
    ensures IsInFolder(folder, p, InFolder(folder, p))
  {
    assert LeafAt(p, LastOf(p, '/') + 1);
  }

  // ----- The file system

  /** Every entry but those excepted is where it was. */
  ghost predicate Kept(a: Files, b: Files, except: set<Path>) {
    forall p :: p in a && p !in except ==> p in b && b[p] == a[p]
  }

  /** What was at p is still there, or at a path that was free. */
  ghost predicate Aside(a: Files, b: Files, p: Path) {
    p in a ==> exists q :: q in b && b[q] == a[p] && (q == p || q !in a)
  }

  predicate HeldFile(files: Files, p: Path) {
    p in files && files[p].File?
  }

  /** The path shows up as a file or a folder. */
  predicate SeenIn(files: Files, blind: set<Path>, p: Path) {
    p in files && p !in blind
  }

  /** The n-th numbered name is the first that does not show up. */
  ghost predicate FirstUnseen(files: Files, blind: set<Path>, p: Path, kind: Resolution, n: nat) {
    && n >= 1 && !SeenIn(files, blind, Candidate(p, kind, n))
    && forall i :: 1 <= i < n ==> SeenIn(files, blind, Candidate(p, kind, i))
  }

  lemma FirstUnseenUnique(files: Files, blind: set<Path>, p: Path, kind: Resolution, m: nat, n: nat)
    requires FirstUnseen(files, blind, p, kind, m) && FirstUnseen(files, blind, p, kind, n)
    ensures m == n
  {
    hide Candidate, SeenIn;
  }

  /** A call that renames finds what it must not overwrite: the target, or the name it copies to, is not held unseen. */
  ghost predicate Safe(files: Files, blind: set<Path>, target: Path, method_: Resolution) {
    method_ != OverwriteTarget && HeldFile(files, target) ==>
      && target !in blind
      && (method_ == RenameWithBracketedNumber ==>
            forall n :: FirstUnseen(files, blind, target, method_, n) ==>
              !HeldFile(files, Candidate(target, method_, n)))
  }

  /** What a primitive does when nothing in the file system stands against it. */
  datatype Outcome = Works | Fails(exists_: bool) | Partial(data: seq<byte>)

  class FileSystem {
    var files: Files
    var calls: nat
    const outcome: nat -> Outcome
    const blind: set<Path>  // paths that cannot be examined

    constructor (files: Files, outcome: nat -> Outcome, blind: set<Path>)
      ensures this.files == files && this.outcome == outcome && this.blind == blind
    {
      this.files, this.calls, this.outcome, this.blind := files, 0, outcome, blind;
    }

    /** No primitive fails of itself. */
    ghost predicate Reliable() {
      blind == {} && forall k: nat :: outcome(k).Works?
    }

    /** Renames, unlinks and new folders fail, and copies break off with the same data. */
    ghost predicate OnlyPartial(data: seq<byte>) {
      forall k: nat :: outcome(k) == Partial(data)
    }

    predicate Holds(p: Path)
      reads this
    {
      HeldFile(files, p)
    }

    function FileExistsAt(p: Path): bool
      reads this
    {
      p !in blind && p in files && files[p].File?
    }

    function FolderExistsAt(p: Path): bool
      reads this
    {
      p !in blind && p in files && files[p].Folder?
    }

    method Rename(from: Path, to: Path, override: bool) returns (ok: bool, targetExists: bool)
      requires override ==> from != to
      modifies this
      ensures !ok ==> files == old(files)
      ensures ok ==> from in old(files) && from != to && files == (old(files) - {from})[to := old(files)[from]]
      ensures ok && !override ==> to !in old(files)
      ensures ok ==> outcome(old(calls)).Works?
      ensures Reliable() && from in old(files) && from != to && to !in old(files) ==> ok
      ensures Reliable() && override && old(Holds(from)) && old(Holds(to)) ==> ok
    {
      var existingAndCare := !override && to in files;
      ok := !existingAndCare && from in files && from != to && outcome(calls).Works?
            && (to in files ==> files[from].File? && files[to].File?);
      targetExists := existingAndCare || (outcome(calls).Fails? && outcome(calls).exists_);
      calls := calls + 1;
      if ok {
        files := (files - {from})[to := files[from]];
      }
    }

    /** Always overwrites; a failure may leave a part of the copy behind. */
    method Copy(from: Path, to: Path) returns (ok: bool)
      modifies this
      ensures Kept(old(files), files, {to})
      ensures to in old(files) && old(files)[to].Folder? ==> files == old(files) && !ok
      ensures ok ==> from in old(files) && to in files && old(files)[from].File?
      ensures ok && from != to ==> files[to] == old(files)[from]
      ensures from != to && old(Holds(from)) && !(to in old(files) && old(files)[to].Folder?) &&
              outcome(old(calls)).Works? ==>
                ok && files == old(files)[to := old(files)[from]]
      ensures old(Holds(from)) && !(to in old(files) && old(files)[to].Folder?) && outcome(old(calls)).Partial? ==>
                !ok && files == old(files)[to := File(outcome(old(calls)).data)]
    {
      ok := false;
      if from in files && files[from].File? && !(to in files && files[to].Folder?) {
        match outcome(calls) {
          case Works =>
            ok := true;
            files := files[to := if from == to then File([]) else files[from]];
          case Fails(_) =>
          case Partial(data) =>
            files := files[to := File(data)];
        }
      }
      calls := calls + 1;
    }

    method Unlink(p: Path) returns (ok: bool)
      modifies this
      ensures files == if ok then old(files) - {p} else old(files)
      ensures ok ==> outcome(old(calls)).Works?
    {
      ok := p in files && files[p].File? && outcome(calls).Works?;
      calls := calls + 1;
      if ok {
        files := files - {p};
      }
    }

    method MakeFolder(p: Path) returns (ok: bool, targetExists: bool)
      modifies this
      ensures ok ==> p !in old(files) && outcome(old(calls)).Works?
      ensures files == if ok then old(files)[p := Folder] else old(files)
    {
      ok := p !in files && outcome(calls).Works?;
      targetExists := p in files || (outcome(calls).Fails? && outcome(calls).exists_);
      calls := calls + 1;
      if ok {
        files := files[p := Folder];
      }
    }

    method RemoveFolder(p: Path)
      modifies this
      ensures files == old(files) || (p in old(files) && old(files)[p].Folder? && files == old(files) - {p})
    {
      if p in files && files[p].Folder? && outcome(calls).Works? {
        files := files - {p};
      }
      calls := calls + 1;
    }

    /** The first numbered name that does not show up as a file or a folder. */
    method Suffix(p: Path, kind: Resolution) returns (name: Path, ghost n: nat)
      ensures name == Candidate(p, kind, n) && FirstUnseen(files, blind, p, kind, n)
      ensures IsNumbered(p, kind, n, name)
    {
      hide Candidate;
      var num := 1;
      name := Candidate(p, kind, num);
      while FileExistsAt(name) || FolderExistsAt(name)
        invariant num >= 1 && name == Candidate(p, kind, num)
        invariant forall i :: 1 <= i < num ==> SeenIn(files, blind, Candidate(p, kind, i))
        decreases files.Keys - Tried(p, kind, num)
      {
        NotTried(p, kind, num);
        num := num + 1;
        name := Candidate(p, kind, num);
      }
      n := num;
      NumberedIff(p, kind, n, name);
    }
  }

  /** The names tried before the n-th. */
  ghost function Tried(p: Path, kind: Resolution, n: nat): set<Path> {
    if n <= 1 then {} else Tried(p, kind, n - 1) + {Candidate(p, kind, n - 1)}
  }

  lemma NotTried(p: Path, kind: Resolution, n: nat)
    requires n >= 1
    ensures Candidate(p, kind, n) !in Tried(p, kind, n)
    ensures Tried(p, kind, n + 1) == Tried(p, kind, n) + {Candidate(p, kind, n)}
  {
    hide Candidate;
    TriedBefore(p, kind, n, n);
  }

  lemma {:induction false} TriedBefore(p: Path, kind: Resolution, n: nat, m: nat)
    requires 1 <= m <= n
    ensures Candidate(p, kind, n) !in Tried(p, kind, m)
    decreases m
  {
    hide Candidate;
    if m > 1 {
      TriedBefore(p, kind, n, m - 1);
      if Candidate(p, kind, n) == Candidate(p, kind, m - 1) {
        CandidatesDiffer(p, kind, n, m - 1);
      }
    }
  }

  // ----- The debris folder of a sync

  lemma AsideAfter(a: Files, b: Files, c: Files, p: Path)
    requires Kept(a, b, {}) && Kept(b, c, {p}) && Aside(b, c, p)
    ensures Kept(a, c, {p}) && Aside(a, c, p)
  {
    if p in a {
      var q :| q in c && c[q] == b[p] && (q == p || q !in b);
      assert q in c && c[q] == a[p];
    }
  }

  /** A folder that was not there comes and goes. */
  lemma FolderGone(a: Files, b: Files, c: Files, folder: Path, p: Path)
    requires Kept(a, b, {}) && Kept(b, c, {folder}) && folder !in a
    ensures Kept(a, c, {}) && Kept(a, c, {p}) && Aside(a, c, p)
  {
    if p in a {
      assert p in c && c[p] == a[p];
    }
  }

  /** A file at p was there before. */
  ghost predicate NoNewFile(a: Files, b: Files, p: Path) {
    HeldFile(b, p) ==> p in a && a[p] == b[p]
  }

  lemma InPlace(a: Files, b: Files, p: Path)
    requires Kept(a, b, {})
    ensures Kept(a, b, {p}) && Aside(a, b, p)
  {
    if p in a {
      assert p in b && b[p] == a[p];
    }
  }

  /** A rename onto a path that is free. */
  method RenameAside(fs: FileSystem, p: Path, to: Path) returns (ok: bool, targetExists: bool)
    modifies fs
    ensures ok ==> Kept(old(fs.files), fs.files, {p}) && Aside(old(fs.files), fs.files, p) && p !in fs.files
    ensures ok ==> p in old(fs.files) && to in fs.files && fs.files[to] == old(fs.files)[p]
    ensures !ok ==> fs.files == old(fs.files)
    ensures ok ==> fs.outcome(old(fs.calls)).Works?
  {
    ok, targetExists := fs.Rename(p, to, false);
    if ok {
      assert to in fs.files && fs.files[to] == old(fs.files)[p];
    }
  }

  /** One attempt: into `folder`, which is made if need be and removed again if it was made for nothing. */
  method MoveToSubfolder(fs: FileSystem, p: Path, folder: Path) returns (ok: bool, targetExists: bool)
    modifies fs
    ensures Kept(old(fs.files), fs.files, {p}) && Aside(old(fs.files), fs.files, p)
    ensures ok ==> p !in fs.files
    ensures !ok ==> Kept(old(fs.files), fs.files, {}) && NoNewFile(old(fs.files), fs.files, p)
    ensures forall data :: fs.OnlyPartial(data) ==> !ok && fs.files == old(fs.files)
    ensures ok && p in old(fs.files) ==>
              exists to :: IsInFolder(folder, p, to) && to in fs.files && fs.files[to] == old(fs.files)[p]
  {
    hide Aside, InFolder;
    targetExists := false;
    ghost var before := fs.files;
    var created, folderExists := fs.MakeFolder(folder);
    ghost var made := fs.files;
    InPlace(before, made, p);
    if !created && !folderExists {
      return false, false;
    }
    InFolderIs(folder, p);
    ok, targetExists := RenameAside(fs, p, InFolder(folder, p));
    targetExists := !ok && targetExists;
    if ok {
      AsideAfter(before, made, fs.files, p);
    } else if created {
      fs.RemoveFolder(folder);
      FolderGone(before, made, fs.files, folder, p);
    }
  }

  /** The folders a sync has for replaced files: the day's, the last numbered one, and the next. */
  datatype Debris = Debris(day: Path, last: Path, next: Path, counterReset: bool)

  /** Up to three attempts, only two when the numbering has just been reset. */
  method MoveToLocalDebris(fs: FileSystem, p: Path, debris: Debris) returns (ok: bool)
    modifies fs
    ensures Kept(old(fs.files), fs.files, {p}) && Aside(old(fs.files), fs.files, p)
    ensures ok ==> p !in fs.files
    ensures !ok ==> Kept(old(fs.files), fs.files, {}) && NoNewFile(old(fs.files), fs.files, p)
    ensures forall data :: fs.OnlyPartial(data) ==> !ok && fs.files == old(fs.files)
  {
    var targetExists;
    ok, targetExists := MoveToSubfolder(fs, p, debris.day);
    if ok || !targetExists {
      return;
    }
    ok, targetExists := MoveToSubfolder(fs, p, debris.last);
    if ok || !targetExists || debris.counterReset {
      return;
    }
    ok, targetExists := MoveToSubfolder(fs, p, debris.next);
  }

  // ----- Moving and copying to one target

  /** What a target's old content is owed under each way of settling a clash. */
  ghost predicate Spared(a: Files, b: Files, target: Path, method_: Resolution) {
    match method_
    case OverwriteTarget => true
    case RenameWithBracketedNumber => target in a ==> target in b && b[target] == a[target]
    case _ => Aside(a, b, target)
  }

  /** The call has to work if the primitives do. */
  ghost predicate MustWork(a: Files, target: Path, method_: Resolution) {
    target in a ==> a[target].File? && method_ != MoveReplacedFileToSyncDebris
  }

  /** Where the content may be reported to be. */
  ghost predicate ReportedFor(target: Path, method_: Resolution, reported: Path) {
    reported == target ||
    (method_ == RenameWithBracketedNumber && exists n :: n >= 1 && IsNumbered(target, method_, n, reported))
  }

  /** It is reported at the target, or at the first numbered name that did not show up before. */
  ghost predicate FirstFree(files: Files, blind: set<Path>, target: Path, method_: Resolution, reported: Path) {
    reported == target || (method_ == RenameWithBracketedNumber && IsFirst(files, blind, target, method_, reported))
  }

  /** The first numbered name that does not show up. */
  ghost predicate IsFirst(files: Files, blind: set<Path>, target: Path, kind: Resolution, name: Path) {
    exists n :: FirstUnseen(files, blind, target, kind, n) && IsNumbered(target, kind, n, name)
  }

  lemma TargetReported(files: Files, blind: set<Path>, target: Path, method_: Resolution)
    ensures FirstFree(files, blind, target, method_, target)
  {
  }

  lemma FirstReported(files: Files, blind: set<Path>, target: Path, method_: Resolution, reported: Path)
    requires FirstFree(files, blind, target, method_, reported)
    ensures ReportedFor(target, method_, reported)
  {
    hide IsNumbered;
  }

  /** A safe call that has to give the content a numbered name. */
  ghost predicate Renumbers(files: Files, blind: set<Path>, target: Path, method_: Resolution) {
    Safe(files, blind, target, method_) && method_ == RenameWithBracketedNumber && target in files
  }

  /** The old content of the target has the first free name of its kind. */
  ghost predicate SetAside(a: Files, b: Files, blind: set<Path>, target: Path) {
    target in a && exists q :: q in b && b[q] == a[target] && IsFirst(a, blind, target, RenameExistingToOldN, q)
  }

  /** The source has gone to the reported path. */
  ghost predicate Moved(a: Files, b: Files, source: Path, reported: Path) {
    source in a && source !in b && reported in b && b[reported] == a[source]
  }

  method MoveWithBracketedNumber(fs: FileSystem, source: Path, target: Path) returns (ok: bool, reported: Path)
    modifies fs
    ensures Kept(old(fs.files), fs.files, {source})
    ensures FirstFree(old(fs.files), fs.blind, target, RenameWithBracketedNumber, reported)
    ensures ok ==> IsFirst(old(fs.files), fs.blind, target, RenameWithBracketedNumber, reported)
    ensures ok ==> Moved(old(fs.files), fs.files, source, reported)
    ensures !ok ==> fs.files == old(fs.files)
    ensures fs.Reliable() && source in old(fs.files) ==> ok
    ensures forall data :: fs.OnlyPartial(data) ==> !ok
  {
    hide IsNumbered;
    var changedName, n := fs.Suffix(target, RenameWithBracketedNumber);
    var targetExists;
    ok, targetExists := fs.Rename(source, changedName, false);
    reported := if ok then changedName else target;
  }

  method MoveWithOldN(fs: FileSystem, source: Path, target: Path) returns (ok: bool)
    requires source in fs.files && source != target
    modifies fs
    ensures Kept(old(fs.files), fs.files, {source, target}) && Aside(old(fs.files), fs.files, target)
    ensures ok ==> Moved(old(fs.files), fs.files, source, target)
    ensures ok ==> SetAside(old(fs.files), fs.files, fs.blind, target)
    ensures !ok ==> Kept(old(fs.files), fs.files, {target}) && NoNewFile(old(fs.files), fs.files, target)
    ensures forall data :: fs.OnlyPartial(data) ==> !ok && fs.files == old(fs.files)
    ensures fs.Reliable() && target in old(fs.files) ==> ok
  {
    hide IsNumbered;
    var newName, n := fs.Suffix(target, RenameExistingToOldN);
    CandidateIsOther(target, RenameExistingToOldN, n);
    var targetExists;
    ok, targetExists := fs.Rename(target, newName, false);
    if !ok {
      return;
    }
    assert fs.files[newName] == old(fs.files)[target];
    ok, targetExists := fs.Rename(source, target, false);
    assert ok ==> newName in fs.files && fs.files[newName] == old(fs.files)[target];
  }

  method MoveWithDebris(fs: FileSystem, source: Path, target: Path, debris: Debris) returns (ok: bool)
    requires source in fs.files && source != target
    modifies fs
    ensures Kept(old(fs.files), fs.files, {source, target}) && Aside(old(fs.files), fs.files, target)
    ensures ok ==> Moved(old(fs.files), fs.files, source, target)
    ensures !ok ==> Kept(old(fs.files), fs.files, {target}) && NoNewFile(old(fs.files), fs.files, target)
    ensures forall data :: fs.OnlyPartial(data) ==> !ok && fs.files == old(fs.files)
  {
    ok := MoveToLocalDebris(fs, target, debris);
    if !ok {
      return;
    }
    var targetExists;
    ok, targetExists := fs.Rename(source, target, false);
  }

  method MoveTo(fs: FileSystem, source: Path, target: Path, method_: Resolution, debris: Debris)
      returns (ok: bool, reported: Path)
    requires source in fs.files && source != target
    modifies fs
    ensures Kept(old(fs.files), fs.files, {source, target}) && Spared(old(fs.files), fs.files, target, method_)
    ensures FirstFree(old(fs.files), fs.blind, target, method_, reported)
    ensures ok && Renumbers(old(fs.files), fs.blind, target, method_) ==>
              IsFirst(old(fs.files), fs.blind, target, method_, reported)
    ensures ok ==> Moved(old(fs.files), fs.files, source, reported)
    ensures !ok ==> Kept(old(fs.files), fs.files, {target}) && NoNewFile(old(fs.files), fs.files, target)
    ensures !ok && method_ == RenameWithBracketedNumber ==> fs.files == old(fs.files)
    ensures forall data :: fs.OnlyPartial(data) ==> !ok && fs.files == old(fs.files)
    ensures fs.Reliable() && MustWork(old(fs.files), target, method_) && old(fs.files)[source].File? ==> ok
  {
    reported := target;
    var targetExists;
    ok, targetExists := fs.Rename(source, target, method_ == OverwriteTarget);
    if ok {
      return;
    }
    match method_ {
      case MoveReplacedFileToSyncDebris =>
        ok := MoveWithDebris(fs, source, target, debris);
      case RenameWithBracketedNumber =>
        ok, reported := MoveWithBracketedNumber(fs, source, target);
      case RenameExistingToOldN =>
        ok := MoveWithOldN(fs, source, target);
      case OverwriteTarget =>
    }
  }

  /** The content of the source is at the reported path, which is another one. */
  ghost predicate Copied(a: Files, b: Files, source: Path, reported: Path) {
    source in a && reported != source && reported in b && b[reported] == a[source]
  }

  /** The file that an unsafe call overwrites. */
  ghost predicate Victim(files: Files, blind: set<Path>, target: Path, method_: Resolution, v: Path) {
    && HeldFile(files, v)
    && if target in blind then v == target
       else exists n :: FirstUnseen(files, blind, target, method_, n) && v == Candidate(target, method_, n)
  }

  /** All that has changed is that the file has been overwritten. */
  ghost predicate Lost(a: Files, b: Files, blind: set<Path>, target: Path, method_: Resolution, data: seq<byte>) {
    exists v :: Victim(a, blind, target, method_, v) && b == a[v := File(data)]
  }

  /** With a target that is seen, the call is safe exactly when the name it copies to is not held. */
  lemma OnlyCandidate(files: Files, blind: set<Path>, target: Path, n: nat)
    requires FirstUnseen(files, blind, target, RenameWithBracketedNumber, n)
    ensures HeldFile(files, target) && target !in blind ==>
              (Safe(files, blind, target, RenameWithBracketedNumber) <==>
               !HeldFile(files, Candidate(target, RenameWithBracketedNumber, n)))
  {
    hide Candidate;
    forall m | FirstUnseen(files, blind, target, RenameWithBracketedNumber, m)
      ensures m == n
    {
      FirstUnseenUnique(files, blind, target, RenameWithBracketedNumber, m, n);
    }
  }

  method CopyWithBracketedNumber(fs: FileSystem, source: Path, target: Path) returns (ok: bool, reported: Path)
    requires fs.Holds(source)
    modifies fs
    ensures FirstFree(old(fs.files), fs.blind, target, RenameWithBracketedNumber, reported)
    ensures ok ==> IsFirst(old(fs.files), fs.blind, target, RenameWithBracketedNumber, reported)
    ensures old(fs.Holds(target)) && Safe(old(fs.files), fs.blind, target, RenameWithBracketedNumber) ==>
              Kept(old(fs.files), fs.files, {}) && (ok ==> Copied(old(fs.files), fs.files, source, reported))
    ensures fs.Reliable() ==> ok
    ensures forall data :: old(fs.Holds(target)) && target !in fs.blind && fs.OnlyPartial(data) ==>
              Safe(old(fs.files), fs.blind, target, RenameWithBracketedNumber) ||
              Lost(old(fs.files), fs.files, fs.blind, target, RenameWithBracketedNumber, data)
    ensures forall data :: fs.OnlyPartial(data) ==> !ok
  {
    hide Candidate, IsNumbered;
    var changedName, n := fs.Suffix(target, RenameWithBracketedNumber);
    OnlyCandidate(fs.files, fs.blind, target, n);
    assert fs.Holds(changedName) && target !in fs.blind ==>
        Victim(fs.files, fs.blind, target, RenameWithBracketedNumber, changedName);
    ok := fs.Copy(source, changedName);
    reported := if ok then changedName else target;
  }

  method CopyWithOldN(fs: FileSystem, source: Path, target: Path) returns (ok: bool)
    requires fs.Holds(source) && source != target
    modifies fs
    ensures Kept(old(fs.files), fs.files, {target}) && Aside(old(fs.files), fs.files, target)
    ensures ok ==> Copied(old(fs.files), fs.files, source, target)
    ensures ok ==> SetAside(old(fs.files), fs.files, fs.blind, target)
    ensures forall data :: fs.OnlyPartial(data) ==> !ok
    ensures fs.Reliable() && target in old(fs.files) ==> ok
  {
    hide IsNumbered;
    var newName, n := fs.Suffix(target, RenameExistingToOldN);
    CandidateIsOther(target, RenameExistingToOldN, n);
    var targetExists;
    ok, targetExists := fs.Rename(target, newName, false);
    if !ok {
      return;
    }
    assert fs.files[newName] == old(fs.files)[target];
    ok := fs.Copy(source, target);
    assert newName in fs.files && fs.files[newName] == old(fs.files)[target];
  }

  method CopyWithDebris(fs: FileSystem, source: Path, target: Path, debris: Debris) returns (ok: bool)
    requires fs.Holds(source) && source != target
    modifies fs
    ensures Kept(old(fs.files), fs.files, {target}) && Aside(old(fs.files), fs.files, target)
    ensures ok ==> Copied(old(fs.files), fs.files, source, target)
    ensures forall data :: fs.OnlyPartial(data) ==> !ok
  {
    ok := MoveToLocalDebris(fs, target, debris);
    if !ok {
      return;
    }
    ok := fs.Copy(source, target);
  }

  method CopyTo(fs: FileSystem, source: Path, target: Path, method_: Resolution, debris: Debris)
      returns (ok: bool, reported: Path)
    requires fs.Holds(source) && source != target
    modifies fs
    ensures FirstFree(old(fs.files), fs.blind, target, method_, reported)
    ensures ok && Renumbers(old(fs.files), fs.blind, target, method_) ==>
              IsFirst(old(fs.files), fs.blind, target, method_, reported)
    ensures Safe(old(fs.files), fs.blind, target, method_) ==>
              Kept(old(fs.files), fs.files, {target}) && Spared(old(fs.files), fs.files, target, method_)
    ensures Safe(old(fs.files), fs.blind, target, method_) && ok ==> Copied(old(fs.files), fs.files, source, reported)
    ensures forall data :: fs.OnlyPartial(data) && !Safe(old(fs.files), fs.blind, target, method_) ==>
              Lost(old(fs.files), fs.files, fs.blind, target, method_, data)
    ensures forall data :: fs.OnlyPartial(data) ==> !ok
    ensures fs.Reliable() && MustWork(old(fs.files), target, method_) ==> ok
    ensures target in fs.blind && old(fs.Holds(target)) && fs.outcome(old(fs.calls)).Works? ==>
              fs.files == old(fs.files)[target := old(fs.files)[source]]
  {
    reported := target;
    if !fs.FileExistsAt(target) {
      assert fs.Holds(target) ==> Victim(fs.files, fs.blind, target, method_, target);
      ok := fs.Copy(source, target);
      return;
    }
    match method_ {
      case MoveReplacedFileToSyncDebris =>
        ok := CopyWithDebris(fs, source, target, debris);
      case OverwriteTarget =>
        ok := fs.Copy(source, target);
      case RenameWithBracketedNumber =>
        ok, reported := CopyWithBracketedNumber(fs, source, target);
      case RenameExistingToOldN =>
        ok := CopyWithOldN(fs, source, target);
    }
  }

  lemma KeptTrans(a: Files, b: Files, c: Files, target: Path)
    requires Kept(a, b, {target}) && Kept(b, c, {target})
    ensures Kept(a, c, {target})
  {
  }

  lemma SparedTrans(a: Files, b: Files, c: Files, target: Path, method_: Resolution)
    requires Kept(a, b, {target}) && Kept(b, c, {target})
    requires Spared(a, b, target, method_) && Spared(b, c, target, method_)
    ensures Spared(a, c, target, method_)
  {
    if target in a && (method_ == MoveReplacedFileToSyncDebris || method_ == RenameExistingToOldN) {
      var q :| q in b && b[q] == a[target] && (q == target || q !in a);
      if q == target {
        var r :| r in c && c[r] == b[target] && (r == target || r !in b);
        assert r == target || r !in a;
      }
    }
  }

  lemma SparedUnlink(a: Files, b: Files, source: Path, target: Path, method_: Resolution)
    requires Spared(a, b, target, method_) && source in a && source != target
    ensures Spared(a, b - {source}, target, method_)
  {
    if target in a && (method_ == MoveReplacedFileToSyncDebris || method_ == RenameExistingToOldN) {
      var q :| q in b && b[q] == a[target] && (q == target || q !in a);
      assert q in b - {source};
    }
  }

  /** A move that fails leaves the call as safe as it was. */
  lemma SafeAfterMove(a: Files, b: Files, blind: set<Path>, target: Path, method_: Resolution)
    requires Safe(a, blind, target, method_) && NoNewFile(a, b, target)
    requires method_ == RenameWithBracketedNumber ==> b == a
    ensures Safe(b, blind, target, method_)
  {
    hide FirstUnseen;
  }

  /** The last target: the file itself goes there, or a copy does and the file is removed. */
  method MoveOrCopy(fs: FileSystem, source: Path, target: Path, method_: Resolution, debris: Debris)
      returns (ok: bool, moved: bool, reported: Path)
    requires fs.Holds(source) && source != target
    modifies fs
    ensures moved ==> ok
    ensures FirstFree(old(fs.files), fs.blind, target, method_, reported)
    ensures ok && Renumbers(old(fs.files), fs.blind, target, method_) ==>
              IsFirst(old(fs.files), fs.blind, target, method_, reported)
    ensures Safe(old(fs.files), fs.blind, target, method_) ==>
              Kept(old(fs.files), fs.files, {source, target}) && Spared(old(fs.files), fs.files, target, method_)
    ensures Safe(old(fs.files), fs.blind, target, method_) && ok ==>
              reported in fs.files && fs.files[reported] == old(fs.files)[source]
    ensures Safe(old(fs.files), fs.blind, target, method_) && !ok ==> Kept(old(fs.files), fs.files, {target})
    ensures forall data :: fs.OnlyPartial(data) && !Safe(old(fs.files), fs.blind, target, method_) ==>
              !ok && Lost(old(fs.files), fs.files, fs.blind, target, method_, data)
    ensures fs.Reliable() && MustWork(old(fs.files), target, method_) ==> moved && source !in fs.files
  {
    hide Spared, FirstUnseen, IsNumbered, Safe, Lost;
    ghost var before := fs.files;
    moved, reported := MoveTo(fs, source, target, method_, debris);
    ok := moved;
    if ok {
      return;
    }
    ghost var mid := fs.files;
    ok, reported := CopyTo(fs, source, target, method_, debris);
    if Safe(before, fs.blind, target, method_) {
      SafeAfterMove(before, mid, fs.blind, target, method_);
      KeptTrans(before, mid, fs.files, target);
      SparedTrans(before, mid, fs.files, target, method_);
      SparedUnlink(before, fs.files, source, target, method_);
    }
    if ok {
      var _ := fs.Unlink(source);
    }
  }

  // ----- The distributor

  /** The file system together with the distributor's own state; the empty name is the cleared one. */
  datatype System = System(files: Files, theFile: Path, numTargets: nat, pathUsed: bool)

  ghost predicate Consistent(s: System) {
    && (s.numTargets == 0 <==> s.theFile == "")
    && (s.numTargets > 0 ==> s.theFile in s.files && s.files[s.theFile].File?)
  }

  /** One target fewer; the name goes with the last one. */
  ghost predicate Counts(a: System, b: System) {
    && a.numTargets > 0 && b.numTargets == a.numTargets - 1
    && b.theFile == if b.numTargets == 0 then "" else a.theFile
  }

  /** The downloaded file may leave its path: for the last target, if no target was that path itself. */
  ghost predicate MayLeave(a: System, target: Path) {
    a.numTargets == 1 && !a.pathUsed && target != a.theFile
  }

  /** What one call may do. */
  ghost predicate Distributes(a: System, b: System, target: Path, method_: Resolution, ok: bool, reported: Path) {
    && a.numTargets > 0 && a.theFile in a.files
    && (if ok then Counts(a, b) else b.numTargets == a.numTargets && b.theFile == a.theFile)
    && ReportedFor(target, method_, reported)
    && (ok ==> reported in b.files && b.files[reported] == a.files[a.theFile])
    && Kept(a.files, b.files, {target, a.theFile})
    && (target != a.theFile ==> Spared(a.files, b.files, target, method_))
    && ((ok && MayLeave(a, target)) || Kept(a.files, b.files, {target} - {a.theFile}))
    && (b.pathUsed == (a.pathUsed || target == a.theFile) || (ok && MayLeave(a, target)))
  }

  /** The target is the downloaded file's own path. */
  lemma DistributesOwn(a: System, b: System, method_: Resolution)
    requires a.numTargets > 0 && a.theFile in a.files && Counts(a, b) && b.files == a.files && b.pathUsed
    ensures Distributes(a, b, a.theFile, method_, true, a.theFile)
  {
  }

  /** The last target, when the file may leave its path. */
  lemma DistributesLast(a: System, b: System, target: Path, method_: Resolution, ok: bool, reported: Path)
    requires a.numTargets > 0 && a.theFile in a.files && MayLeave(a, target)
    requires ok ==> Counts(a, b)
    requires !ok ==> b.numTargets == a.numTargets && b.theFile == a.theFile && b.pathUsed == a.pathUsed
    requires ReportedFor(target, method_, reported)
    requires Kept(a.files, b.files, {a.theFile, target}) && Spared(a.files, b.files, target, method_)
    requires ok ==> reported in b.files && b.files[reported] == a.files[a.theFile]
    requires !ok ==> Kept(a.files, b.files, {target})
    ensures Distributes(a, b, target, method_, ok, reported)
  {
    hide Spared, ReportedFor;
  }

  /** Any other target gets a copy. */
  lemma DistributesCopy(a: System, b: System, target: Path, method_: Resolution, ok: bool, reported: Path)
    requires a.numTargets > 0 && a.theFile in a.files && target != a.theFile && b.pathUsed == a.pathUsed
    requires if ok then Counts(a, b) else b.numTargets == a.numTargets && b.theFile == a.theFile
    requires ReportedFor(target, method_, reported)
    requires Kept(a.files, b.files, {target}) && Spared(a.files, b.files, target, method_)
    requires ok ==> Copied(a.files, b.files, a.theFile, reported)
    ensures Distributes(a, b, target, method_, ok, reported)
  {
    hide Spared, ReportedFor;
  }

  class FileDistributor {
    var theFile: Path
    var numTargets: nat
    var actualPathUsed: bool

    constructor (file: Path, targets: nat)
      ensures theFile == file && numTargets == targets && !actualPathUsed
    {
      theFile, numTargets, actualPathUsed := file, targets, false;
    }

    ghost function Abs(fs: FileSystem): System
      reads this, fs
    {
      System(fs.files, theFile, numTargets, actualPathUsed)
    }

    method RemoveTarget()
      requires numTargets > 0
      modifies this
      ensures numTargets == old(numTargets) - 1 && actualPathUsed == old(actualPathUsed)
      ensures theFile == if numTargets == 0 then "" else old(theFile)
    {
      numTargets := numTargets - 1;
      if numTargets == 0 {
        theFile := "";
      }
    }

    method DistributeTo(fs: FileSystem, target: Path, method_: Resolution, debris: Debris)
        returns (ok: bool, reported: Path)
      requires numTargets > 0 && theFile != "" && fs.Holds(theFile)
      modifies this, fs
      ensures target == old(theFile) || Safe(old(fs.files), fs.blind, target, method_) ==>
                Distributes(old(Abs(fs)), Abs(fs), target, method_, ok, reported) && Consistent(Abs(fs))
      ensures FirstFree(old(fs.files), fs.blind, target, method_, reported)
      ensures target != old(theFile) && Renumbers(old(fs.files), fs.blind, target, method_) && ok ==>
                IsFirst(old(fs.files), fs.blind, target, method_, reported)
      ensures target != old(theFile) && !Safe(old(fs.files), fs.blind, target, method_) ==>
                forall data :: fs.OnlyPartial(data) ==>
                  !ok && Lost(old(fs.files), fs.files, fs.blind, target, method_, data)
      ensures fs.Reliable() && (target == old(theFile) || MustWork(old(fs.files), target, method_)) ==> ok
      ensures fs.Reliable() && MustWork(old(fs.files), target, method_) && MayLeave(old(Abs(fs)), target) ==>
                old(theFile) !in fs.files
    {
      hide Spared, MustWork, ReportedFor, Distributes, Safe, Lost, FirstFree, IsFirst, Renumbers;
      ghost var before := Abs(fs);
      reported := target;
      if target == theFile {
        actualPathUsed := true;
        RemoveTarget();
        DistributesOwn(before, Abs(fs), method_);
        TargetReported(before.files, fs.blind, target, method_);
        return true, target;
      }
      if numTargets == 1 && !actualPathUsed {
        var moved;
        ok, moved, reported := MoveOrCopy(fs, theFile, target, method_, debris);
        if ok {
          actualPathUsed := moved;
          RemoveTarget();
        }
        FirstReported(before.files, fs.blind, target, method_, reported);
        if Safe(before.files, fs.blind, target, method_) {
          DistributesLast(before, Abs(fs), target, method_, ok, reported);
        }
      } else {
        ok, reported := CopyTo(fs, theFile, target, method_, debris);
        if ok {
          RemoveTarget();
        }
        FirstReported(before.files, fs.blind, target, method_, reported);
        if Safe(before.files, fs.blind, target, method_) {
          DistributesCopy(before, Abs(fs), target, method_, ok, reported);
        }
      }
    }
  }

  // ----- Safe calls are exactly those that lose nothing, whatever the primitives do

  /** Every file but the downloaded one is where it was or at a path that was free, and its content is where it is
      said to be. */
  ghost predicate NothingLost(a: Files, b: Files, temp: Path, ok: bool, reported: Path)
    requires temp in a
  {
    && (forall p :: p in a && p != temp ==> Aside(a, b, p))
    && (if ok then reported in b && b[reported] == a[temp] else temp in b && b[temp] == a[temp])
  }

  lemma DistributesLosesNothing(a: System, b: System, target: Path, method_: Resolution, ok: bool, reported: Path)
    requires Distributes(a, b, target, method_, ok, reported) && method_ != OverwriteTarget
    ensures NothingLost(a.files, b.files, a.theFile, ok, reported)
  {
    hide ReportedFor, Counts;
    forall p | p in a.files && p != a.theFile
      ensures Aside(a.files, b.files, p)
    {
      if p != target {
        assert p in b.files && b.files[p] == a.files[p];
      }
    }
  }

  /** Data that no file has. */
  method NewData(files: Files) returns (data: seq<byte>)
    ensures forall p :: HeldFile(files, p) ==> files[p].data != data
  {
    var length := LongestData(files);
    data := seq(length + 1, _ => 0);
  }

  method LongestData(files: Files) returns (length: nat)
    ensures forall p :: HeldFile(files, p) ==> |files[p].data| <= length
    decreases |files|
  {
    if files == map[] {
      length := 0;
    } else {
      var p :| p in files;
      var rest := files - {p};
      assert rest.Keys == files.Keys - {p};
      assert |rest.Keys| < |files.Keys|;
      length := LongestData(rest);
      if files[p].File? && |files[p].data| > length {
        length := |files[p].data|;
      }
      assert forall q :: HeldFile(files, q) && q != p ==> HeldFile(rest, q);
    }
  }

  lemma LostIsLost(a: Files, b: Files, blind: set<Path>, temp: Path, target: Path, method_: Resolution,
                   data: seq<byte>, reported: Path)
    requires Lost(a, b, blind, target, method_, data) && HeldFile(a, temp)
    requires forall p :: HeldFile(a, p) ==> a[p].data != data
    ensures !NothingLost(a, b, temp, false, reported)
  {
    hide Candidate, FirstUnseen;
    var v :| Victim(a, blind, target, method_, v) && b == a[v := File(data)];
    if v != temp {
      assert !Aside(a, b, v);
    }
  }

  /** One call on a file system of its own. A safe call loses nothing, whatever the primitives do. */
  method SafeLosesNothing(files: Files, blind: set<Path>, outcome: nat -> Outcome, temp: Path, targets: nat, used: bool,
                          target: Path, method_: Resolution, debris: Debris)
      returns (fs: FileSystem, ok: bool, reported: Path)
    requires targets > 0 && temp != "" && temp != target && HeldFile(files, temp) && method_ != OverwriteTarget
    ensures fs.outcome == outcome && fs.blind == blind
    ensures Safe(files, blind, target, method_) ==> NothingLost(files, fs.files, temp, ok, reported)
    ensures forall data :: fs.OnlyPartial(data) && !Safe(files, blind, target, method_) ==>
              !ok && Lost(files, fs.files, blind, target, method_, data)
  {
    hide Safe, Lost, Distributes, NothingLost;
    fs := new FileSystem(files, outcome, blind);
    var d := new FileDistributor(temp, targets);
    d.actualPathUsed := used;
    ghost var before := d.Abs(fs);
    ok, reported := d.DistributeTo(fs, target, method_, debris);
    if Safe(files, blind, target, method_) {
      DistributesLosesNothing(before, d.Abs(fs), target, method_, ok, reported);
    }
  }

  /** Every unsafe call loses a file in some file system: one whose copies break off with data that no file has. */
  method UnsafeLoses(files: Files, blind: set<Path>, temp: Path, targets: nat, used: bool,
                     target: Path, method_: Resolution, debris: Debris)
      returns (data: seq<byte>, fs: FileSystem, ok: bool, reported: Path)
    requires targets > 0 && temp != "" && temp != target && HeldFile(files, temp) && method_ != OverwriteTarget
    requires !Safe(files, blind, target, method_)
    ensures fs.blind == blind && fs.OnlyPartial(data)
    ensures !ok && Lost(files, fs.files, blind, target, method_, data)
    ensures !NothingLost(files, fs.files, temp, ok, reported)
  {
    hide Safe, Lost, NothingLost;
    data := NewData(files);
    fs, ok, reported := SafeLosesNothing(files, blind, _ => Partial(data),
                                         temp, targets, used, target, method_, debris);
    LostIsLost(files, fs.files, blind, temp, target, method_, data, reported);
  }

  // ----- Runs

  datatype Event = Distribute(target: Path, method_: Resolution, ok: bool, reported: Path) | Remove

  /** The call of an event finds what it must not overwrite. */
  ghost predicate SafeCall(s: System, blind: set<Path>, e: Event) {
    e.Distribute? ==> e.target == s.theFile || Safe(s.files, blind, e.target, e.method_)
  }

  ghost predicate Step(a: System, b: System, e: Event) {
    match e
    case Distribute(target, method_, ok, reported) => Distributes(a, b, target, method_, ok, reported)
    case Remove => Counts(a, b) && b.files == a.files && b.pathUsed == a.pathUsed
  }

  /** What the calls of a distributor do, by what `DistributeTo` and `RemoveTarget` promise. */
  ghost predicate Run(states: seq<System>, events: seq<Event>, blind: set<Path>) {
    && |states| == |events| + 1
    && forall i :: 0 <= i < |events| ==> SafeCall(states[i], blind, events[i]) ==>
          Step(states[i], states[i + 1], events[i])
  }

  ghost predicate AllSafe(states: seq<System>, events: seq<Event>, blind: set<Path>)
    requires |states| == |events| + 1
  {
    forall i :: 0 <= i < |events| ==> SafeCall(states[i], blind, events[i])
  }

  /** Every file of a but the temporary one has its own place in b. */
  ghost predicate Tracks(a: Files, b: Files, place: map<Path, Path>, temp: Path) {
    && place.Keys == a.Keys - {temp}
    && (forall p :: p in place ==> place[p] in b && place[p] != temp && b[place[p]] == a[p])
    && (forall p, q :: p in place && q in place && place[p] == place[q] ==> p == q)
  }

  ghost predicate Renaming(e: Event) {
    e.Distribute? ==> e.method_ != OverwriteTarget
  }

  /** The place of each file after the one at `target` has gone to q. */
  ghost function Relocated(place: map<Path, Path>, target: Path, q: Path): map<Path, Path> {
    map p | p in place :: if place[p] == target then q else place[p]
  }

  lemma RelocatedTracks(a: Files, s: Files, t: Files, place: map<Path, Path>, temp: Path, target: Path, q: Path)
    requires Tracks(a, s, place, temp) && Kept(s, t, {target, temp}) && temp in s && target in s && target != temp
    requires q in t && t[q] == s[target] && (q == target || q !in s)
    ensures Tracks(a, t, Relocated(place, target, q), temp)
  {
  }

  lemma KeptTracks(a: Files, s: Files, t: Files, place: map<Path, Path>, temp: Path, target: Path)
    requires Tracks(a, s, place, temp) && Kept(s, t, {target, temp}) && (target in s ==> target == temp)
    ensures Tracks(a, t, place, temp)
  {
  }

  lemma TracksStep(a: Files, s: System, t: System, e: Event, place: map<Path, Path>, temp: Path)
      returns (next: map<Path, Path>)
    requires Tracks(a, s.files, place, temp) && Step(s, t, e) && Renaming(e) && s.theFile == temp && temp in s.files
    ensures Tracks(a, t.files, next, temp)
  {
    hide Tracks, ReportedFor, Counts, Relocated;
    next := place;
    if e.Distribute? {
      if e.target != temp && e.target in s.files {
        var q :| q in t.files && t.files[q] == s.files[e.target] && (q == e.target || q !in s.files);
        next := Relocated(place, e.target, q);
        RelocatedTracks(a, s.files, t.files, place, temp, e.target, q);
      } else {
        KeptTracks(a, s.files, t.files, place, temp, e.target);
      }
    }
  }

  /** The targets a run has dealt with. */
  function Settled(events: seq<Event>): nat {
    if events == [] then 0
    else
      var e := events[|events| - 1];
      Settled(events[..|events| - 1]) + (if e.Remove? || e.ok then 1 else 0)
  }

  /** The downloaded file's own path was one of the targets. */
  ghost predicate UsedAsTarget(events: seq<Event>, temp: Path) {
    exists i :: 0 <= i < |events| && events[i].Distribute? && events[i].target == temp
  }

  /** What holds of the downloaded file after a run. */
  ghost predicate TempKept(first: System, last: System, events: seq<Event>) {
    && Consistent(last) && first.theFile in first.files
    && last.numTargets + Settled(events) == first.numTargets
    && (last.numTargets > 0 ==> last.theFile == first.theFile)
    && (last.numTargets > 0 || UsedAsTarget(events, first.theFile) ==>
          first.theFile in last.files && last.files[first.theFile] == first.files[first.theFile])
    && (last.numTargets > 0 && UsedAsTarget(events, first.theFile) ==> last.pathUsed)
  }

  lemma TempStep(first: System, s: System, t: System, events: seq<Event>, e: Event)
    requires Consistent(first) && first.numTargets > 0 && TempKept(first, s, events) && Step(s, t, e)
    ensures TempKept(first, t, events + [e])
  {
    assert (events + [e])[..|events|] == events;
    UsedAppend(events, e, first.theFile);
  }

  lemma UsedAppend(events: seq<Event>, e: Event, temp: Path)
    ensures UsedAsTarget(events + [e], temp) <==> UsedAsTarget(events, temp) || (e.Distribute? && e.target == temp)
  {
    var all := events + [e];
    if UsedAsTarget(events, temp) {
      var i :| 0 <= i < |events| && events[i].Distribute? && events[i].target == temp;
      assert all[i] == events[i];
    }
    assert all[|events|] == e;
  }

  lemma RunStep(states: seq<System>, events: seq<Event>, blind: set<Path>, i: nat)
    requires Run(states, events, blind) && AllSafe(states, events, blind) && i < |events|
    ensures Step(states[i], states[i + 1], events[i])
  {
    hide Step, SafeCall;
  }

  lemma RunInit(states: seq<System>, events: seq<Event>, blind: set<Path>, n: nat)
    requires Run(states, events, blind) && AllSafe(states, events, blind) && n <= |events|
    ensures Run(states[..n + 1], events[..n], blind) && AllSafe(states[..n + 1], events[..n], blind)
  {
    hide Step, SafeCall;
  }

  /** Every run of safe calls: the count and the name go together, and the file stays where it is wanted. */
  lemma {:induction false} EveryRunKeepsFile(states: seq<System>, events: seq<Event>, blind: set<Path>)
    requires Run(states, events, blind) && AllSafe(states, events, blind)
    requires Consistent(states[0]) && states[0].numTargets > 0
    ensures TempKept(states[0], states[|events|], events)
    decreases |events|
  {
    hide Step, TempKept, Run, AllSafe;
    RunLength(states, events, blind);
    if events == [] {
      StartKept(states[0]);
    } else {
      var n := |events| - 1;
      var init := events[..n];
      RunInit(states, events, blind, n);
      RunStep(states, events, blind, n);
      EveryRunKeepsFile(states[..n + 1], init, blind);
      assert events == init + [events[n]];
      TempStep(states[0], states[n], states[n + 1], init, events[n]);
    }
  }

  lemma RunLength(states: seq<System>, events: seq<Event>, blind: set<Path>)
    requires Run(states, events, blind)
    ensures |states| == |events| + 1
  {
  }

  /** And if none of them overwrites, no content is lost. */
  lemma {:induction false} EveryRun(states: seq<System>, events: seq<Event>, blind: set<Path>)
      returns (place: map<Path, Path>)
    requires Run(states, events, blind) && AllSafe(states, events, blind)
    requires Consistent(states[0]) && states[0].numTargets > 0
    requires forall i :: 0 <= i < |events| ==> Renaming(events[i])
    ensures Tracks(states[0].files, states[|events|].files, place, states[0].theFile)
    decreases |events|
  {
    hide Step, Tracks, TempKept, Run, AllSafe;
    RunLength(states, events, blind);
    var temp := states[0].theFile;
    if events == [] {
      place := StartTracks(states[0]);
    } else {
      var n := |events| - 1;
      var init := events[..n];
      RunInit(states, events, blind, n);
      RunStep(states, events, blind, n);
      place := EveryRun(states[..n + 1], init, blind);
      EveryRunKeepsFile(states[..n + 1], init, blind);
      StepActive(states[0], states[n], states[n + 1], events[n], init);
      place := TracksStep(states[0].files, states[n], states[n + 1], events[n], place, temp);
    }
  }

  lemma StartTracks(s: System) returns (place: map<Path, Path>)
    requires Consistent(s) && s.numTargets > 0
    ensures Tracks(s.files, s.files, place, s.theFile)
  {
    place := map p | p in s.files && p != s.theFile :: p;
  }

  lemma StartKept(s: System)
    requires Consistent(s) && s.numTargets > 0
    ensures TempKept(s, s, [])
  {
  }

  lemma StepActive(first: System, s: System, t: System, e: Event, events: seq<Event>)
    requires TempKept(first, s, events) && Step(s, t, e)
    ensures s.theFile == first.theFile && s.theFile in s.files
  {
  }

  /** A successful call leaves the content of the downloaded file, as it was at the start of the run, at the path it
      reports. */
  lemma Delivered(states: seq<System>, events: seq<Event>, blind: set<Path>, i: nat)
    requires Run(states, events, blind) && AllSafe(states, events, blind)
    requires Consistent(states[0]) && states[0].numTargets > 0
    requires i < |events| && events[i].Distribute? && events[i].ok
    ensures events[i].reported in states[i + 1].files
    ensures states[i + 1].files[events[i].reported] == states[0].files[states[0].theFile]
  {
    hide Run, AllSafe, SafeCall, ReportedFor;
    RunLength(states, events, blind);
    RunInit(states, events, blind, i);
    RunStep(states, events, blind, i);
    EveryRunKeepsFile(states[..i + 1], events[..i], blind);
  }

  /** Examining a path must not fail: a target that cannot be examined is overwritten even where renaming was asked
      for. */
  method BlindTargetLost(temp: Path, target: Path, mine: seq<byte>, yours: seq<byte>, debris: Debris)
      returns (fs: FileSystem)
    requires temp != "" && temp != target && mine != yours
    ensures fs.files == map[temp := File(mine), target := File(mine)]
  {
    fs := new FileSystem(map[temp := File(mine), target := File(yours)], _ => Works, {target});
    var ok, reported := CopyTo(fs, temp, target, RenameExistingToOldN, debris);
  }
}
