/**
 scripts/remove_duplicate_invoices.py: plan the duplicates of one scan by content digest,
 then delete them or move them away, one by one, each step free to fail on its own.

 SHA-256 is the parameter `hash`. `Outcome` is what the operating system answers to one
 delete or move; everything is proved for every sequence of answers.
 */
module Dedup {
  import opened Strings
  import opened Wrappers
  import opened FileSystem
  import opened UniqueNames

  const CHUNK_SIZE: nat := 0x10_0000

  datatype Pair = Pair(dup: Path, keeper: Path)

  /**
   Done: the delete or the move went through. Denied: it failed and no file changed (for a move,
   `madeDirs` tells whether the target directory had been created before). HalfCopied: a move
   across devices copied (part of) the file and then failed, so the copy stays behind.
   */
  datatype Outcome = Done | Denied(madeDirs: bool) | HalfCopied(leftover: Content)

  /** `path.name` */
  function Name(p: Path): string {
    if p == [] then "" else p[|p| - 1]
  }

  // ---------- Which files are scanned ----------

  /** The set `wanted`, every extension lower-cased and given its dot. */
  function Wanted(exts: seq<string>): set<string> {
    set e | e in exts :: if "." <= e then Lower(e) else "." + Lower(e)
  }

  predicate HasWantedSuffix(exts: seq<string>, p: Path) {
    Wanted(exts) == {} || Lower(PathlibSplit(Name(p)).1) in Wanted(exts)
  }

  predicate Under(root: Path, p: Path) {
    root < p
  }

  /** The files a scan of `root` looks at. */
  function Matching(d: Disk, root: Path, exts: seq<string>): set<Path> {
    set p | p in d.files && Under(root, p) && HasWantedSuffix(exts, p)
  }

  /** Any order in which a directory walk may deliver them. */
  ghost predicate IsScan(d: Disk, root: Path, exts: seq<string>, scan: seq<Path>) {
    && NoRepeats(scan)
    && forall p :: p in scan <==> p in Matching(d, root, exts)
  }

  // ---------- The plan ----------

  ghost predicate AllIn(files: map<Path, Content>, scan: seq<Path>) {
    forall p :: p in scan ==> p in files
  }

  predicate HasDigest(files: map<Path, Content>, scan: seq<Path>, hash: Content -> Digest, x: Digest)
    requires AllIn(files, scan)
  {
    exists p :: p in scan && hash(files[p]) == x
  }

  function Digests(files: map<Path, Content>, paths: set<Path>, hash: Content -> Digest): set<Digest>
    requires paths <= files.Keys
  {
    set p | p in paths :: hash(files[p])
  }

  /** The earliest scanned path with digest x. */
  function FirstWith(files: map<Path, Content>, scan: seq<Path>, hash: Content -> Digest, x: Digest): (r: Path)
    requires AllIn(files, scan) && HasDigest(files, scan, hash, x)
    ensures r in scan && hash(files[r]) == x
    ensures exists i :: 0 <= i < |scan| && scan[i] == r && forall j :: 0 <= j < i ==> hash(files[scan[j]]) != x
  {
    var n := |scan| - 1;
    assert scan == scan[..n] + [scan[n]];
    if HasDigest(files, scan[..n], hash, x) then FirstWith(files, scan[..n], hash, x) else scan[n]
  }

  /**
   The plan without the `seen` dictionary: a scanned path is a duplicate when an earlier one has
   its digest, and it is paired with the first such path.
   */
  function Duplicates(files: map<Path, Content>, scan: seq<Path>, hash: Content -> Digest): (r: seq<Pair>)
    requires AllIn(files, scan)
  {
    if scan == [] then []
    else
      var n := |scan| - 1;
      var before := Duplicates(files, scan[..n], hash);
      var x := hash(files[scan[n]]);
      if HasDigest(files, scan[..n], hash, x)
      then before + [Pair(scan[n], FirstWith(files, scan[..n], hash, x))]
      else before
  }

  function DupPaths(dups: seq<Pair>): set<Path> {
    set q | q in dups :: q.dup
  }

  ghost predicate DistinctDups(dups: seq<Pair>) {
    forall i, j :: 0 <= i < j < |dups| ==> dups[i].dup != dups[j].dup
  }

  lemma {:induction false} DupsAreScanned(files: map<Path, Content>, scan: seq<Path>, hash: Content -> Digest)
    requires AllIn(files, scan)
    ensures forall q :: q in Duplicates(files, scan, hash) ==> q.dup in scan
  {
    if scan == [] {
    } else {
      DupsAreScanned(files, scan[..|scan| - 1], hash);
    }
  }

  /** The first path of a digest is never planned for removal. */
  lemma {:induction false} PlanKeeperIsNoDup(files: map<Path, Content>, scan: seq<Path>, hash: Content -> Digest, x: Digest)
    requires AllIn(files, scan) && NoRepeats(scan) && HasDigest(files, scan, hash, x)
    ensures FirstWith(files, scan, hash, x) !in DupPaths(Duplicates(files, scan, hash))
  {
    var n := |scan| - 1;
    var init, p := scan[..n], scan[n];
    assert scan == init + [p];
    DupsAreScanned(files, init, hash);
    if !HasDigest(files, init, hash, x) {
    } else {
      PlanKeeperIsNoDup(files, init, hash, x);
    }
  }

  /** A pair of the plan names a scanned path and the first scanned path with its digest. */
  ghost predicate PairFits(files: map<Path, Content>, scan: seq<Path>, hash: Content -> Digest, q: Pair)
    requires AllIn(files, scan)
  {
    && q.dup in scan && q.keeper in scan
    && HasDigest(files, scan, hash, hash(files[q.dup]))
    && q.keeper == FirstWith(files, scan, hash, hash(files[q.dup]))
  }

  lemma {:induction false} PlanPairsFit(files: map<Path, Content>, scan: seq<Path>, hash: Content -> Digest)
    requires AllIn(files, scan)
    ensures forall q :: q in Duplicates(files, scan, hash) ==> PairFits(files, scan, hash, q)
  {
    if scan == [] {
    } else {
      var n := |scan| - 1;
      var init, p := scan[..n], scan[n];
      assert scan == init + [p];
      PlanPairsFit(files, init, hash);
      forall q | q in Duplicates(files, scan, hash) ensures PairFits(files, scan, hash, q) {
        if q in Duplicates(files, init, hash) {
          assert PairFits(files, init, hash, q);
        } else {
          assert q.dup == p && p in scan;
        }
        var x := hash(files[q.dup]);
        assert HasDigest(files, init, hash, x) && q.keeper == FirstWith(files, init, hash, x);
        assert HasDigest(files, scan, hash, x);
      }
    }
  }

  lemma {:induction false} DupsDiffer(files: map<Path, Content>, scan: seq<Path>, hash: Content -> Digest)
    requires AllIn(files, scan) && NoRepeats(scan)
    ensures DistinctDups(Duplicates(files, scan, hash))
  {
    if scan == [] {
    } else {
      var n := |scan| - 1;
      var init, p := scan[..n], scan[n];
      assert scan == init + [p] && p !in init;
      DupsDiffer(files, init, hash);
      DupsAreScanned(files, init, hash);
    }
  }

  /**
   Soundness of the plan: duplicates are distinct scanned paths; each is paired with another
   scanned path of the same digest that is nobody's duplicate and comes first.
   */
  lemma {:induction false} PlanSound(files: map<Path, Content>, scan: seq<Path>, hash: Content -> Digest)
    requires AllIn(files, scan) && NoRepeats(scan)
    ensures DistinctDups(Duplicates(files, scan, hash))
    ensures forall q :: q in Duplicates(files, scan, hash) ==>
      && q.dup in scan && q.keeper in scan
      && HasDigest(files, scan, hash, hash(files[q.dup]))
      && q.keeper == FirstWith(files, scan, hash, hash(files[q.dup]))
      && q.keeper !in DupPaths(Duplicates(files, scan, hash))
  {
    DupsDiffer(files, scan, hash);
    PlanPairsFit(files, scan, hash);
    forall q | q in Duplicates(files, scan, hash)
      ensures PairFits(files, scan, hash, q) && q.keeper !in DupPaths(Duplicates(files, scan, hash))
    {
      PlanKeeperIsNoDup(files, scan, hash, hash(files[q.dup]));
    }
  }

  /** Completeness: a scanned path that is not a duplicate is the one keeper of its digest. */
  lemma {:induction false} PlanComplete(files: map<Path, Content>, scan: seq<Path>, hash: Content -> Digest)
    requires AllIn(files, scan)
    ensures forall p :: p in scan && p !in DupPaths(Duplicates(files, scan, hash)) ==>
      && HasDigest(files, scan, hash, hash(files[p]))
      && p == FirstWith(files, scan, hash, hash(files[p]))
  {
    if scan == [] {
    } else {
      var n := |scan| - 1;
      var init, last := scan[..n], scan[n];
      assert scan == init + [last];
      PlanComplete(files, init, hash);
      var all := Duplicates(files, scan, hash);
      assert HasDigest(files, init, hash, hash(files[last])) ==> all[|all| - 1].dup == last;
      forall p | p in scan && p !in DupPaths(all)
        ensures HasDigest(files, scan, hash, hash(files[p]))
        ensures p == FirstWith(files, scan, hash, hash(files[p]))
      {
        if p in init {
          assert forall q :: q in Duplicates(files, init, hash) ==> q in all;
          assert HasDigest(files, init, hash, hash(files[p]));
        }
      }
    }
  }

  /** Scanned files = distinct digests + planned duplicates, whatever the scan order. */
  lemma {:induction false} PlanCount(files: map<Path, Content>, scan: seq<Path>, hash: Content -> Digest)
    requires AllIn(files, scan)
    ensures |Duplicates(files, scan, hash)| + |Digests(files, Elems(scan), hash)| == |scan|
  {
    if scan == [] {
      assert Digests(files, Elems(scan), hash) == {};
    } else {
      var n := |scan| - 1;
      var init, last := scan[..n], scan[n];
      assert scan == init + [last];
      PlanCount(files, init, hash);
      var before, x := Digests(files, Elems(init), hash), hash(files[last]);
      assert Elems(scan) == Elems(init) + {last};
      assert Digests(files, Elems(scan), hash) == before + {x};
      assert HasDigest(files, init, hash, x) <==> x in before;
    }
  }

  /** The same number of duplicates, from the files alone. */
  function DuplicateCount(d: Disk, root: Path, exts: seq<string>, hash: Content -> Digest): int {
    var m := Matching(d, root, exts);
    |m| - |Digests(d.files, m, hash)|
  }

  lemma CountIsOrderIndependent(d: Disk, root: Path, exts: seq<string>, scan: seq<Path>, hash: Content -> Digest)
    requires IsScan(d, root, exts, scan)
    ensures AllIn(d.files, scan) && |scan| == |Matching(d, root, exts)|
    ensures |Duplicates(d.files, scan, hash)| == DuplicateCount(d, root, exts, hash)
  {
    PlanCount(d.files, scan, hash);
    SizeOfDistinct(scan);
    assert Elems(scan) == Matching(d, root, exts);
  }

  /** With no digest collision among the scanned files, a duplicate has its keeper's very bytes. */
  lemma PlanPairsEqualContents(files: map<Path, Content>, scan: seq<Path>, hash: Content -> Digest)
    requires AllIn(files, scan) && NoRepeats(scan)
    requires forall p, q :: p in scan && q in scan && hash(files[p]) == hash(files[q]) ==> files[p] == files[q]
    ensures forall q :: q in Duplicates(files, scan, hash) ==>
      q.dup in files && q.keeper in files && files[q.dup] == files[q.keeper]
  {
    PlanSound(files, scan, hash);
  }

  // ---------- Applying the plan ----------

  /** Where `ensure_unique` sends a duplicate. */
  function Destination(d: Disk, dir: Path, dup: Path): Path {
    var (stem, suffix) := PathlibSplit(Name(dup));
    UniqueName(d.Taken(), dir, stem, suffix)
  }

  /** One pass of the apply loop: the new disk, and whether the pass counts as removed. */
  function Step(d: Disk, dup: Path, moveTo: Option<Path>, o: Outcome): (Disk, bool) {
    match moveTo
    case None =>
      if o.Done? && dup in d.files then (d.Remove(dup), true) else (d, false)
    case Some(dir) =>
      if o == Denied(false) || d.Blocked(dir) then (d, false)
      else
        var d1 := d.MakeDirs(dir);
        var dest := Destination(d1, dir, dup);
        if dup !in d1.files then (d1, false)
        else match o
          case Done => (d1.Move(dup, dest), true)
          case Denied(_) => (d1, false)
          case HalfCopied(leftover) => (d1.Write(dest, leftover), false)
  }

  function Apply(d: Disk, dups: seq<Pair>, moveTo: Option<Path>, env: seq<Outcome>): (Disk, nat)
    requires |env| == |dups|
    decreases |dups|
  {
    if dups == [] then (d, 0)
    else
      var (d1, ok) := Step(d, dups[0].dup, moveTo, env[0]);
      var (d2, removed) := Apply(d1, dups[1..], moveTo, env[1..]);
      (d2, removed + if ok then 1 else 0)
  }

  function CountDone(env: seq<Outcome>): nat {
    if env == [] then 0 else (if env[0].Done? then 1 else 0) + CountDone(env[1..])
  }

  ghost function Leftovers(env: seq<Outcome>): multiset<Content> {
    if env == [] then multiset{}
    else (if env[0].HalfCopied? then multiset{env[0].leftover} else multiset{}) + Leftovers(env[1..])
  }

  lemma {:induction false} LeftoversEmpty(env: seq<Outcome>)
    ensures Leftovers(env) == multiset{} <==> forall o :: o in env ==> !o.HalfCopied?
  {
    if env == [] {
    } else {
      LeftoversEmpty(env[1..]);
      assert env == [env[0]] + env[1..];
      if env[0].HalfCopied? {
        assert env[0].leftover in Leftovers(env);
      }
    }
  }

  /** The planned duplicates are distinct existing files. */
  ghost predicate Pending(d: Disk, dups: seq<Pair>) {
    && DistinctDups(dups)
    && forall q :: q in dups ==> q.dup in d.files
  }

  /** Nothing but the duplicate itself is ever touched: destinations are always free. */
  lemma StepKeeps(d: Disk, dup: Path, moveTo: Option<Path>, o: Outcome)
    ensures KeptBut(d, Step(d, dup, moveTo, o).0, {dup})
    ensures !Step(d, dup, moveTo, o).1 ==> KeptBut(d, Step(d, dup, moveTo, o).0, {})
  {
  }

  /** Whatever fails, in either mode, every file not planned for removal survives unchanged. */
  lemma {:induction false} ApplyKeeps(d: Disk, dups: seq<Pair>, moveTo: Option<Path>, env: seq<Outcome>)
    requires |env| == |dups|
    ensures KeptBut(d, Apply(d, dups, moveTo, env).0, DupPaths(dups))
    decreases |dups|
  {
    if dups == [] {
    } else {
      StepKeeps(d, dups[0].dup, moveTo, env[0]);
      ApplyKeeps(Step(d, dups[0].dup, moveTo, env[0]).0, dups[1..], moveTo, env[1..]);
      assert dups == [dups[0]] + dups[1..];
      assert DupPaths(dups) == {dups[0].dup} + DupPaths(dups[1..]);
    }
  }

  /** When its turn comes, each duplicate still sits at its own path with its original bytes. */
  lemma PendingIntact(d: Disk, dups: seq<Pair>, moveTo: Option<Path>, env: seq<Outcome>, k: nat)
    requires |env| == |dups| && Pending(d, dups) && k <= |dups|
    ensures var now := Apply(d, dups[..k], moveTo, env[..k]).0;
      Pending(now, dups[k..]) && forall q :: q in dups[k..] ==> now.files[q.dup] == d.files[q.dup]
  {
    ApplyKeeps(d, dups[..k], moveTo, env[..k]);
    forall q | q in dups[k..] ensures q.dup !in DupPaths(dups[..k]) {
      var j :| k <= j < |dups| && dups[j] == q;
    }
  }

  /** Names handed out lie inside the target directory, so they never block creating it. */
  lemma StepBlocked(d: Disk, dup: Path, dir: Path, o: Outcome)
    ensures Step(d, dup, Some(dir), o).0.Blocked(dir) == d.Blocked(dir)
  {
    var d1 := Step(d, dup, Some(dir), o).0;
    if d1.Blocked(dir) {
      var i :| 0 <= i <= |dir| && dir[..i] in d1.files;
      assert dir[..i] in d.files;
    }
  }

  lemma PendingStep(d: Disk, dups: seq<Pair>, moveTo: Option<Path>, o: Outcome)
    requires Pending(d, dups) && dups != []
    ensures Pending(Step(d, dups[0].dup, moveTo, o).0, dups[1..])
  {
    var d1, rest := Step(d, dups[0].dup, moveTo, o).0, dups[1..];
    StepKeeps(d, dups[0].dup, moveTo, o);
    forall q | q in rest ensures q.dup in d1.files {
      var i :| 0 <= i < |rest| && rest[i] == q;
      assert dups[i + 1] == q && q in dups;
    }
  }

  /** The counter counts exactly the moves that went through. */
  lemma {:induction false} MoveCounts(d: Disk, dups: seq<Pair>, dir: Path, env: seq<Outcome>)
    requires |env| == |dups| && Pending(d, dups)
    ensures Apply(d, dups, Some(dir), env).1 == if d.Blocked(dir) then 0 else CountDone(env)
    decreases |dups|
  {
    if dups == [] {
    } else {
      assert dups[0] in dups;
      StepBlocked(d, dups[0].dup, dir, env[0]);
      PendingStep(d, dups, Some(dir), env[0]);
      MoveCounts(Step(d, dups[0].dup, Some(dir), env[0]).0, dups[1..], dir, env[1..]);
    }
  }

  /**
   Move mode conserves contents: over the whole disk the bag of file contents gains exactly the
   copies left by half-done moves. It holds wherever the target directory lies.
   */
  lemma {:induction false} MoveConserves(d: Disk, dups: seq<Pair>, dir: Path, env: seq<Outcome>)
    requires |env| == |dups| && Pending(d, dups)
    ensures Bag(Apply(d, dups, Some(dir), env).0.files)
         == Bag(d.files) + if d.Blocked(dir) then multiset{} else Leftovers(env)
    decreases |dups|
  {
    if dups == [] {
    } else {
      assert dups[0] in dups;
      var d1 := Step(d, dups[0].dup, Some(dir), env[0]).0;
      StepBlocked(d, dups[0].dup, dir, env[0]);
      PendingStep(d, dups, Some(dir), env[0]);
      StepBag(d, dups[0].dup, dir, env[0]);
      MoveConserves(d1, dups[1..], dir, env[1..]);
      assert Apply(d, dups, Some(dir), env).0 == Apply(d1, dups[1..], Some(dir), env[1..]).0;
    }
  }

  lemma StepBag(d: Disk, dup: Path, dir: Path, o: Outcome)
    requires dup in d.files
    ensures Bag(Step(d, dup, Some(dir), o).0.files)
         == Bag(d.files) + if o.HalfCopied? && !d.Blocked(dir) then multiset{o.leftover} else multiset{}
  {
    if o != Denied(false) && !d.Blocked(dir) {
      var d1 := d.MakeDirs(dir);
      var dest := Destination(d1, dir, dup);
      if o.Done? {
        BagMove(d1, dup, dest);
      } else if o.HalfCopied? {
        BagWrite(d1, dest, o.leftover);
      }
    }
  }

  /** Exactly when a move run leaves the bag of contents as it was. */
  lemma MoveConservesExactly(d: Disk, dups: seq<Pair>, dir: Path, env: seq<Outcome>)
    requires |env| == |dups| && Pending(d, dups)
    ensures Bag(Apply(d, dups, Some(dir), env).0.files) == Bag(d.files)
       <==> (d.Blocked(dir) || forall o :: o in env ==> !o.HalfCopied?)
  {
    MoveConserves(d, dups, dir, env);
    LeftoversEmpty(env);
    var b, l := Bag(d.files), Leftovers(env);
    if b + l == b {
      assert forall c :: (b + l)[c] == b[c] + l[c];
      assert l == multiset{};
    }
  }

  /** The duplicates whose delete went through. */
  function Deleted(dups: seq<Pair>, env: seq<Outcome>): set<Path>
    requires |env| == |dups|
  {
    set i | 0 <= i < |dups| && env[i].Done? :: dups[i].dup
  }

  /** Delete mode removes exactly those files and nothing else changes. */
  lemma {:induction false} DeleteExact(d: Disk, dups: seq<Pair>, env: seq<Outcome>)
    requires |env| == |dups| && Pending(d, dups)
    ensures Apply(d, dups, None, env).0 == d.(files := d.files - Deleted(dups, env))
    ensures Apply(d, dups, None, env).1 == CountDone(env) == |Deleted(dups, env)|
    decreases |dups|
  {
    if dups == [] {
      assert Deleted(dups, env) == {} && d.files - {} == d.files;
    } else {
      var first := if env[0].Done? then {dups[0].dup} else {};
      var d1 := Step(d, dups[0].dup, None, env[0]).0;
      assert dups[0] in dups;
      WithoutEither(d.files, first, Deleted(dups[1..], env[1..]));
      assert d1 == d.(files := d.files - first);
      assert Pending(d1, dups[1..]);
      DeleteExact(d1, dups[1..], env[1..]);
      DeletedStep(dups, env);
    }
  }

  lemma WithoutEither(m: map<Path, Content>, a: set<Path>, b: set<Path>)
    ensures (m - a) - b == m - (a + b)
    ensures m - {} == m
  {
  }

  lemma DeletedStep(dups: seq<Pair>, env: seq<Outcome>)
    requires |env| == |dups| > 0 && DistinctDups(dups)
    ensures Deleted(dups, env) == (if env[0].Done? then {dups[0].dup} else {}) + Deleted(dups[1..], env[1..])
    ensures dups[0].dup !in Deleted(dups[1..], env[1..])
  {
    var rest := Deleted(dups[1..], env[1..]);
    forall p | p in rest ensures p in Deleted(dups, env) && p != dups[0].dup {
      var i :| 0 <= i < |dups| - 1 && env[1..][i].Done? && dups[1..][i].dup == p;
      assert env[i + 1].Done? && dups[i + 1].dup == p;
    }
    forall p | p in Deleted(dups, env) ensures p in rest || (env[0].Done? && p == dups[0].dup) {
      var i :| 0 <= i < |dups| && env[i].Done? && dups[i].dup == p;
      if i > 0 { assert env[1..][i - 1].Done? && dups[1..][i - 1].dup == p; }
    }
  }

  // ---------- Plan and apply together ----------

  /** The plan of a scan meets what the apply loop relies on. */
  lemma PlanIsPending(d: Disk, root: Path, exts: seq<string>, scan: seq<Path>, hash: Content -> Digest)
    requires IsScan(d, root, exts, scan)
    ensures AllIn(d.files, scan) && Pending(d, Duplicates(d.files, scan, hash))
  {
    PlanSound(d.files, scan, hash);
  }

  /**
   Safety in both modes, for every pattern of failures: each scanned digest keeps its keeper, at
   the keeper's own path with the keeper's own bytes, and so does every file outside the scan.
   */
  lemma KeepersSurvive(d: Disk, root: Path, exts: seq<string>, scan: seq<Path>, hash: Content -> Digest,
                       moveTo: Option<Path>, env: seq<Outcome>, p: Path)
    requires IsScan(d, root, exts, scan) && p in d.files && AllIn(d.files, scan)
    requires |env| == |Duplicates(d.files, scan, hash)|
    ensures var after := Apply(d, Duplicates(d.files, scan, hash), moveTo, env).0;
      if p in scan then
        && HasDigest(d.files, scan, hash, hash(d.files[p]))
        && var k := FirstWith(d.files, scan, hash, hash(d.files[p]));
           k in after.files && after.files[k] == d.files[k]
      else p in after.files && after.files[p] == d.files[p]
  {
    var dups := Duplicates(d.files, scan, hash);
    ApplyKeeps(d, dups, moveTo, env);
    if p in scan {
      PlanKeeperIsNoDup(d.files, scan, hash, hash(d.files[p]));
    } else {
      DupsAreScanned(d.files, scan, hash);
    }
  }

  /**
   A delete run in which nothing fails is final: a rescan in any order finds no duplicate and
   sees exactly one file per digest that was there before, with the digests unchanged.
   */
  lemma DeleteIsFinal(d: Disk, root: Path, exts: seq<string>, scan: seq<Path>, hash: Content -> Digest,
                      env: seq<Outcome>, rescan: seq<Path>)
    requires IsScan(d, root, exts, scan) && AllIn(d.files, scan)
    requires |env| == |Duplicates(d.files, scan, hash)| && forall o :: o in env ==> o.Done?
    requires IsScan(Apply(d, Duplicates(d.files, scan, hash), None, env).0, root, exts, rescan)
    ensures var after := Apply(d, Duplicates(d.files, scan, hash), None, env).0;
      && AllIn(after.files, rescan)
      && Duplicates(after.files, rescan, hash) == []
      && Digests(after.files, Elems(rescan), hash) == Digests(d.files, Elems(scan), hash)
      && |rescan| == |Digests(d.files, Elems(scan), hash)|
  {
    FullDelete(d, root, exts, scan, hash, env);
    PlanComplete(d.files, scan, hash);
    var after := Apply(d, Duplicates(d.files, scan, hash), None, env).0;
    assert AllIn(after.files, rescan);
    assert forall p :: p in rescan <==> p in scan && p !in DupPaths(Duplicates(d.files, scan, hash));
    SurvivorsCarryAllDigests(d.files, scan, hash, after.files, rescan);
    DistinctDigestsHaveNoDups(after.files, rescan, hash);
    PlanCount(after.files, rescan, hash);
  }

  lemma FullDelete(d: Disk, root: Path, exts: seq<string>, scan: seq<Path>, hash: Content -> Digest, env: seq<Outcome>)
    requires IsScan(d, root, exts, scan) && AllIn(d.files, scan)
    requires |env| == |Duplicates(d.files, scan, hash)| && forall o :: o in env ==> o.Done?
    ensures var dups := Duplicates(d.files, scan, hash);
      Apply(d, dups, None, env).0 == d.(files := d.files - DupPaths(dups))
  {
    var dups := Duplicates(d.files, scan, hash);
    PlanIsPending(d, root, exts, scan, hash);
    DeleteExact(d, dups, env);
    forall q | q in dups ensures q.dup in Deleted(dups, env) {
      var i :| 0 <= i < |dups| && dups[i] == q;
      assert env[i] in env;
    }
    assert Deleted(dups, env) == DupPaths(dups);
  }

  lemma SurvivorsCarryAllDigests(files: map<Path, Content>, scan: seq<Path>, hash: Content -> Digest,
                                 after: map<Path, Content>, rescan: seq<Path>)
    requires AllIn(files, scan) && NoRepeats(scan) && AllIn(after, rescan)
    requires after == files - DupPaths(Duplicates(files, scan, hash))
    requires forall p :: p in rescan <==> p in scan && p !in DupPaths(Duplicates(files, scan, hash))
    ensures Digests(after, Elems(rescan), hash) == Digests(files, Elems(scan), hash)
  {
    forall x | x in Digests(files, Elems(scan), hash) ensures x in Digests(after, Elems(rescan), hash) {
      assert HasDigest(files, scan, hash, x);
      PlanKeeperIsNoDup(files, scan, hash, x);
      assert FirstWith(files, scan, hash, x) in Elems(rescan);
    }
  }

  lemma {:induction false} DistinctDigestsHaveNoDups(files: map<Path, Content>, scan: seq<Path>, hash: Content -> Digest)
    requires AllIn(files, scan) && NoRepeats(scan)
    requires forall p, q :: p in scan && q in scan && hash(files[p]) == hash(files[q]) ==> p == q
    ensures Duplicates(files, scan, hash) == []
  {
    if scan == [] {
    } else {
      var n := |scan| - 1;
      assert scan == scan[..n] + [scan[n]];
      DistinctDigestsHaveNoDups(files, scan[..n], hash);
    }
  }

  // ---------- Moving duplicates inside the scanned tree ----------

  /** A counter put before the suffix does not change the suffix. */
  lemma CounterKeepsSuffix(name: string, k: nat)
    ensures var (stem, suffix) := PathlibSplit(name);
      suffix != "" ==> PathlibSplit(stem + "__" + Decimal(k) + suffix).1 == suffix
  {
    var (stem, suffix) := PathlibSplit(name);
    if suffix != "" {
      var longer := stem + "__" + Decimal(k) + suffix;
      var i := |longer| - |suffix|;
      assert longer[i..] == suffix && longer[i] == '.';
      assert forall j :: i < j < |longer| ==> longer[j] == suffix[j - i] == name[|stem| + j - i];
      assert LastDot(longer) == i;
    }
  }

  lemma WantedStartsWithDot(exts: seq<string>)
    ensures "" !in Wanted(exts)
  {
  }

  /** A file that matches the extensions still matches under the name it gets. */
  lemma RenamedStillWanted(exts: seq<string>, dup: Path, dir: Path, taken: set<Path>)
    requires HasWantedSuffix(exts, dup)
    ensures var (stem, suffix) := PathlibSplit(Name(dup));
      HasWantedSuffix(exts, UniqueName(taken, dir, stem, suffix))
  {
    var name := Name(dup);
    var (stem, suffix) := PathlibSplit(name);
    if Plain(dir, stem, suffix) !in taken {
      assert Name(Plain(dir, stem, suffix)) == name;
    } else {
      var k := FirstFree(taken, dir, stem, suffix, 2);
      assert Name(Numbered(dir, stem, suffix, k)) == stem + "__" + Decimal(k) + suffix;
      CounterKeepsSuffix(name, k);
      WantedStartsWithDot(exts);
      assert suffix == "" ==> Lower(suffix) == "";
    }
  }

  lemma DestinationMatches(d: Disk, root: Path, exts: seq<string>, dir: Path, dup: Path)
    requires root <= dir && dup in Matching(d, root, exts)
    ensures Under(root, Destination(d, dir, dup)) && HasWantedSuffix(exts, Destination(d, dir, dup))
  {
    RenamedStillWanted(exts, dup, dir, d.Taken());
    var dest := Destination(d, dir, dup);
    assert dest[..|dir|] == dir && dest[..|root|] == dir[..|root|];
  }

  lemma MoveKeepsCount(d: Disk, root: Path, exts: seq<string>, hash: Content -> Digest, dup: Path, dest: Path)
    requires dup in Matching(d, root, exts)
    requires dest !in d.files && Under(root, dest) && HasWantedSuffix(exts, dest)
    ensures DuplicateCount(d.Move(dup, dest), root, exts, hash) == DuplicateCount(d, root, exts, hash)
  {
    var d1 := d.Move(dup, dest);
    var m, m1 := Matching(d, root, exts), Matching(d1, root, exts);
    assert m1 == m - {dup} + {dest};
    DigestsMove(d.files, d1.files, m, hash, dup, dest);
  }

  lemma DigestsMove(files: map<Path, Content>, after: map<Path, Content>, m: set<Path>, hash: Content -> Digest, dup: Path, dest: Path)
    requires m <= files.Keys && dup in m && dest !in files && m - {dup} + {dest} <= after.Keys
    requires after[dest] == files[dup] && forall p :: p in m && p != dup ==> after[p] == files[p]
    ensures Digests(after, m - {dup} + {dest}, hash) == Digests(files, m, hash)
  {
    var x, x1 := Digests(files, m, hash), Digests(after, m - {dup} + {dest}, hash);
    forall h | h in x ensures h in x1 {
      var p :| p in m && hash(files[p]) == h;
      assert (if p == dup then dest else p) in m - {dup} + {dest};
    }
  }

  /** A half-done move leaves one more matching file, and at most one more digest. */
  lemma CopyNeverLowersCount(d: Disk, root: Path, exts: seq<string>, hash: Content -> Digest, dest: Path, c: Content)
    requires dest !in d.files && Under(root, dest) && HasWantedSuffix(exts, dest)
    ensures DuplicateCount(d.Write(dest, c), root, exts, hash) >= DuplicateCount(d, root, exts, hash)
  {
    var m := Matching(d, root, exts);
    assert Matching(d.Write(dest, c), root, exts) == m + {dest};
    DigestsGrow(d.files, m, hash, dest, c);
  }

  lemma DigestsGrow(files: map<Path, Content>, m: set<Path>, hash: Content -> Digest, dest: Path, c: Content)
    requires m <= files.Keys && dest !in files
    ensures |Digests(files[dest := c], m + {dest}, hash)| <= |Digests(files, m, hash)| + 1
  {
    var x, x1 := Digests(files, m, hash), Digests(files[dest := c], m + {dest}, hash);
    assert x1 <= x + {hash(c)};
    assert x1 - {hash(c)} <= x;
    SmallerSet(x1 - {hash(c)}, x);
  }

  lemma SmallerSet(a: set<Digest>, b: set<Digest>)
    requires a <= b
    ensures |a| <= |b|
  {
    assert b == a + (b - a);
  }

  lemma MovingInsideStep(d: Disk, root: Path, exts: seq<string>, hash: Content -> Digest, dup: Path, dir: Path, o: Outcome)
    requires dup in Matching(d, root, exts) && root <= dir
    ensures var before, after := DuplicateCount(d, root, exts, hash),
                                 DuplicateCount(Step(d, dup, Some(dir), o).0, root, exts, hash);
      after >= before && (!o.HalfCopied? ==> after == before)
  {
    var d1 := d.MakeDirs(dir);
    assert Matching(d1, root, exts) == Matching(d, root, exts);
    if o != Denied(false) && !d.Blocked(dir) {
      var dest := Destination(d1, dir, dup);
      DestinationMatches(d1, root, exts, dir, dup);
      if o.Done? {
        MoveKeepsCount(d1, root, exts, hash, dup, dest);
      } else if o.HalfCopied? {
        CopyNeverLowersCount(d1, root, exts, hash, dest, o.leftover);
      }
    }
  }

  /**
   With the quarantine at or under the scanned root a move run never lowers the number of duplicates;
   if no move is left half-done, the number stays exactly the same.
   */
  lemma {:induction false} MovingInsideNeverConverges(d: Disk, root: Path, exts: seq<string>, hash: Content -> Digest,
                                                      dups: seq<Pair>, dir: Path, env: seq<Outcome>)
    requires |env| == |dups| && Pending(d, dups) && root <= dir
    requires forall q :: q in dups ==> q.dup in Matching(d, root, exts)
    ensures var before, after := DuplicateCount(d, root, exts, hash),
                                 DuplicateCount(Apply(d, dups, Some(dir), env).0, root, exts, hash);
      after >= before && ((forall o :: o in env ==> !o.HalfCopied?) ==> after == before)
    decreases |dups|
  {
    if dups == [] {
    } else {
      var dup, o := dups[0].dup, env[0];
      assert dups[0] in dups && o in env;
      var d1 := Step(d, dup, Some(dir), o).0;
      MovingInsideStep(d, root, exts, hash, dup, dir, o);
      PendingStep(d, dups, Some(dir), o);
      OthersStillMatch(d, root, exts, dups, Some(dir), o);
      MovingInsideNeverConverges(d1, root, exts, hash, dups[1..], dir, env[1..]);
    }
  }

  lemma OthersStillMatch(d: Disk, root: Path, exts: seq<string>, dups: seq<Pair>, moveTo: Option<Path>, o: Outcome)
    requires Pending(d, dups) && dups != [] && forall q :: q in dups ==> q.dup in Matching(d, root, exts)
    ensures forall q :: q in dups[1..] ==> q.dup in Matching(Step(d, dups[0].dup, moveTo, o).0, root, exts)
  {
    PendingStep(d, dups, moveTo, o);
    assert forall q :: q in dups[1..] ==> q in dups;
  }

  // ---------- How many duplicates a run leaves ----------

  /** Taking away planned duplicates, and nothing else that matches, lowers the count one by one. */
  lemma CountAfterRemoval(d: Disk, after: Disk, root: Path, exts: seq<string>, scan: seq<Path>, hash: Content -> Digest,
                          gone: set<Path>)
    requires IsScan(d, root, exts, scan) && AllIn(d.files, scan)
    requires gone <= DupPaths(Duplicates(d.files, scan, hash)) && gone <= Matching(d, root, exts)
    requires Matching(after, root, exts) == Matching(d, root, exts) - gone
    requires forall p :: p in Matching(after, root, exts) ==> after.files[p] == d.files[p]
    ensures DuplicateCount(after, root, exts, hash) == DuplicateCount(d, root, exts, hash) - |gone|
  {
    var m, m1 := Matching(d, root, exts), Matching(after, root, exts);
    forall x | x in Digests(d.files, m, hash) ensures x in Digests(after.files, m1, hash) {
      assert HasDigest(d.files, scan, hash, x);
      PlanKeeperIsNoDup(d.files, scan, hash, x);
      assert FirstWith(d.files, scan, hash, x) in m1;
    }
    assert Digests(after.files, m1, hash) == Digests(d.files, m, hash);
    assert m == m1 + gone;
  }

  lemma DeletedAreDups(dups: seq<Pair>, env: seq<Outcome>)
    requires |env| == |dups|
    ensures Deleted(dups, env) <= DupPaths(dups)
  {
    forall p | p in Deleted(dups, env) ensures p in DupPaths(dups) {
      var i :| 0 <= i < |dups| && env[i].Done? && dups[i].dup == p;
      assert dups[i] in dups;
    }
  }

  lemma {:induction false} DeletedSize(dups: seq<Pair>, env: seq<Outcome>)
    requires |env| == |dups| && DistinctDups(dups)
    ensures |Deleted(dups, env)| == CountDone(env)
    decreases |dups|
  {
    if dups == [] {
      assert Deleted(dups, env) == {};
    } else {
      DeletedStep(dups, env);
      DeletedSize(dups[1..], env[1..]);
    }
  }

  /** Delete mode, for every pattern of failures: a rescan finds exactly the duplicates whose delete failed. */
  lemma DeleteLowersCount(d: Disk, root: Path, exts: seq<string>, scan: seq<Path>, hash: Content -> Digest, env: seq<Outcome>)
    requires IsScan(d, root, exts, scan) && AllIn(d.files, scan) && |env| == |Duplicates(d.files, scan, hash)|
    ensures var (after, removed) := Apply(d, Duplicates(d.files, scan, hash), None, env);
      DuplicateCount(after, root, exts, hash) == DuplicateCount(d, root, exts, hash) - removed
  {
    var dups := Duplicates(d.files, scan, hash);
    var gone := Deleted(dups, env);
    PlanIsPending(d, root, exts, scan, hash);
    DeleteExact(d, dups, env);
    DeletedAreDups(dups, env);
    DupsAreScanned(d.files, scan, hash);
    CountAfterRemoval(d, d.(files := d.files - gone), root, exts, scan, hash, gone);
  }

  /** A destination outside the root never matches the scan. */
  lemma OutsideStep(d: Disk, root: Path, exts: seq<string>, dup: Path, dir: Path, o: Outcome)
    requires dup in Matching(d, root, exts) && !(root <= dir) && !d.Blocked(dir)
    ensures var d1 := Step(d, dup, Some(dir), o).0;
      && Matching(d1, root, exts) == Matching(d, root, exts) - (if o.Done? then {dup} else {})
      && forall p :: p in Matching(d1, root, exts) ==> d1.files[p] == d.files[p]
  {
    var d1 := Step(d, dup, Some(dir), o).0;
    var dest := Destination(d.MakeDirs(dir), dir, dup);
    assert root < dest ==> root <= dest[..|dir|];
    assert forall p :: p in d1.files && p != dest ==> p in d.files && d1.files[p] == d.files[p];
  }

  lemma {:induction false} MovingOutsideMatching(d: Disk, root: Path, exts: seq<string>, dups: seq<Pair>, dir: Path, env: seq<Outcome>)
    requires |env| == |dups| && Pending(d, dups) && !(root <= dir) && !d.Blocked(dir)
    requires forall q :: q in dups ==> q.dup in Matching(d, root, exts)
    ensures var after := Apply(d, dups, Some(dir), env).0;
      && Matching(after, root, exts) == Matching(d, root, exts) - Deleted(dups, env)
      && forall p :: p in Matching(after, root, exts) ==> after.files[p] == d.files[p]
    decreases |dups|
  {
    if dups == [] {
      assert Deleted(dups, env) == {};
    } else {
      var d1 := Step(d, dups[0].dup, Some(dir), env[0]).0;
      assert dups[0] in dups;
      OutsideStep(d, root, exts, dups[0].dup, dir, env[0]);
      StepBlocked(d, dups[0].dup, dir, env[0]);
      PendingStep(d, dups, Some(dir), env[0]);
      OthersStillMatch(d, root, exts, dups, Some(dir), env[0]);
      MovingOutsideMatching(d1, root, exts, dups[1..], dir, env[1..]);
      DeletedStep(dups, env);
    }
  }

  /** A blocked target leaves every file where it was. */
  lemma {:induction false} BlockedMovesNothing(d: Disk, dups: seq<Pair>, dir: Path, env: seq<Outcome>)
    requires |env| == |dups| && d.Blocked(dir)
    ensures Apply(d, dups, Some(dir), env) == (d, 0)
    decreases |dups|
  {
    if dups == [] {
    } else {
      BlockedMovesNothing(d, dups[1..], dir, env[1..]);
    }
  }

  /** Move mode to a directory outside the root, for every pattern of failures: the count falls by the moves that went through. */
  lemma MovingOutsideLowersCount(d: Disk, root: Path, exts: seq<string>, scan: seq<Path>, hash: Content -> Digest,
                                 dir: Path, env: seq<Outcome>)
    requires IsScan(d, root, exts, scan) && AllIn(d.files, scan) && |env| == |Duplicates(d.files, scan, hash)|
    requires !(root <= dir)
    ensures var (after, removed) := Apply(d, Duplicates(d.files, scan, hash), Some(dir), env);
      DuplicateCount(after, root, exts, hash) == DuplicateCount(d, root, exts, hash) - removed
  {
    var dups := Duplicates(d.files, scan, hash);
    if d.Blocked(dir) {
      BlockedMovesNothing(d, dups, dir, env);
    } else {
      PlanIsPending(d, root, exts, scan, hash);
      DupsAreScanned(d.files, scan, hash);
      MovingOutsideMatching(d, root, exts, dups, dir, env);
      MoveCounts(d, dups, dir, env);
      DeletedSize(dups, env);
      DeletedAreDups(dups, env);
      CountAfterRemoval(d, Apply(d, dups, Some(dir), env).0, root, exts, scan, hash, Deleted(dups, env));
    }
  }

  lemma {:induction false} CountDoneAll(env: seq<Outcome>)
    ensures CountDone(env) <= |env| && (CountDone(env) == |env| <==> forall o :: o in env ==> o.Done?)
  {
    if env == [] {
    } else {
      assert env == [env[0]] + env[1..];
      CountDoneAll(env[1..]);
    }
  }

  /**
   Exactly when a move run clears the duplicates: there were none, or the target lies outside the
   scanned root and can be created and every move went through. It holds for every rescan order.
   */
  lemma MoveConvergesExactly(d: Disk, root: Path, exts: seq<string>, scan: seq<Path>, hash: Content -> Digest,
                             dir: Path, env: seq<Outcome>)
    requires IsScan(d, root, exts, scan) && AllIn(d.files, scan) && |env| == |Duplicates(d.files, scan, hash)|
    ensures var dups := Duplicates(d.files, scan, hash);
      var after := Apply(d, dups, Some(dir), env).0;
      var clears := dups == [] || (!(root <= dir) && !d.Blocked(dir) && forall o :: o in env ==> o.Done?);
      && (DuplicateCount(after, root, exts, hash) == 0 <==> clears)
      && forall rescan :: IsScan(after, root, exts, rescan) ==>
           AllIn(after.files, rescan) && (Duplicates(after.files, rescan, hash) == [] <==> clears)
  {
    var dups := Duplicates(d.files, scan, hash);
    var after := Apply(d, dups, Some(dir), env).0;
    CountIsOrderIndependent(d, root, exts, scan, hash);
    PlanIsPending(d, root, exts, scan, hash);
    DupsAreScanned(d.files, scan, hash);
    CountDoneAll(env);
    MoveCounts(d, dups, dir, env);
    if root <= dir {
      MovingInsideNeverConverges(d, root, exts, hash, dups, dir, env);
    } else {
      MovingOutsideLowersCount(d, root, exts, scan, hash, dir, env);
    }
    forall rescan | IsScan(after, root, exts, rescan)
      ensures AllIn(after.files, rescan)
      ensures |Duplicates(after.files, rescan, hash)| == DuplicateCount(after, root, exts, hash)
    {
      CountIsOrderIndependent(after, root, exts, rescan, hash);
    }
  }

  // ---------- A half-done move ----------

  /** Two equal files, one planned to move, and a move that copies it and then fails: the contents are there once more. */
  lemma HalfDoneMoveExample(hash: Content -> Digest, a: Path, b: Path, c: Content)
    requires a == ["r", "a.pdf"] && b == ["r", "b.pdf"]
    ensures var d := Disk(map[a := c, b := c], {["r"]});
      && Duplicates(d.files, [a, b], hash) == [Pair(b, a)]
      && Bag(Apply(d, [Pair(b, a)], Some(["q"]), [HalfCopied(c)]).0.files) != Bag(d.files)
  {
    var d := Disk(map[a := c, b := c], {["r"]});
    var scan, plan, env := [a, b], [Pair(b, a)], [HalfCopied(c)];
    assert a[1] != b[1];
    assert scan[..1] == [a] && [a][..0] == [];
    assert Duplicates(d.files, [a], hash) == [];
    assert a in [a];
    assert HasDigest(d.files, [a], hash, hash(c));
    assert FirstWith(d.files, [a], hash, hash(c)) == a;
    assert Pending(d, plan);
    assert forall i :: 0 <= i <= 1 ==> |["q"][..i]| < 2;
    assert !d.Blocked(["q"]);
    assert HalfCopied(c) in env;
    MoveConservesExactly(d, plan, ["q"], env);
  }
}

/** The script itself: the loops over a mutable file system, proved against the plan above. */
module DedupScript {
  import opened Strings
  import opened Wrappers
  import opened FileSystem
  import opened UniqueNames
  import opened Dedup

  /** The directory walk `root.rglob("*")`: everything below root, once, in some order. */
  ghost predicate IsWalk(d: Disk, root: Path, walk: seq<Path>) {
    && NoRepeats(walk)
    && forall p :: p in walk <==> d.Exists(p) && Under(root, p)
  }

  /** The duplicates and the count are those of some order in which the matching files may be scanned. */
  ghost predicate IsPlan(d: Disk, root: Path, exts: seq<string>, hash: Content -> Digest,
                         scan: seq<Path>, duplicates: seq<Pair>, count: nat) {
    && IsScan(d, root, exts, scan) && AllIn(d.files, scan)
    && duplicates == Duplicates(d.files, scan, hash) && count == |scan|
  }

  function FirstAnswers(answers: nat -> Outcome, n: nat): (env: seq<Outcome>)
    ensures |env| == n && forall i :: 0 <= i < n ==> env[i] == answers(i)
  {
    seq(n, i requires 0 <= i < n => answers(i))
  }

  datatype Summary = Summary(total: nat, found: nat, removed: nat)

  class Volume {
    var files: map<Path, Content>
    var dirs: set<Path>

    constructor (d: Disk)
      ensures Now() == d
    {
      files, dirs := d.files, d.dirs;
    }

    function Now(): Disk
      reads this
    {
      Disk(files, dirs)
    }

    /** `hash_file`: feed the file to the digest chunk by chunk. */
    method HashFile(path: Path, hash: Content -> Digest) returns (digest: Digest)
      requires path in files
      ensures digest == hash(files[path])
    {
      var absorbed, pos := [], 0;
      while true
        invariant pos <= |files[path]| && absorbed == files[path][..pos]
        decreases |files[path]| - pos
      {
        var end := if pos + CHUNK_SIZE <= |files[path]| then pos + CHUNK_SIZE else |files[path]|;
        var chunk := files[path][pos..end];
        if chunk == [] {
          break;
        }
        absorbed := absorbed + chunk;
        pos := end;
      }
      assert absorbed == files[path];
      digest := hash(absorbed);
    }

    method IterInvoiceFiles(root: Path, exts: seq<string>, walk: seq<Path>) returns (scan: seq<Path>)
      requires IsWalk(Now(), root, walk)
      ensures IsScan(Now(), root, exts, scan)
    {
      var wanted := Wanted(exts);
      scan := [];
      for i := 0 to |walk|
        invariant NoRepeats(scan)
        invariant forall p :: p in scan <==> p in walk[..i] && p in Matching(Now(), root, exts)
      {
        var path := walk[i];
        assert walk[..i + 1] == walk[..i] + [path];
        assert path !in walk[..i];
        if path !in files {
          continue;
        }
        if wanted != {} && Lower(PathlibSplit(Name(path)).1) !in wanted {
          continue;
        }
        scan := scan + [path];
      }
      assert walk[..|walk|] == walk;
    }

    method PlanDedup(root: Path, exts: seq<string>, walk: seq<Path>, hash: Content -> Digest)
      returns (duplicates: seq<Pair>, count: nat)
      requires IsWalk(Now(), root, walk)
      ensures exists scan :: IsPlan(Now(), root, exts, hash, scan, duplicates, count)
    {
      var order := IterInvoiceFiles(root, exts, walk);
      var seen: map<Digest, Path> := map[];
      duplicates, count := [], 0;
      for i := 0 to |order|
        invariant count == i && AllIn(files, order) && AllIn(files, order[..i])
        invariant duplicates == Duplicates(files, order[..i], hash)
        invariant forall x :: x in seen <==> HasDigest(files, order[..i], hash, x)
        invariant forall x :: x in seen ==> seen[x] == FirstWith(files, order[..i], hash, x)
      {
        var path := order[i];
        assert order[..i + 1][..i] == order[..i] && order[..i + 1] == order[..i] + [path];
        count := count + 1;
        var digest := HashFile(path, hash);
        if digest !in seen {
          seen := seen[digest := path];
        } else {
          duplicates := duplicates + [Pair(path, seen[digest])];
        }
      }
      assert order[..|order|] == order;
      assert IsPlan(Now(), root, exts, hash, order, duplicates, count);
    }

    /** `ensure_unique` after its mkdir. */
    method EnsureUnique(destDir: Path, name: string) returns (candidate: Path)
      ensures candidate == UniqueName(Now().Taken(), destDir, PathlibSplit(name).0, PathlibSplit(name).1)
      ensures !Now().Exists(candidate)
    {
      candidate := destDir + [name];
      var (stem, suffix) := PathlibSplit(name);
      assert candidate == Plain(destDir, stem, suffix);
      if Now().Exists(candidate) {
        candidate := SearchCounter(Now(), destDir, stem, suffix);
      }
    }

    /** One iteration of the apply loop; a false result is the `except` branch. */
    method RemoveOrMove(dup: Path, moveTo: Option<Path>, answer: Outcome) returns (ok: bool)
      modifies this
      ensures (Now(), ok) == Step(old(Now()), dup, moveTo, answer)
    {
      match moveTo
      case Some(dir) =>
        if answer == Denied(false) || Now().Blocked(dir) {
          return false;
        }
        dirs := Now().MakeDirs(dir).dirs;
        var dest := EnsureUnique(dir, Name(dup));
        if dup !in files || answer.Denied? {
          return false;
        }
        if answer.HalfCopied? {
          files := files[dest := answer.leftover];
          return false;
        }
        files := (files - {dup})[dest := files[dup]];
        return true;
      case None =>
        if dup !in files || !answer.Done? {
          return false;
        }
        files := files - {dup};
        return true;
    }

    /** The whole of `main`: scan, plan and, with `--apply`, remove. */
    method Run(root: Path, exts: seq<string>, walk: seq<Path>, hash: Content -> Digest, apply: bool,
               moveTo: Option<Path>, answers: nat -> Outcome) returns (s: Summary, duplicates: seq<Pair>)
      requires IsWalk(Now(), root, walk)
      modifies this
      ensures old(Now().Exists(root)) ==>
        && (exists scan :: IsPlan(old(Now()), root, exts, hash, scan, duplicates, s.total))
        && s.found == |duplicates|
        && (Now(), s.removed) ==
             if apply then Apply(old(Now()), duplicates, moveTo, FirstAnswers(answers, |duplicates|))
             else (old(Now()), 0)
      ensures !old(Now().Exists(root)) ==> Now() == old(Now()) && s == Summary(0, 0, 0)
    {
      if !Now().Exists(root) {
        return Summary(0, 0, 0), [];
      }
      var dups, total := PlanDedup(root, exts, walk, hash);
      if dups == [] || !apply {
        return Summary(total, |dups|, 0), dups;
      }
      ghost var env := FirstAnswers(answers, |dups|);
      var removed := 0;
      for i := 0 to |dups|
        invariant Apply(old(Now()), dups, moveTo, env).0 == Apply(Now(), dups[i..], moveTo, env[i..]).0
        invariant Apply(old(Now()), dups, moveTo, env).1 == removed + Apply(Now(), dups[i..], moveTo, env[i..]).1
      {
        assert dups[i..][0] == dups[i] && dups[i..][1..] == dups[i + 1..];
        assert env[i..][0] == answers(i) && env[i..][1..] == env[i + 1..];
        var ok := RemoveOrMove(dups[i].dup, moveTo, answers(i));
        if ok {
          removed := removed + 1;
        }
      }
      return Summary(total, |dups|, removed), dups;
    }
  }
}
