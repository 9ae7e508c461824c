/**
 A file system as a value: regular files with their bytes, and directories.
 A path is the list of its components from the root, so `dir + [name]` is `dir / name`.
 */
module FileSystem {
  type Path = seq<string>
  type Content = seq<bv8>
  type Digest = string

  datatype Disk = Disk(files: map<Path, Content>, dirs: set<Path>) {
    /** `path.exists()` */
    predicate Exists(p: Path) {
      p in files || p in dirs
    }

    function Taken(): set<Path> {
      files.Keys + dirs
    }

    function Write(p: Path, c: Content): Disk {
      this.(files := files[p := c])
    }

    function Remove(p: Path): Disk {
      this.(files := files - {p})
    }

    /** `os.replace`, `os.rename` */
    function Move(src: Path, dst: Path): Disk
      requires src in files
    {
      this.(files := (files - {src})[dst := files[src]])
    }

    /** `dir.mkdir(parents=True, exist_ok=True)` once no component is a regular file. */
    function MakeDirs(dir: Path): Disk {
      this.(dirs := dirs + set i | 0 <= i <= |dir| :: dir[..i])
    }

    predicate Blocked(dir: Path) {
      exists i :: 0 <= i <= |dir| && dir[..i] in files
    }
  }

  /** Every file of `a` is still in `b`, byte for byte, except possibly those in `but`. */
  ghost predicate KeptBut(a: Disk, b: Disk, but: set<Path>) {
    forall p :: p in a.files && p !in but ==> p in b.files && b.files[p] == a.files[p]
  }

  // ---------- The bag of all file contents ----------

  ghost function Bag(m: map<Path, Content>): multiset<Content>
    decreases |m|
  {
    if m == map[] then multiset{}
    else
      var p :| p in m;
      Bag(m - {p}) + multiset{m[p]}
  }

  lemma BagPick(m: map<Path, Content>) returns (q: Path)
    requires m != map[]
    ensures q in m && Bag(m) == Bag(m - {q}) + multiset{m[q]}
  {
    q :| q in m && Bag(m) == Bag(m - {q}) + multiset{m[q]};
  }

  lemma WithoutOne(m: map<Path, Content>, p: Path, q: Path)
    ensures p in m ==> |m - {p}| == |m| - 1
    ensures m - {q} - {p} == m - {p} - {q}
  {
    var mp := m - {p};
    assert p in m ==> m.Keys == mp.Keys + {p} && |m.Keys| == |mp.Keys| + 1;
  }

  /** The bag does not depend on the order in which files are counted. */
  lemma {:induction false} BagWithout(m: map<Path, Content>, p: Path)
    requires p in m
    ensures Bag(m) == Bag(m - {p}) + multiset{m[p]}
    decreases |m|
  {
    var q := BagPick(m);
    if q == p {
    } else {
      WithoutOne(m, p, q);
      WithoutOne(m, q, p);
      BagWithout(m - {q}, p);
      BagWithout(m - {p}, q);
    }
  }

  lemma BagWrite(d: Disk, p: Path, c: Content)
    requires p !in d.files
    ensures Bag(d.Write(p, c).files) == Bag(d.files) + multiset{c}
  {
    var m := d.files[p := c];
    BagWithout(m, p);
    assert m - {p} == d.files;
  }

  /** Moving a file to a free path conserves the bag. */
  lemma BagMove(d: Disk, src: Path, dst: Path)
    requires src in d.files && dst !in d.files
    ensures Bag(d.Move(src, dst).files) == Bag(d.files)
  {
    BagWithout(d.files, src);
    BagWrite(d.Remove(src), dst, d.files[src]);
    assert d.Remove(src).Write(dst, d.files[src]) == d.Move(src, dst);
  }
}

/**
 The two "find a name that is not taken" loops: `ensure_unique` of the dedup script and
 `ensure_unique_path` of the v3.9.1 finder share this core.
 */
module UniqueNames {
  import opened Strings
  import opened FileSystem

  function Plain(dir: Path, stem: string, suffix: string): Path {
    dir + [stem + suffix]
  }

  function Numbered(dir: Path, stem: string, suffix: string, k: nat): Path {
    dir + [stem + "__" + Decimal(k) + suffix]
  }

  lemma NumberedInjective(dir: Path, stem: string, suffix: string, j: nat, k: nat)
    requires Numbered(dir, stem, suffix, j) == Numbered(dir, stem, suffix, k)
    ensures j == k
  {
    var a := stem + "__" + Decimal(j) + suffix;
    var b := stem + "__" + Decimal(k) + suffix;
    assert a == Numbered(dir, stem, suffix, j)[|dir|] && b == Numbered(dir, stem, suffix, k)[|dir|];
    var lo := |stem| + 2;
    assert Decimal(j) == a[lo..|a| - |suffix|] && Decimal(k) == b[lo..|b| - |suffix|];
    DecimalInjective(j, k);
  }

  /** The taken names with counter k or more: what the search still has to get past. */
  ghost function StillTaken(taken: set<Path>, dir: Path, stem: string, suffix: string, k: nat): set<Path> {
    set p | p in taken && exists j: nat :: j >= k && p == Numbered(dir, stem, suffix, j)
  }

  /** Each taken candidate uses up one of finitely many paths, so the search stops. */
  lemma StillTakenShrinks(taken: set<Path>, dir: Path, stem: string, suffix: string, k: nat)
    requires Numbered(dir, stem, suffix, k) in taken
    ensures StillTaken(taken, dir, stem, suffix, k + 1) < StillTaken(taken, dir, stem, suffix, k)
  {
    var p := Numbered(dir, stem, suffix, k);
    assert p in StillTaken(taken, dir, stem, suffix, k);
    if p in StillTaken(taken, dir, stem, suffix, k + 1) {
      var j: nat :| j >= k + 1 && p == Numbered(dir, stem, suffix, j);
      NumberedInjective(dir, stem, suffix, j, k);
    }
  }

  /** What both loops promise: the plain name if it is free, else the smallest free counter from 2. */
  ghost predicate IsUniqueName(taken: set<Path>, dir: Path, stem: string, suffix: string, r: Path) {
    if Plain(dir, stem, suffix) !in taken then r == Plain(dir, stem, suffix)
    else exists k: nat :: k >= 2 && IsFirstFree(taken, dir, stem, suffix, k) && r == Numbered(dir, stem, suffix, k)
  }

  ghost predicate IsFirstFree(taken: set<Path>, dir: Path, stem: string, suffix: string, k: nat) {
    && Numbered(dir, stem, suffix, k) !in taken
    && forall j: nat :: 2 <= j < k ==> Numbered(dir, stem, suffix, j) in taken
  }

  function FirstFree(taken: set<Path>, dir: Path, stem: string, suffix: string, k: nat): (r: nat)
    requires k >= 2 && forall j: nat :: 2 <= j < k ==> Numbered(dir, stem, suffix, j) in taken
    ensures r >= k && IsFirstFree(taken, dir, stem, suffix, r)
    decreases StillTaken(taken, dir, stem, suffix, k)
  {
    if Numbered(dir, stem, suffix, k) !in taken then k
    else
      StillTakenShrinks(taken, dir, stem, suffix, k);
      FirstFree(taken, dir, stem, suffix, k + 1)
  }

  function UniqueName(taken: set<Path>, dir: Path, stem: string, suffix: string): (r: Path)
    ensures IsUniqueName(taken, dir, stem, suffix, r)
    ensures r !in taken && |r| == |dir| + 1 && r[..|dir|] == dir
  {
    if Plain(dir, stem, suffix) !in taken then Plain(dir, stem, suffix)
    else Numbered(dir, stem, suffix, FirstFree(taken, dir, stem, suffix, 2))
  }

  /** The promise leaves no freedom. */
  lemma UniqueNameDetermined(taken: set<Path>, dir: Path, stem: string, suffix: string, r: Path)
    requires IsUniqueName(taken, dir, stem, suffix, r)
    ensures r == UniqueName(taken, dir, stem, suffix)
  {
    if Plain(dir, stem, suffix) in taken {
      var k: nat :| k >= 2 && IsFirstFree(taken, dir, stem, suffix, k) && r == Numbered(dir, stem, suffix, k);
      var n := FirstFree(taken, dir, stem, suffix, 2);
      assert !(k < n) && !(n < k);
    }
  }

  /** `dir / base+ext` if nothing has that name, else with `__2`, `__3`, ... before the extension, the first that is free. */
  ghost predicate NamedAfter(d: Disk, dir: Path, base: string, ext: string, r: Path) {
    if !d.Exists(dir + [base + ext]) then r == dir + [base + ext]
    else exists k: nat :: k >= 2 && IsFirstFreeCounter(d, dir, base, ext, k) && r == dir + [base + "__" + Decimal(k) + ext]
  }

  ghost predicate IsFirstFreeCounter(d: Disk, dir: Path, base: string, ext: string, k: nat) {
    && !d.Exists(dir + [base + "__" + Decimal(k) + ext])
    && forall j: nat :: 2 <= j < k ==> d.Exists(dir + [base + "__" + Decimal(j) + ext])
  }

  lemma UniqueNameSpelled(d: Disk, dir: Path, stem: string, suffix: string)
    ensures NamedAfter(d, dir, stem, suffix, UniqueName(d.Taken(), dir, stem, suffix))
  {
    if d.Exists(Plain(dir, stem, suffix)) {
      var k := FirstFree(d.Taken(), dir, stem, suffix, 2);
      assert IsFirstFree(d.Taken(), dir, stem, suffix, k);
      forall j: nat | 2 <= j < k ensures d.Exists(dir + [stem + "__" + Decimal(j) + suffix]) {
        assert Numbered(dir, stem, suffix, j) in d.Taken();
      }
      assert IsFirstFreeCounter(d, dir, stem, suffix, k);
      assert UniqueName(d.Taken(), dir, stem, suffix) == dir + [stem + "__" + Decimal(k) + suffix];
    }
  }

  /** The counting loop both functions run once the plain name is taken. */
  method SearchCounter(disk: Disk, dir: Path, stem: string, suffix: string) returns (candidate: Path)
    requires disk.Exists(Plain(dir, stem, suffix))
    ensures candidate == UniqueName(disk.Taken(), dir, stem, suffix)
  {
    var counter := 2;
    candidate := Numbered(dir, stem, suffix, counter);
    while disk.Exists(candidate)
      invariant counter >= 2 && candidate == Numbered(dir, stem, suffix, counter)
      invariant forall j: nat :: 2 <= j < counter ==> Numbered(dir, stem, suffix, j) in disk.Taken()
      decreases StillTaken(disk.Taken(), dir, stem, suffix, counter)
    {
      StillTakenShrinks(disk.Taken(), dir, stem, suffix, counter);
      counter := counter + 1;
      candidate := Numbered(dir, stem, suffix, counter);
    }
    assert IsFirstFree(disk.Taken(), dir, stem, suffix, counter);
    UniqueNameDetermined(disk.Taken(), dir, stem, suffix, candidate);
  }

  // ---------- Splitting a file name ----------

  /** Index of the last dot, -1 if there is none. */
  function LastDot(name: string): (i: int)
    ensures -1 <= i < |name|
    ensures i >= 0 ==> name[i] == '.'
    ensures forall j :: i < j < |name| ==> name[j] != '.'
  {
    if name == "" then -1
    else if name[|name| - 1] == '.' then |name| - 1
    else LastDot(name[..|name| - 1])
  }

  /** `(path.stem, path.suffix)` of pathlib: cut at the last dot, unless it is the first or the last character. */
  function PathlibSplit(name: string): (r: (string, string))
    ensures r.0 + r.1 == name
    ensures r.1 != "" ==> r.0 != "" && |r.1| >= 2 && r.1[0] == '.' && '.' !in r.1[1..]
    ensures r.1 == "" ==> forall i :: 0 < i < |name| - 1 && name[i] == '.' ==> name[|name| - 1] == '.'
  {
    var i := LastDot(name);
    if 0 < i < |name| - 1 then (name[..i], name[i..]) else (name, "")
  }

  /** A name cut at one of its dots with none after it. */
  predicate CutAtLastDot(name: string, stem: string, e: string) {
    name == stem + "." + e && '.' !in e
  }

  lemma CutParts(name: string, stem: string, e: string)
    requires CutAtLastDot(name, stem, e)
    ensures |name| == |stem| + 1 + |e| && name[..|stem|] == stem && name[|stem|..] == "." + e
    ensures LastDot(name) == |stem|
  {
    assert name[|stem|] == '.';
    forall j | |stem| < j < |name| ensures name[j] != '.' {
      assert name[j] == e[j - |stem| - 1];
    }
  }

  /** A stem and a non-empty extension without a dot are found again. */
  lemma PathlibSplitExact(stem: string, e: string)
    requires '.' !in e && stem != "" && e != ""
    ensures PathlibSplit(stem + "." + e) == (stem, "." + e)
  {
    CutParts(stem + "." + e, stem, e);
  }

  /** `os.path.splitext`: cut at the last dot, unless only dots come before it. */
  function SplitExt(name: string): (r: (string, string))
    ensures r.0 + r.1 == name
    ensures r.1 != "" ==> r.1[0] == '.' && '.' !in r.1[1..] && exists j :: 0 <= j < |r.0| && r.0[j] != '.'
    ensures r.1 == "" ==> forall i, j :: 0 <= j < i < |name| && name[i] == '.' ==> name[j] == '.'
  {
    var i := LastDot(name);
    if i > 0 && exists j :: 0 <= j < i && name[j] != '.' then (name[..i], name[i..]) else (name, "")
  }

  /** A stem that is not only dots and an extension without a dot, which may be empty, are found again. */
  lemma SplitExtExact(stem: string, e: string)
    requires '.' !in e && exists j :: 0 <= j < |stem| && stem[j] != '.'
    ensures SplitExt(stem + "." + e) == (stem, "." + e)
  {
    var name := stem + "." + e;
    CutParts(name, stem, e);
    var j :| 0 <= j < |stem| && stem[j] != '.';
    assert name[j] == name[..|stem|][j];
  }

  /** A name whose dots all come first has no extension. */
  lemma SplitExtNone(name: string)
    requires forall i, j :: 0 <= j < i < |name| && name[i] == '.' ==> name[j] == '.'
    ensures SplitExt(name) == (name, "")
  {
    var i := LastDot(name);
    if i > 0 {
      assert name[i] == '.';
      assert forall j :: 0 <= j < i ==> name[j] == '.';
    }
  }
}
