/** scripts/remove_duplicate_invoices.py: which files are scanned, and where a duplicate goes, said of file names. */
module DedupRules {
  import opened Strings
  import opened Wrappers
  import opened FileSystem
  import opened UniqueNames
  import opened Dedup

  // ---------- The scan ----------

  /** name is `stem.y` with a stem, and y is x up to letter case. */
  predicate HasExtension(name: string, x: string) {
    exists i :: 0 < i < |name| && name[i] == '.' && Lower(name[i + 1..]) == Lower(x)
  }

  lemma HasExtensionMeans(name: string, x: string, stem: string, y: string)
    ensures stem != "" && name == stem + "." + y && Lower(y) == Lower(x) ==> HasExtension(name, x)
  {
    if stem != "" && name == stem + "." + y {
      assert name[|stem|] == '.' && name[|stem| + 1..] == y;
    }
  }

  /** What an `--ext` argument asks for: itself, less one leading dot. */
  function Bare(e: string): string {
    if e != "" && e[0] == '.' then e[1..] else e
  }

  lemma LowerDots(s: string)
    ensures '.' in Lower(s) <==> '.' in s
  {
    if i :| 0 <= i < |s| && s[i] == '.' {
      assert Lower(s)[i] == '.';
    }
    if i :| 0 <= i < |s| && Lower(s)[i] == '.' {
      assert s[i] == '.';
    }
  }

  lemma DotLower(y: string)
    ensures Lower("." + y) == "." + Lower(y)
  {
    LowerConcat(".", y);
    assert Lower(".") == ".";
  }

  lemma DotAndRest(s: string)
    requires s != "" && s[0] == '.'
    ensures s == "." + s[1..] && Lower(s) == "." + Lower(s[1..])
  {
    DotLower(s[1..]);
    assert s == "." + s[1..];
  }

  lemma WantedIsDotted(e: string)
    ensures Wanted([e]) == {"." + Lower(Bare(e))}
  {
    assert forall x :: x in [e] <==> x == e;
    if e != "" && e[0] == '.' {
      DotAndRest(e);
      assert "." <= e;
    } else {
      assert !("." <= e);
    }
  }

  lemma SameDotted(a: string, b: string)
    requires "." + a == "." + b
    ensures a == b
  {
    assert ("." + a)[1..] == a && ("." + b)[1..] == b;
  }

  lemma SuffixIsExtension(name: string, x: string)
    requires Lower(PathlibSplit(name).1) == "." + Lower(x)
    ensures HasExtension(name, x)
  {
    var (stem, suffix) := PathlibSplit(name);
    DotAndRest(suffix);
    SameDotted(Lower(suffix[1..]), Lower(x));
    assert name[|stem|] == '.' && name[|stem| + 1..] == suffix[1..];
  }

  lemma SameShape(x: string, y: string)
    requires Lower(y) == Lower(x)
    ensures |y| == |x| && ('.' in y <==> '.' in x)
  {
    LowerDots(x);
    LowerDots(y);
  }

  lemma ExtensionIsSuffix(stem: string, y: string, x: string)
    requires x != "" && '.' !in x && stem != "" && Lower(y) == Lower(x)
    ensures Lower(PathlibSplit(stem + "." + y).1) == "." + Lower(x)
  {
    SameShape(x, y);
    PathlibSplitExact(stem, y);
    DotLower(y);
  }

  lemma CutAt(name: string, i: nat)
    requires i < |name| && name[i] == '.'
    ensures name == name[..i] + "." + name[i + 1..]
  {
  }

  /** Pathlib's suffix is the wanted one exactly when the name ends in the extension after a dot. */
  lemma SuffixMeansExtension(name: string, x: string)
    requires x != "" && '.' !in x
    ensures Lower(PathlibSplit(name).1) == "." + Lower(x) <==> HasExtension(name, x)
  {
    if Lower(PathlibSplit(name).1) == "." + Lower(x) {
      SuffixIsExtension(name, x);
    }
    if i :| 0 < i < |name| && name[i] == '.' && Lower(name[i + 1..]) == Lower(x) {
      CutAt(name, i);
      ExtensionIsSuffix(name[..i], name[i + 1..], x);
    }
  }

  /** An empty extension, or one with a dot inside, is nobody's suffix. */
  lemma NobodysSuffix(name: string, x: string)
    requires x == "" || '.' in x
    ensures Lower(PathlibSplit(name).1) != "." + Lower(x)
  {
    var suffix := PathlibSplit(name).1;
    if suffix != "" {
      DotAndRest(suffix);
      if Lower(suffix[1..]) == Lower(x) {
        SameShape(suffix[1..], x);
      } else if "." + Lower(suffix[1..]) == "." + Lower(x) {
        SameDotted(Lower(suffix[1..]), Lower(x));
      }
    }
  }

  /**
   What one `--ext` argument takes, with or without its dot and in any letter case: names made of a stem, a dot
   and that extension in any letter case. One that is empty or has another dot in it takes no file.
   */
  predicate Takes(e: string, name: string) {
    Bare(e) != "" && '.' !in Bare(e) && HasExtension(name, Bare(e))
  }

  lemma TakesExactly(e: string, name: string)
    ensures Takes(e, name) <==> Lower(PathlibSplit(name).1) in Wanted([e])
  {
    WantedIsDotted(e);
    if Bare(e) == "" || '.' in Bare(e) {
      NobodysSuffix(name, Bare(e));
    } else {
      SuffixMeansExtension(name, Bare(e));
    }
  }

  lemma WantedHolds(exts: seq<string>, e: string)
    requires e in exts
    ensures Wanted([e]) <= Wanted(exts) && Wanted(exts) != {}
  {
    WantedIsDotted(e);
    var w := if "." <= e then Lower(e) else "." + Lower(e);
    assert w in Wanted(exts);
    assert e in [e] && w in Wanted([e]);
  }

  lemma WantedComesFrom(exts: seq<string>, w: string) returns (e: string)
    requires w in Wanted(exts)
    ensures e in exts && w in Wanted([e])
  {
    e :| e in exts && w == if "." <= e then Lower(e) else "." + Lower(e);
    assert e in [e];
  }

  lemma ListTakes(exts: seq<string>, name: string)
    ensures Wanted(exts) == {} || Lower(PathlibSplit(name).1) in Wanted(exts) <==>
      exts == [] || exists e :: e in exts && Takes(e, name)
  {
    var w := Lower(PathlibSplit(name).1);
    if exts != [] {
      WantedHolds(exts, exts[0]);
    }
    if w in Wanted(exts) {
      var e := WantedComesFrom(exts, w);
      TakesExactly(e, name);
    }
    if e :| e in exts && Takes(e, name) {
      TakesExactly(e, name);
      WantedHolds(exts, e);
    }
  }

  /** The scan looks at exactly the files below root that one of the extensions takes; without extensions, at all of them. */
  lemma ScanExactly(d: Disk, root: Path, exts: seq<string>, scan: seq<Path>, p: Path)
    requires IsScan(d, root, exts, scan)
    ensures p in scan <==>
      && p in d.files && |p| > |root| && p[..|root|] == root
      && (exts == [] || exists e :: e in exts && Takes(e, p[|p| - 1]))
  {
    assert p in scan <==> p in Matching(d, root, exts);
    ListTakes(exts, Name(p));
    assert root < p <==> |p| > |root| && p[..|root|] == root;
  }

  /** In particular the default extension takes every name that ends in ".pdf", in any letter case, after a stem. */
  lemma DefaultExtension(d: Disk, root: Path, scan: seq<Path>, stem: string, y: string)
    requires IsScan(d, root, [".pdf"], scan) && root + [stem + "." + y] in d.files
    requires stem != "" && Lower(y) == "pdf"
    ensures root + [stem + "." + y] in scan
  {
    var p := root + [stem + "." + y];
    assert Bare(".pdf") == "pdf" && Lower("pdf") == "pdf";
    HasExtensionMeans(stem + "." + y, "pdf", stem, y);
    assert Takes(".pdf", stem + "." + y);
    ScanExactly(d, root, [".pdf"], scan, p);
    assert ".pdf" in [".pdf"] && p[..|root|] == root;
  }

  // ---------- The destination of a moved duplicate ----------

  /**
   A move that goes through: the target directory and its parents exist, the file has left its place, and
   lies in the target directory with its bytes, under its own name if nothing had it, else with the first free
   counter before its suffix. No other file is touched.
   */
  lemma MoveExactly(d: Disk, dup: Path, dir: Path) returns (dest: Path)
    requires dup in d.files && dup != [] && forall q :: q in d.files ==> !(q <= dir)
    ensures var (stem, suffix) := PathlibSplit(dup[|dup| - 1]); NamedAfter(d, dir, stem, suffix, dest)
    ensures !d.Exists(dir + [dup[|dup| - 1]]) ==> dest == dir + [dup[|dup| - 1]]
    ensures var (after, ok) := Step(d, dup, Some(dir), Done);
      && ok && after.files == (d.files - {dup})[dest := d.files[dup]]
      && forall q :: q in after.dirs <==> q in d.dirs || q <= dir
  {
    var d1 := d.MakeDirs(dir);
    var (stem, suffix) := PathlibSplit(dup[|dup| - 1]);
    dest := Destination(d1, dir, dup);
    UniqueNameSpelled(d1, dir, stem, suffix);
    MadeDirs(d, dir);
    SameBelow(d, d1, dir, stem, suffix, dest);
  }

  /** If the target or one of its parents is a regular file, a move fails and changes nothing. */
  lemma BlockedMove(d: Disk, dup: Path, dir: Path, o: Outcome, q: Path)
    requires q in d.files && q <= dir
    ensures Step(d, dup, Some(dir), o) == (d, false)
  {
    assert q == dir[..|q|];
  }

  /** A move that fails is not counted; one that is denied changes no file, though the target may have been made. */
  lemma FailedMove(d: Disk, dup: Path, dir: Path, o: Outcome)
    requires dup in d.files && !o.Done? && forall q :: q in d.files ==> !(q <= dir)
    ensures var (after, ok) := Step(d, dup, Some(dir), o);
      && !ok
      && (o.Denied? ==> after.files == d.files)
      && (o == Denied(false) ==> after.dirs == d.dirs)
      && (o != Denied(false) ==> forall q :: q in after.dirs <==> q in d.dirs || q <= dir)
  {
    MadeDirs(d, dir);
  }

  lemma HalfDoneMove(d: Disk, dup: Path, dir: Path, leftover: Content) returns (dest: Path)
    requires dup in d.files && forall q :: q in d.files ==> !(q <= dir)
    ensures !d.Exists(dest) && |dest| == |dir| + 1 && dest[..|dir|] == dir
    ensures Step(d, dup, Some(dir), HalfCopied(leftover)).0.files == d.files[dest := leftover]
  {
    dest := Destination(d.MakeDirs(dir), dir, dup);
  }

  lemma MadeDirs(d: Disk, dir: Path)
    ensures forall q :: q in d.MakeDirs(dir).dirs <==> q in d.dirs || q <= dir
  {
    forall q | q <= dir ensures q in d.MakeDirs(dir).dirs {
      assert q == dir[..|q|];
    }
  }

  /** The new directories have none of the names that are looked for. */
  lemma SameBelow(d: Disk, d1: Disk, dir: Path, stem: string, suffix: string, dest: Path)
    requires d1.files == d.files && forall q :: q in d1.dirs <==> q in d.dirs || q <= dir
    requires NamedAfter(d1, dir, stem, suffix, dest)
    ensures NamedAfter(d, dir, stem, suffix, dest)
  {
    assert forall n: string :: d1.Exists(dir + [n]) <==> d.Exists(dir + [n]);
    if d.Exists(dir + [stem + suffix]) {
      var k: nat :| k >= 2 && IsFirstFreeCounter(d1, dir, stem, suffix, k) && dest == dir + [stem + "__" + Decimal(k) + suffix];
      assert IsFirstFreeCounter(d, dir, stem, suffix, k);
    }
  }
}
