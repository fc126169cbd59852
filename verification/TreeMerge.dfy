/** The merge of two recovery file trees in tools/repack_vendor_boot.py; a tree maps each file's path to its content. */
module TreeMerge {
  type Path = string
  type Tree<T> = map<Path, T>

  const BIN: Path := "system/bin"
  const LIB: Path := "system/lib64"
  const CORE_NAMES: seq<string> := ["init", "linker64", "adbd", "fastbootd", "toybox"]

  /** The file lies below the directory. */
  predicate Under(dir: Path, p: Path) { dir + "/" <= p }

  predicate IsCore(p: Path) { exists i :: 0 <= i < |CORE_NAMES| && p == BIN + "/" + CORE_NAMES[i] }

  /** `shutil.rmtree`. */
  function WithoutDir<T>(t: Tree<T>, dir: Path): Tree<T> { map p | p in t && !Under(dir, p) :: t[p] }

  /** `shutil.copytree` of one directory into a tree that does not have it. */
  function WithDir<T>(t: Tree<T>, src: Tree<T>, dir: Path): Tree<T> {
    t + map p | p in src && Under(dir, p) :: src[p]
  }

  /**
   * The merged tree, path by path: under system/bin the template's files, with the other tree's content where it has
   * any and the file is no core component; under system/lib64 the other tree's files; elsewhere the template's.
   */
  function Merged<T>(tp: Tree<T>, ci: Tree<T>): Tree<T> {
    map p | p in tp.Keys + ci.Keys && (if Under(LIB, p) then p in ci else p in tp) ::
      if Under(LIB, p) || (Under(BIN, p) && p in ci && !IsCore(p)) then ci[p] else tp[p]
  }

  lemma DirsDiffer(p: Path)
    ensures !(Under(BIN, p) && Under(LIB, p))
  {
    assert Under(BIN, p) ==> p[7] == (BIN + "/")[7] == 'b';
    assert Under(LIB, p) ==> p[7] == (LIB + "/")[7] == 'l';
  }

  /** The paths of a tree below a directory, collected one file at a time. */
  method FilesUnder<T>(t: Tree<T>, dir: Path) returns (files: set<Path>)
    ensures files == set p | p in t && Under(dir, p)
  {
    files := {};
    var rest := t.Keys;
    while rest != {}
      invariant rest <= t.Keys
      invariant files == set p | p in t.Keys - rest && Under(dir, p)
      decreases |rest|
    {
      var p :| p in rest;
      if Under(dir, p) {
        files := files + {p};
      }
      rest := rest - {p};
    }
  }

  /** The components that are never taken from the other tree. */
  lemma CoreIs(p: Path)
    ensures IsCore(p) <==>
            p in {"system/bin/init", "system/bin/linker64", "system/bin/adbd", "system/bin/fastbootd",
                  "system/bin/toybox"}
  {
    var names := CORE_NAMES;
    assert BIN + "/" + names[0] == "system/bin/init" && BIN + "/" + names[1] == "system/bin/linker64";
    assert BIN + "/" + names[2] == "system/bin/adbd" && BIN + "/" + names[3] == "system/bin/fastbootd";
    assert BIN + "/" + names[4] == "system/bin/toybox";
  }

  lemma UnderMeans(p: Path)
    ensures Under(BIN, p) <==> "system/bin/" <= p
    ensures Under(LIB, p) <==> "system/lib64/" <= p
    ensures !("system/bin/" <= p && "system/lib64/" <= p)
  {
    assert BIN + "/" == "system/bin/" && LIB + "/" == "system/lib64/";
    DirsDiffer(p);
  }

  /** What the pointwise definition says of each path, with the directories and the components written out. */
  lemma MergedMeans<T>(tp: Tree<T>, ci: Tree<T>, p: Path)
    ensures
      var core :=
        {"system/bin/init", "system/bin/linker64", "system/bin/adbd", "system/bin/fastbootd", "system/bin/toybox"};
      var f1 := Merged(tp, ci);
      && (p in core ==> (p in f1 <==> p in tp) && (p in tp ==> f1[p] == tp[p]))
      && ("system/bin/" <= p && p !in core ==>
            (p in f1 <==> p in tp) && (p in tp ==> f1[p] == if p in ci then ci[p] else tp[p]))
      && ("system/lib64/" <= p ==> (p in f1 <==> p in ci) && (p in ci ==> f1[p] == ci[p]))
      && (!("system/bin/" <= p) && !("system/lib64/" <= p) ==>
            (p in f1 <==> p in tp) && (p in tp ==> f1[p] == tp[p]))
  {
    hide IsCore, Under;
    CoreIs(p);
    UnderMeans(p);
    if IsCore(p) {
      CoreIsProgram(p);
    }
  }

  lemma CoreIsProgram(p: Path)
    requires p in {"system/bin/init", "system/bin/linker64", "system/bin/adbd", "system/bin/fastbootd",
                   "system/bin/toybox"}
    ensures "system/bin/" <= p
  {
  }

  /**
   * Programs are those the template has, with the other tree's content where it has any, but for five components;
   * libraries are the other tree's; everything else is the template's.
   */
  method Merge<T>(tp: Tree<T>, ci: Tree<T>) returns (f1: Tree<T>)
    ensures f1 == Merged(tp, ci)
    ensures forall p ::
      p in {"system/bin/init", "system/bin/linker64", "system/bin/adbd", "system/bin/fastbootd",
            "system/bin/toybox"} ==>
        (p in f1 <==> p in tp) && (p in tp ==> f1[p] == tp[p])
    ensures forall p ::
      "system/bin/" <= p
      && p !in {"system/bin/init", "system/bin/linker64", "system/bin/adbd", "system/bin/fastbootd",
                "system/bin/toybox"} ==>
        (p in f1 <==> p in tp) && (p in tp ==> f1[p] == if p in ci then ci[p] else tp[p])
    ensures forall p :: "system/lib64/" <= p ==> (p in f1 <==> p in ci) && (p in ci ==> f1[p] == ci[p])
    ensures forall p :: !("system/bin/" <= p) && !("system/lib64/" <= p) ==>
      (p in f1 <==> p in tp) && (p in tp ==> f1[p] == tp[p])
  {
    f1 := MergeSteps(tp, ci);
    forall p {
      MergedMeans(tp, ci, p);
    }
  }

  method MergeSteps<T>(tp: Tree<T>, ci: Tree<T>) returns (f1: Tree<T>)
    ensures f1 == Merged(tp, ci)
  {
    var tpBins := FilesUnder(tp, BIN);
    var tpLibs := FilesUnder(tp, LIB);
    f1 := Overlaid(tp, ci);
    f1 := RemoveCore(f1);
    f1 := Prune(f1, tpBins, tpLibs);
    f1 := Restore(f1, tp, tpBins);
    forall p ensures p in f1 <==> p in Merged(tp, ci) {
      DirsDiffer(p);
    }
    forall p | p in f1 ensures f1[p] == Merged(tp, ci)[p] {
      DirsDiffer(p);
    }
  }

  /** Copy of the template with both directories replaced by the other tree's. */
  method Overlaid<T>(tp: Tree<T>, ci: Tree<T>) returns (f1: Tree<T>)
    ensures forall p :: p in f1 <==> if Under(BIN, p) || Under(LIB, p) then p in ci else p in tp
    ensures forall p :: p in f1 ==> f1[p] == if Under(BIN, p) || Under(LIB, p) then ci[p] else tp[p]
  {
    f1 := tp;
    f1 := WithoutDir(f1, BIN);
    f1 := WithoutDir(f1, LIB);
    f1 := WithDir(f1, ci, BIN);
    f1 := WithDir(f1, ci, LIB);
  }

  method RemoveCore<T>(t: Tree<T>) returns (f1: Tree<T>)
    ensures f1 == map p | p in t && !IsCore(p) :: t[p]
  {
    f1 := t;
    for i := 0 to |CORE_NAMES|
      invariant f1 == map p | p in t && !(exists j :: 0 <= j < i && p == BIN + "/" + CORE_NAMES[j]) :: t[p]
    {
      var p := BIN + "/" + CORE_NAMES[i];
      if p in f1 {
        f1 := f1 - {p};
      }
    }
  }

  /** Drops the files under system/bin that the template does not have; libraries it does not have are kept. */
  method Prune<T>(t: Tree<T>, tpBins: set<Path>, tpLibs: set<Path>) returns (f1: Tree<T>)
    ensures f1 == map p | p in t && !(Under(BIN, p) && p !in tpBins) :: t[p]
  {
    f1 := t;
    var rest := t.Keys;
    while rest != {}
      invariant rest <= t.Keys
      invariant f1 == map p | p in t && (p in rest || !(Under(BIN, p) && p !in tpBins)) :: t[p]
      decreases |rest|
    {
      var p :| p in rest;
      if Under(BIN, p) && p !in tpBins {
        f1 := f1 - {p};
      } else if Under(LIB, p) && p !in tpLibs {
        // kept, for the sake of transitive dependencies
      }
      rest := rest - {p};
    }
  }

  /** Puts back the template's files under system/bin that are missing. */
  method Restore<T>(t: Tree<T>, tp: Tree<T>, tpBins: set<Path>) returns (f1: Tree<T>)
    requires tpBins <= tp.Keys
    ensures f1 == (map p | p in tpBins :: tp[p]) + t
  {
    f1 := t;
    var ciNames := t.Keys;
    var rest := tpBins;
    while rest != {}
      invariant rest <= tpBins
      invariant f1 == (map p | p in tpBins - rest :: tp[p]) + t
      decreases |rest|
    {
      var p :| p in rest;
      if p !in ciNames {
        f1 := f1[p := tp[p]];
      }
      rest := rest - {p};
    }
  }

  // ---------- what the merge means ----------

  /** Runs in which each takes the result of the one before as its template. */
  function MergedAll<T>(tp: Tree<T>, trees: seq<Tree<T>>): Tree<T> {
    if trees == [] then tp else Merged(MergedAll(tp, trees[..|trees| - 1]), trees[|trees| - 1])
  }

  /** What such runs have in common: the last tree's libraries, and each program as the last tree that has it has it. */
  function Stacked<T>(trees: seq<Tree<T>>): Tree<T>
    requires trees != []
  {
    var last := trees[|trees| - 1];
    if |trees| == 1 then last else WithoutDir(Stacked(trees[..|trees| - 1]), LIB) + last
  }

  lemma MergesCompose<T>(tp: Tree<T>, a: Tree<T>, b: Tree<T>)
    ensures Merged(Merged(tp, a), b) == Merged(tp, WithoutDir(a, LIB) + b)
  {
  }

  lemma StackedOnItself<T>(t: Tree<T>)
    ensures WithoutDir(t, LIB) + t == t
  {
  }

  /**
   * Any number of runs is one run: the template's paths outside system/lib64 and its core components survive them all,
   * and no library of an earlier tree does. In particular a tree merged twice might as well be merged once.
   */
  lemma {:induction false} RunsCompose<T>(tp: Tree<T>, trees: seq<Tree<T>>)
    requires trees != []
    ensures MergedAll(tp, trees) == Merged(tp, Stacked(trees))
    ensures MergedAll(tp, trees + [trees[|trees| - 1]]) == MergedAll(tp, trees)
  {
    hide Merged, WithoutDir;
    var n := |trees| - 1;
    if n > 0 {
      RunsCompose(tp, trees[..n]);
      MergesCompose(tp, Stacked(trees[..n]), trees[n]);
    } else {
      assert MergedAll(tp, trees[..n]) == tp;
    }
    var again := trees + [trees[n]];
    assert again[..|again| - 1] == trees;
    MergesCompose(MergedAll(tp, trees[..n]), trees[n], trees[n]);
    StackedOnItself(trees[n]);
  }
}
