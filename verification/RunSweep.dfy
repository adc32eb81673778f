/** The sweep over a run directory: what it leaves, what it removes, and what a
    failed removal leaves for the next attempt. */
module RunSweep {
  import opened RunFiles

  // ---- deepest first ----------------------------------------------------------------

  function InsertByDepth(p: Path, s: seq<Path>): seq<Path> {
    if s == [] || |s[0]| <= |p| then [p] + s else [s[0]] + InsertByDepth(p, s[1..])
  }

  /** sorted(..., key=depth, reverse=True): stable, deepest paths first. */
  function ByDepth(s: seq<Path>): seq<Path> {
    if s == [] then [] else InsertByDepth(s[0], ByDepth(s[1..]))
  }

  predicate DeepestFirst(s: seq<Path>) {
    forall i, j | 0 <= i < j < |s| :: |s[i]| >= |s[j]|
  }

  lemma {:induction false} InsertSorted(p: Path, s: seq<Path>)
    requires DeepestFirst(s)
    ensures DeepestFirst(InsertByDepth(p, s))
    ensures multiset(InsertByDepth(p, s)) == multiset([p]) + multiset(s)
    ensures InsertByDepth(p, s) != [] && |InsertByDepth(p, s)[0]| <= if s == [] || |s[0]| <= |p| then |p| else |s[0]|
  {
    if s != [] && |s[0]| > |p| {
      InsertSorted(p, s[1..]);
      assert s == [s[0]] + s[1..];
      var r := InsertByDepth(p, s[1..]);
      assert InsertByDepth(p, s) == [s[0]] + r;
    }
  }

  lemma {:induction false} SortedByDepth(s: seq<Path>)
    ensures DeepestFirst(ByDepth(s)) && multiset(ByDepth(s)) == multiset(s)
  {
    if s != [] {
      SortedByDepth(s[1..]);
      InsertSorted(s[0], ByDepth(s[1..]));
      assert s == [s[0]] + s[1..];
    }
  }

  // ---- the sweep ------------------------------------------------------------------------

  /** The tree after a sweep, the files removed, and whether one could not be. */
  datatype Swept = Swept(tree: Tree, count: nat, failed: bool)

  predicate Child(dir: Path, x: Path) {
    |x| == |dir| + 1 && x[..|dir|] == dir
  }

  predicate Empty(t: Tree, dir: Path) {
    (forall x | x in t.files :: !Child(dir, x)) && (forall x | x in t.dirs :: !Child(dir, x))
  }

  function Step(s: Swept, p: Path, attempts: seq<string>, faults: set<Path>): Swept {
    if p in s.tree.files then
      if KeptPath(p, attempts) then s
      else if p in faults then s.(failed := true)
      else Swept(s.tree.(files := s.tree.files - {p}), s.count + 1, false)
    else if p in s.tree.dirs && Empty(s.tree, p) then s.(tree := s.tree.(dirs := s.tree.dirs - {p}))
    else s
  }

  /** The loop over the sorted listing; an unlink that raises ends it. */
  function Sweep(t: Tree, listing: seq<Path>, attempts: seq<string>, faults: set<Path>): Swept {
    if listing == [] then Swept(t, 0, false)
    else
      var s := Sweep(t, listing[..|listing| - 1], attempts, faults);
      if s.failed then s else Step(s, listing[|listing| - 1], attempts, faults)
  }

  /** _delete_run_input_files, the local branch. */
  function DeleteInputs(t: Tree, found: seq<Path>, attempts: seq<string>, faults: set<Path>): Swept {
    if !t.present then Swept(t, 0, false)
    else
      var s := Sweep(t, ByDepth(found), attempts, faults);
      if !s.failed && s.tree.files == {} && s.tree.dirs == {} then s.(tree := Tree(false, {}, {})) else s
  }

  /** Run directories, and the method that sweeps one of them in place. */
  class RunStore {
    var trees: seq<Tree>

    constructor (initial: seq<Tree>)
      ensures trees == initial
    {
      trees := initial;
    }

    method DeleteRunInputs(run: nat, found: seq<Path>, attempts: seq<string>, faults: set<Path>)
      returns (failed: bool, count: nat)
      requires run < |trees|
      modifies this
      ensures var r := DeleteInputs(old(trees[run]), found, attempts, faults);
              trees == old(trees)[run := r.tree] && failed == r.failed && count == r.count
    {
      hide KeptPath, Child, Empty;
      failed, count := false, 0;
      var tree := trees[run];
      if !tree.present {
        return;
      }
      var listing := ByDepth(found);
      for i := 0 to |listing|
        invariant trees == old(trees)[run := tree]
        invariant Sweep(old(trees[run]), listing[..i], attempts, faults) == Swept(tree, count, false)
        invariant !failed
      {
        var p := listing[i];
        assert listing[..i + 1][..i] == listing[..i];
        if p in tree.files {
          if !KeptPath(p, attempts) {
            if p in faults {
              SweepStops(old(trees[run]), listing, i + 1, attempts, faults);
              failed := true;
              return;
            }
            tree := tree.(files := tree.files - {p});
            count := count + 1;
          }
        } else if p in tree.dirs && Empty(tree, p) {
          tree := tree.(dirs := tree.dirs - {p});
        }
        trees := trees[run := tree];
      }
      assert listing[..|listing|] == listing;
      if tree.files == {} && tree.dirs == {} {
        tree := Tree(false, {}, {});
        trees := trees[run := tree];
      }
    }
  }

  lemma {:induction false} SweepStops(t: Tree, listing: seq<Path>, n: nat, attempts: seq<string>, faults: set<Path>)
    requires n <= |listing| && Sweep(t, listing[..n], attempts, faults).failed
    ensures Sweep(t, listing, attempts, faults) == Sweep(t, listing[..n], attempts, faults)
  {
    hide Step;
    if n == |listing| {
      assert listing[..n] == listing;
    } else {
      var front := listing[..|listing| - 1];
      assert front[..n] == listing[..n];
      SweepStops(t, front, n, attempts, faults);
    }
  }

  // ---- what a sweep leaves ----------------------------------------------------------------

  /** Every entry's parent is the run directory or one of its directories. */
  predicate WellFormed(t: Tree) {
    && (t.present || (t.files == {} && t.dirs == {}))
    && t.files !! t.dirs
    && (forall x | x in t.files :: Housed(t, x))
    && (forall x | x in t.dirs :: Housed(t, x))
  }

  predicate Housed(t: Tree, x: Path) {
    x != [] && (|x| == 1 || x[..|x| - 1] in t.dirs)
  }

  /** rglob("*"): every entry once, in any order. */
  ghost predicate Lists(found: seq<Path>, t: Tree) {
    && (forall x :: x in found <==> x in t.files || x in t.dirs)
    && (forall i, j | 0 <= i < j < |found| :: found[i] != found[j])
  }

  predicate Below(dir: Path, f: Path) {
    |f| > |dir| && f[..|dir|] == dir
  }

  predicate KeptBelow(t: Tree, dir: Path, attempts: seq<string>) {
    exists f | f in t.files :: KeptPath(f, attempts) && Below(dir, f)
  }

  /** The tree once the listed paths have been dealt with. */
  ghost function After(t: Tree, done: seq<Path>, attempts: seq<string>): Tree {
    Tree(t.present,
         set f | f in t.files && (f !in done || KeptPath(f, attempts)),
         set d | d in t.dirs && (d !in done || KeptBelow(t, d, attempts)))
  }

  lemma {:induction false} PrefixIsDirectory(t: Tree, f: Path, n: nat)
    requires WellFormed(t) && (f in t.files || f in t.dirs) && 1 <= n < |f|
    ensures f[..n] in t.dirs
    decreases |f|
  {
    assert Housed(t, f);
    var parent := f[..|f| - 1];
    if n < |parent| {
      PrefixIsDirectory(t, parent, n);
      assert parent[..n] == f[..n];
    }
  }

  /** Paths deeper than the next one have been dealt with. */
  lemma DeeperIsDone(listing: seq<Path>, n: nat, x: Path)
    requires DeepestFirst(listing) && n < |listing| && x in listing && |x| > |listing[n]|
    ensures x in listing[..n]
  {
    var j :| 0 <= j < |listing| && listing[j] == x;
    assert j < n;
    assert listing[..n][j] == x;
  }

  /** A file that still stands after its turn was kept. */
  lemma StandingFile(t: Tree, listing: seq<Path>, n: nat, attempts: seq<string>, x: Path)
    requires DeepestFirst(listing) && n < |listing| && Lists(listing, t)
    requires x in After(t, listing[..n], attempts).files && Child(listing[n], x)
    ensures KeptBelow(t, listing[n], attempts)
  {
    hide KeptPath, DeepestFirst;
    DeeperIsDone(listing, n, x);
    assert KeptPath(x, attempts) && Below(listing[n], x);
  }

  lemma StandingDirectory(t: Tree, listing: seq<Path>, n: nat, attempts: seq<string>, x: Path)
    requires DeepestFirst(listing) && n < |listing| && Lists(listing, t)
    requires x in After(t, listing[..n], attempts).dirs && Child(listing[n], x)
    ensures KeptBelow(t, listing[n], attempts)
  {
    hide KeptPath, DeepestFirst;
    DeeperIsDone(listing, n, x);
    assert KeptBelow(t, x, attempts);
    var f :| f in t.files && KeptPath(f, attempts) && Below(x, f);
    BelowBelow(listing[n], x, f);
  }

  lemma BelowBelow(dir: Path, x: Path, f: Path)
    requires Child(dir, x) && Below(x, f)
    ensures Below(dir, f)
  {
    assert f[..|dir|] == f[..|x|][..|dir|];
  }

  /** A directory above a kept file has a child on the way to it. */
  lemma KeptKeepsFull(t: Tree, listing: seq<Path>, n: nat, attempts: seq<string>)
    requires WellFormed(t) && n < |listing| && KeptBelow(t, listing[n], attempts)
    ensures !Empty(After(t, listing[..n], attempts), listing[n])
  {
    hide KeptPath, WellFormed;
    var dir := listing[n];
    var f :| f in t.files && KeptPath(f, attempts) && Below(dir, f);
    var x := f[..|dir| + 1];
    assert Child(dir, x) by { assert x[..|dir|] == f[..|dir|]; }
    var now := After(t, listing[..n], attempts);
    if |x| == |f| {
      assert x == f && f in now.files;
    } else {
      PrefixIsDirectory(t, f, |x|);
      assert Below(x, f) && KeptBelow(t, x, attempts);
      assert x in now.dirs;
    }
  }

  /** When a directory's turn comes it is empty exactly when no kept file lies
      below it: this is where the order matters. */
  lemma EmptyAtItsTurn(t: Tree, listing: seq<Path>, n: nat, attempts: seq<string>)
    requires WellFormed(t) && DeepestFirst(listing) && n < |listing| && Lists(listing, t)
    ensures Empty(After(t, listing[..n], attempts), listing[n]) <==> !KeptBelow(t, listing[n], attempts)
  {
    hide KeptPath, KeptBelow, WellFormed, DeepestFirst, Lists, After, Child;
    var now := After(t, listing[..n], attempts);
    if KeptBelow(t, listing[n], attempts) {
      KeptKeepsFull(t, listing, n, attempts);
    } else if x :| x in now.files && Child(listing[n], x) {
      StandingFile(t, listing, n, attempts, x);
    } else if x :| x in now.dirs && Child(listing[n], x) {
      StandingDirectory(t, listing, n, attempts, x);
    }
  }

  lemma NextStep(t: Tree, listing: seq<Path>, n: nat, attempts: seq<string>, faults: set<Path>, count: nat)
    requires WellFormed(t) && DeepestFirst(listing) && n < |listing|
    requires Lists(listing, t)
    requires count == |t.files - After(t, listing[..n], attempts).files|
    ensures var s := Step(Swept(After(t, listing[..n], attempts), count, false), listing[n], attempts, faults);
            var stuck := listing[n] in t.files && !KeptPath(listing[n], attempts) && listing[n] in faults;
            && s.failed == stuck
            && (stuck ==> s.tree == After(t, listing[..n], attempts))
            && (!stuck ==> s.tree == After(t, listing[..n + 1], attempts)
                           && s.count == |t.files - After(t, listing[..n + 1], attempts).files|)
  {
    hide KeptPath, WellFormed, DeepestFirst, Child, Empty;
    var p := listing[n];
    var now, next := After(t, listing[..n], attempts), After(t, listing[..n + 1], attempts);
    assert p !in listing[..n];
    assert forall x :: x in listing[..n + 1] <==> x in listing[..n] || x == p by {
      assert listing[..n + 1] == listing[..n] + [p];
    }
    if p in t.files {
      assert p in now.files && next.dirs == now.dirs by { FilesAndDirs(t, p); }
      if KeptPath(p, attempts) {
        assert next.files == now.files;
      } else {
        assert next.files == now.files - {p};
        assert t.files - next.files == (t.files - now.files) + {p};
      }
    } else {
      assert p in t.dirs && p in now.dirs;
      EmptyAtItsTurn(t, listing, n, attempts);
      assert next.files == now.files;
      assert next.dirs == if KeptBelow(t, p, attempts) then now.dirs else now.dirs - {p};
    }
  }

  lemma FilesAndDirs(t: Tree, p: Path)
    requires WellFormed(t) && p in t.files
    ensures p !in t.dirs
  {
  }

  /** A sweep ends in the state after some prefix of the listing: all of it
      unless an unlink raised. */
  lemma {:induction false} SweepReaches(t: Tree, listing: seq<Path>, n: nat, attempts: seq<string>, faults: set<Path>)
    returns (m: nat)
    requires WellFormed(t) && DeepestFirst(listing) && n <= |listing|
    requires Lists(listing, t)
    ensures m <= n
    ensures var s := Sweep(t, listing[..n], attempts, faults);
            && s.tree == After(t, listing[..m], attempts)
            && (!s.failed ==> m == n && s.count == |t.files - s.tree.files|)
            && (s.failed <==> exists i | 0 <= i < n :: Stuck(t, listing[i], attempts, faults))
    decreases n
  {
    hide WellFormed, DeepestFirst, Lists, After, Step, Stuck, Sweep;
    if n == 0 {
      m := 0;
      NothingDone(t, attempts);
      SweepOfNothing(t, listing, attempts, faults);
    } else {
      m := SweepReaches(t, listing, n - 1, attempts, faults);
      SweepNext(t, listing, n - 1, attempts, faults);
      var before := Sweep(t, listing[..n - 1], attempts, faults);
      if !before.failed {
        NextStep(t, listing, n - 1, attempts, faults, before.count);
        StuckMeans(t, listing[n - 1], attempts, faults);
        if !Sweep(t, listing[..n], attempts, faults).failed {
          m := n;
        }
      }
    }
  }

  lemma SweepOfNothing(t: Tree, listing: seq<Path>, attempts: seq<string>, faults: set<Path>)
    ensures listing[..0] == [] && Sweep(t, listing[..0], attempts, faults) == Swept(t, 0, false)
  {
  }

  lemma SweepNext(t: Tree, listing: seq<Path>, n: nat, attempts: seq<string>, faults: set<Path>)
    requires n < |listing|
    ensures var s := Sweep(t, listing[..n], attempts, faults);
            Sweep(t, listing[..n + 1], attempts, faults) == if s.failed then s
                else Step(s, listing[n], attempts, faults)
  {
    hide Step;
    assert listing[..n + 1][..n] == listing[..n];
  }

  predicate Stuck(t: Tree, p: Path, attempts: seq<string>, faults: set<Path>) {
    p in t.files && !KeptPath(p, attempts) && p in faults
  }

  lemma StuckMeans(t: Tree, p: Path, attempts: seq<string>, faults: set<Path>)
    ensures Stuck(t, p, attempts, faults) <==> p in t.files && !KeptPath(p, attempts) && p in faults
  {
  }

  lemma NothingDone(t: Tree, attempts: seq<string>)
    ensures After(t, [], attempts) == t && |t.files - After(t, [], attempts).files| == 0
  {
    assert After(t, [], attempts).files == t.files && After(t, [], attempts).dirs == t.dirs;
  }

  // ---- main results ------------------------------------------------------------------------

  lemma SortedLists(t: Tree, found: seq<Path>)
    requires Lists(found, t)
    ensures DeepestFirst(ByDepth(found)) && Lists(ByDepth(found), t)
  {
    hide DeepestFirst;
    SortedByDepth(found);
    SameMembers(found, ByDepth(found));
  }

  lemma SameMembers(s: seq<Path>, r: seq<Path>)
    requires multiset(s) == multiset(r)
    requires forall i, j | 0 <= i < j < |s| :: s[i] != s[j]
    ensures forall x :: x in s <==> x in r
    ensures forall i, j | 0 <= i < j < |r| :: r[i] != r[j]
  {
    forall x
      ensures x in s <==> x in r
    {
      assert x in multiset(s) <==> x in multiset(r);
    }
    forall i, j | 0 <= i < j < |r|
      ensures r[i] != r[j]
    {
      if r[i] == r[j] {
        CountTwice(r, i, j);
        CountOnce(s, r[i]);
      }
    }
  }

  lemma CountTwice(s: seq<Path>, i: nat, j: nat)
    requires i < j < |s| && s[i] == s[j]
    ensures multiset(s)[s[i]] >= 2
  {
    assert s == s[..j] + [s[j]] + s[j + 1..];
    assert s[i] in s[..j];
    assert s[i] in multiset(s[..j]);
  }

  lemma {:induction false} CountOnce(s: seq<Path>, x: Path)
    requires forall i, j | 0 <= i < j < |s| :: s[i] != s[j]
    ensures multiset(s)[x] <= 1
  {
    if s != [] {
      var front, last := s[..|s| - 1], s[|s| - 1];
      CountOnce(front, x);
      assert s == front + [last];
      assert forall i | 0 <= i < |front| :: front[i] == s[i];
      assert last !in front;
    }
  }

  /** The declared result: kept files, the directories above them, and the run
      directory itself when one is left. */
  ghost function Remains(t: Tree, attempts: seq<string>): Tree {
    var files := set f | f in t.files && KeptPath(f, attempts);
    Tree(t.present && files != {}, files, set d | d in t.dirs && KeptBelow(t, d, attempts))
  }

  lemma AllDone(t: Tree, listing: seq<Path>, attempts: seq<string>)
    requires Lists(listing, t)
    ensures var r := After(t, listing, attempts);
              r.files == Remains(t, attempts).files && r.dirs == Remains(t, attempts).dirs
    ensures Remains(t, attempts).files == {} ==> Remains(t, attempts).dirs == {}
  {
    hide KeptPath;
    if d :| d in Remains(t, attempts).dirs {
      var f :| f in t.files && KeptPath(f, attempts) && Below(d, f);
      assert f in Remains(t, attempts).files;
    }
  }

  /** An attempt leaves exactly the declared remains and counts the files it
      removed, unless some file that must go cannot be unlinked, and then it fails. */
  lemma DeleteIsExact(t: Tree, found: seq<Path>, attempts: seq<string>, faults: set<Path>)
    requires WellFormed(t) && Lists(found, t)
    ensures var r := DeleteInputs(t, found, attempts, faults);
            && (r.failed <==> exists f :: Stuck(t, f, attempts, faults))
            && (!r.failed ==> r.tree == Remains(t, attempts) && r.count == |t.files - r.tree.files|)
  {
    hide WellFormed, DeepestFirst, Sweep, After, Remains, ByDepth, Stuck;
    SortedLists(t, found);
    var listing := ByDepth(found);
    StuckIsFile(t, attempts, faults);
    if t.present {
      var m := SweepReaches(t, listing, |listing|, attempts, faults);
      assert listing[..|listing|] == listing;
      AllDone(t, listing, attempts);
      RemainsPresent(t, attempts);
      AfterPresent(t, listing, attempts);
      var s := Sweep(t, listing, attempts, faults);
      if !s.failed {
        assert s.tree == After(t, listing, attempts);
      }
    } else {
      NothingRemains(t, attempts);
    }
  }

  lemma StuckIsFile(t: Tree, attempts: seq<string>, faults: set<Path>)
    ensures forall f | Stuck(t, f, attempts, faults) :: f in t.files
  {
  }

  lemma RemainsPresent(t: Tree, attempts: seq<string>)
    ensures Remains(t, attempts).present == (t.present && Remains(t, attempts).files != {})
  {
  }

  lemma AfterPresent(t: Tree, done: seq<Path>, attempts: seq<string>)
    ensures After(t, done, attempts).present == t.present
  {
  }

  lemma NothingRemains(t: Tree, attempts: seq<string>)
    requires WellFormed(t) && !t.present
    ensures t == Tree(false, {}, {}) && |t.files - t.files| == 0
    ensures Remains(t, attempts) == Tree(false, {}, {})
  {
  }

  // ---- attempts that fail, and attempts repeated ---------------------------------------------

  lemma ParentStands(t: Tree, listing: seq<Path>, n: nat, attempts: seq<string>, x: Path)
    requires DeepestFirst(listing) && Lists(listing, t) && n <= |listing|
    requires Housed(t, x) && |x| > 1 && x in listing
    requires x in listing[..n] ==> (x in t.files && KeptPath(x, attempts)) || KeptBelow(t, x, attempts)
    ensures x[..|x| - 1] in After(t, listing[..n], attempts).dirs
  {
    hide KeptPath, DeepestFirst;
    var parent := x[..|x| - 1];
    if parent in listing[..n] {
      var j :| 0 <= j < n && listing[..n][j] == parent;
      DeeperIsDone(listing, j, x);
      assert x in listing[..n] by { assert listing[..j] <= listing[..n]; }
      if x in t.files && KeptPath(x, attempts) {
        assert Below(parent, x);
      } else {
        var f :| f in t.files && KeptPath(f, attempts) && Below(x, f);
        BelowBelow(parent, x, f);
      }
    }
  }

  lemma AfterIsWellFormed(t: Tree, listing: seq<Path>, n: nat, attempts: seq<string>)
    requires WellFormed(t) && DeepestFirst(listing) && Lists(listing, t) && n <= |listing|
    ensures WellFormed(After(t, listing[..n], attempts))
  {
    hide KeptPath, KeptBelow, DeepestFirst;
    var r := After(t, listing[..n], attempts);
    forall x | x in r.files || x in r.dirs
      ensures Housed(r, x)
    {
      assert Housed(t, x);
      if |x| > 1 {
        ParentStands(t, listing, n, attempts, x);
      }
    }
  }

  lemma AfterKeeps(t: Tree, done: seq<Path>, attempts: seq<string>)
    ensures var r := After(t, done, attempts);
            r.files <= t.files && r.dirs <= t.dirs && forall f | f in t.files && KeptPath(f, attempts) :: f in r.files
  {
  }

  /** Failed or not, an attempt never touches a kept file, never adds anything,
      and leaves a tree the next attempt can work on. */
  lemma DeleteKeeps(t: Tree, found: seq<Path>, attempts: seq<string>, faults: set<Path>)
    requires WellFormed(t) && Lists(found, t)
    ensures var r := DeleteInputs(t, found, attempts, faults).tree;
            && WellFormed(r) && r.files <= t.files && r.dirs <= t.dirs
            && forall f | f in t.files && KeptPath(f, attempts) :: f in r.files
  {
    hide WellFormed, DeepestFirst, Sweep, After, ByDepth, KeptPath;
    SortedLists(t, found);
    var listing := ByDepth(found);
    if t.present {
      var m := SweepReaches(t, listing, |listing|, attempts, faults);
      assert listing[..|listing|] == listing;
      AfterKeeps(t, listing[..m], attempts);
      AfterIsWellFormed(t, listing, m, attempts);
      NoTree();
    }
  }

  lemma NoTree()
    ensures WellFormed(Tree(false, {}, {}))
  {
  }

  /** Deleting again finds nothing more to delete. */
  lemma DeleteTwice(t: Tree, found: seq<Path>, again: seq<Path>, attempts: seq<string>)
    requires WellFormed(t) && Lists(found, t)
    requires Lists(again, DeleteInputs(t, found, attempts, {}).tree)
    ensures var r := DeleteInputs(t, found, attempts, {}).tree;
              DeleteInputs(r, again, attempts, {}) == Swept(r, 0, false)
  {
    hide WellFormed, Lists, DeleteInputs, KeptPath;
    DeleteIsExact(t, found, attempts, {});
    DeleteKeeps(t, found, attempts, {});
    var r := DeleteInputs(t, found, attempts, {}).tree;
    DeleteIsExact(r, again, attempts, {});
    RemainsTwice(t, attempts);
    assert r.files - r.files == {};
  }

  lemma RemainsTwice(t: Tree, attempts: seq<string>)
    ensures Remains(Remains(t, attempts), attempts) == Remains(t, attempts)
  {
    hide KeptPath;
    var r := Remains(t, attempts);
    assert Remains(r, attempts).files == r.files;
    forall d | d in r.dirs
      ensures KeptBelow(r, d, attempts)
    {
      var f :| f in t.files && KeptPath(f, attempts) && Below(d, f);
      assert f in r.files;
    }
    assert Remains(r, attempts).dirs == r.dirs;
  }
}
