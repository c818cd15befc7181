/**
 The temporary-file cleaner: one walk that removes stale files and collects
 directories, then a prune in reverse order of the walk.
 */
module TempCleaner {
  /** A path below the cleaned root; the root itself is the empty path. */
  type Path = seq<string>

  datatype Node = Directory | Regular(modTime: int, size: nat) | Link | Special

  type Tree = map<Path, Node>

  predicate IsBelow(p: Path, d: Path) {
    |d| < |p| && p[..|d|] == d
  }

  function Parent(p: Path): Path
    requires p != []
  {
    p[..|p| - 1]
  }

  /** Every entry has a name, and lies in entries that are not plain files. */
  predicate WellFormed(tree: Tree) {
    forall p :: p in tree ==>
      p != [] && forall k :: 0 < k < |p| ==> p[..k] in tree && !tree[p[..k]].Regular?
  }

  predicate IsScenario(p: Path) {
    p == ["scenarios"] || p == ["scenario"]
  }

  /** A directory the walk goes into and may prune. */
  predicate IsEntered(tree: Tree, p: Path) {
    p in tree && tree[p].Directory? && !IsScenario(p)
  }

  predicate IsVisited(tree: Tree, p: Path) {
    p in tree && forall k :: 0 < k < |p| ==> IsEntered(tree, p[..k])
  }

  predicate IsStale(tree: Tree, cutoff: int, p: Path) {
    p in tree && tree[p].Regular? && tree[p].modTime < cutoff
  }

  /** Nothing below `d` would keep it: only stale files and directories of the same kind. */
  predicate IsPrunable(tree: Tree, cutoff: int, d: Path) {
    IsEntered(tree, d) && forall p :: p in tree && IsBelow(p, d) ==> IsStale(tree, cutoff, p) || IsEntered(tree, p)
  }

  predicate IsDisposable(tree: Tree, cutoff: int, p: Path) {
    IsVisited(tree, p) && (IsStale(tree, cutoff, p) || IsPrunable(tree, cutoff, p))
  }

  /** The recursive reading: a directory goes exactly when each entry in it is stale or goes itself. */
  lemma PrunableRecursively(tree: Tree, cutoff: int, d: Path)
    requires WellFormed(tree) && IsEntered(tree, d)
    ensures IsPrunable(tree, cutoff, d) <==>
            forall c :: c in tree && c != [] && Parent(c) == d ==> IsStale(tree, cutoff, c) || IsPrunable(tree, cutoff, c)
  {
    if IsPrunable(tree, cutoff, d) {
      forall c | c in tree && c != [] && Parent(c) == d
        ensures IsStale(tree, cutoff, c) || IsPrunable(tree, cutoff, c)
      {
        assert IsBelow(c, d);
        forall p | p in tree && IsBelow(p, c)
          ensures IsBelow(p, d)
        {
          assert p[..|d|] == p[..|c|][..|d|];
        }
      }
    } else {
      var p :| p in tree && IsBelow(p, d) && !IsStale(tree, cutoff, p) && !IsEntered(tree, p);
      var c := p[..|d| + 1];
      assert Parent(c) == p[..|d|];
      if c != p {
        assert IsBelow(p, c) && c in tree;
      }
    }
  }

  /** Every entry on the way to `p` is an ordinary directory, and none is a scenario directory of the root. */
  predicate IsReached(tree: Tree, p: Path) {
    p in tree && forall k :: 0 < k < |p| ==> IsOpen(tree, p[..k])
  }

  predicate IsOpen(tree: Tree, d: Path) {
    d in tree && tree[d] == Directory && d != ["scenarios"] && d != ["scenario"]
  }

  predicate IsOld(tree: Tree, cutoff: int, p: Path) {
    p in tree && match tree[p] case Regular(modTime, _) => modTime < cutoff case _ => false
  }

  /**
   What may go: plain files last modified before the cutoff, and directories that
   hold nothing else at any depth, wherever the walk reaches them.
   */
  lemma DisposableIff(tree: Tree, cutoff: int, p: Path)
    ensures IsDisposable(tree, cutoff, p) <==>
            && IsReached(tree, p)
            && (IsOld(tree, cutoff, p)
                || (IsOpen(tree, p)
                    && forall q :: q in tree && |q| > |p| && q[..|p|] == p ==> IsOld(tree, cutoff, q) || IsOpen(tree, q)))
  {
    assert forall q :: IsEntered(tree, q) <==> IsOpen(tree, q);
    assert forall q :: IsStale(tree, cutoff, q) <==> IsOld(tree, cutoff, q);
    assert IsVisited(tree, p) <==> IsReached(tree, p);
  }

  /** Links, scenario directories of the root, all they hold, and whatever leads to them stay. */
  lemma ProtectedStays(tree: Tree, cutoff: int, kept: Path, p: Path)
    requires WellFormed(tree) && kept in tree && p in tree && (tree[kept].Link? || (tree[kept].Directory? && kept in [["scenarios"], ["scenario"]]))
    requires p == kept || IsBelow(p, kept) || IsBelow(kept, p)
    ensures !IsDisposable(tree, cutoff, p)
  {
    if IsBelow(p, kept) {
      assert !IsEntered(tree, p[..|kept|]);
    } else if IsBelow(kept, p) {
      assert !IsStale(tree, cutoff, kept) && !IsEntered(tree, kept);
      assert kept[..|p|] == p;
    }
  }

  // ----------------------------------------------------------------- the walk

  /** The order in which the walk lists entries: each once, and each directory before what it holds. */
  ghost predicate IsWalk(tree: Tree, order: seq<Path>) {
    && (forall p :: p in order <==> p in tree)
    && (forall i, j :: 0 <= i < j < |order| ==> order[i] != order[j] && !IsBelow(order[i], order[j]))
  }

  function StaleFiles(tree: Tree, cutoff: int, order: seq<Path>): seq<Path> {
    if order == [] then []
    else StaleFiles(tree, cutoff, order[..|order| - 1])
         + (var p := order[|order| - 1]; if IsVisited(tree, p) && IsStale(tree, cutoff, p) then [p] else [])
  }

  function EnteredDirectories(tree: Tree, order: seq<Path>): seq<Path> {
    if order == [] then []
    else EnteredDirectories(tree, order[..|order| - 1])
         + (var p := order[|order| - 1]; if IsVisited(tree, p) && IsEntered(tree, p) then [p] else [])
  }

  function TotalSize(tree: Tree, files: seq<Path>): nat {
    if files == [] then 0
    else TotalSize(tree, files[..|files| - 1])
         + (var p := files[|files| - 1]; if p in tree && tree[p].Regular? then tree[p].size else 0)
  }

  lemma {:induction false} StaleMembers(tree: Tree, cutoff: int, order: seq<Path>)
    ensures forall p :: p in StaleFiles(tree, cutoff, order) <==>
                        p in order && IsVisited(tree, p) && IsStale(tree, cutoff, p)
  {
    if order != [] {
      StaleMembers(tree, cutoff, order[..|order| - 1]);
      assert order == order[..|order| - 1] + [order[|order| - 1]];
    }
  }

  /** The files that are listed: those that may go, each once and in the order of the walk. */
  lemma {:induction false} ListedMeaning(tree: Tree, cutoff: int, order: seq<Path>)
    requires forall i, j :: 0 <= i < j < |order| ==> order[i] != order[j]
    ensures var printed := StaleFiles(tree, cutoff, order);
            && (forall p :: p in printed <==> p in order && IsReached(tree, p) && IsOld(tree, cutoff, p))
            && forall i, j :: 0 <= i < j < |printed| ==> ComesBefore(order, printed[i], printed[j])
  {
    if order != [] {
      var most, last := order[..|order| - 1], order[|order| - 1];
      ListedMeaning(tree, cutoff, most);
      assert order == most + [last];
      assert IsVisited(tree, last) <==> IsReached(tree, last);
      assert IsStale(tree, cutoff, last) <==> IsOld(tree, cutoff, last);
      var before, printed := StaleFiles(tree, cutoff, most), StaleFiles(tree, cutoff, order);
      assert printed[..|before|] == before;
      forall i, j | 0 <= i < j < |printed|
        ensures ComesBefore(order, printed[i], printed[j])
      {
        if j < |before| {
          assert ComesBefore(most, before[i], before[j]);
          var a, b :| 0 <= a < b < |most| && most[a] == before[i] && most[b] == before[j];
          assert order[a] == printed[i] && order[b] == printed[j];
        } else {
          assert before[i] in before;
          var a :| 0 <= a < |most| && most[a] == before[i];
          assert order[a] == printed[i] && order[|most|] == printed[j];
        }
      }
    }
  }

  predicate ComesBefore(order: seq<Path>, p: Path, q: Path) {
    exists a, b :: 0 <= a < b < |order| && order[a] == p && order[b] == q
  }

  lemma {:induction false} EnteredMembers(tree: Tree, order: seq<Path>)
    ensures forall p :: p in EnteredDirectories(tree, order) <==> p in order && IsVisited(tree, p) && IsEntered(tree, p)
  {
    if order != [] {
      EnteredMembers(tree, order[..|order| - 1]);
      assert order == order[..|order| - 1] + [order[|order| - 1]];
    }
  }

  /** Collected directories keep the order of the walk: what lies below comes later, and none comes twice. */
  lemma {:induction false} EnteredOrdered(tree: Tree, order: seq<Path>)
    requires forall i, j :: 0 <= i < j < |order| ==> order[i] != order[j] && !IsBelow(order[i], order[j])
    ensures var ds := EnteredDirectories(tree, order);
            forall i, j :: 0 <= i < j < |ds| ==> ds[i] != ds[j] && !IsBelow(ds[i], ds[j])
  {
    if order != [] {
      var most := order[..|order| - 1];
      EnteredOrdered(tree, most);
      EnteredMembers(tree, most);
      var ds := EnteredDirectories(tree, order);
      assert ds[..|EnteredDirectories(tree, most)|] == EnteredDirectories(tree, most);
      forall i, j | 0 <= i < j < |ds|
        ensures ds[i] != ds[j] && !IsBelow(ds[i], ds[j])
      {
        if j == |EnteredDirectories(tree, most)| {
          assert ds[i] in EnteredDirectories(tree, most);
          var k :| 0 <= k < |most| && most[k] == ds[i];
          assert order[k] == ds[i] && order[|order| - 1] == ds[j];
        }
      }
    }
  }

  /** The tree once these paths are gone. */
  function Without(tree: Tree, gone: seq<Path>): Tree {
    tree - set p | p in gone
  }

  lemma WithoutOne(tree: Tree, gone: seq<Path>, p: Path)
    ensures Without(tree, gone + [p]) == Without(tree, gone) - {p}
  {
  }

  lemma TotalSizeOne(tree: Tree, files: seq<Path>, p: Path)
    requires p in tree && tree[p].Regular?
    ensures TotalSize(tree, files + [p]) == TotalSize(tree, files) + tree[p].size
  {
    assert (files + [p])[..|files|] == files;
  }

  // ------------------------------------------------------------- the object

  /** What the walk accumulates. */
  datatype Work = Work(directories: seq<Path>, printed: seq<Path>, fileCount: nat, byteCount: nat, tree: Tree)

  /** What visiting one entry of the tree `before` the walk adds. */
  function Visited(before: Tree, cutoff: int, isPreview: bool, w: Work, path: Path): Work {
    if IsEntered(before, path) then w.(directories := w.directories + [path])
    else if IsStale(before, cutoff, path) then
      Work(w.directories, w.printed + [path], w.fileCount + 1, w.byteCount + before[path].size,
           if isPreview then w.tree else w.tree - {path})
    else w
  }

  /** What the walk has done once it has passed `seen`, from the definitions above. */
  function Walked(before: Tree, cutoff: int, isPreview: bool, seen: seq<Path>): Work {
    var printed := StaleFiles(before, cutoff, seen);
    Work(EnteredDirectories(before, seen), printed, |printed|, TotalSize(before, printed),
         if isPreview then before else Without(before, printed))
  }

  /** The walk goes on by one entry, which it visits unless it lies below a directory that was not entered. */
  lemma WalkStep(before: Tree, cutoff: int, isPreview: bool, seen: seq<Path>, path: Path)
    ensures var w := Walked(before, cutoff, isPreview, seen);
            Walked(before, cutoff, isPreview, seen + [path])
            == if IsVisited(before, path) then Visited(before, cutoff, isPreview, w, path) else w
  {
    var more := seen + [path];
    assert more[..|more| - 1] == seen && more[|more| - 1] == path;
    var printed, entered := StaleFiles(before, cutoff, seen), EnteredDirectories(before, seen);
    assert printed + [] == printed && entered + [] == entered;
    if IsStale(before, cutoff, path) {
      TotalSizeOne(before, printed, path);
      WithoutOne(before, printed, path);
    }
  }

  class TemporaryFileCleanup {
    const cutoff: int
    const isPreview: bool
    var tree: Tree
    var directories: seq<Path>
    var printed: seq<Path>
    var fileCount: nat
    var byteCount: nat
    var prunedCount: nat

    constructor (tree: Tree, cutoff: int, isPreview: bool)
      ensures this.tree == tree && this.cutoff == cutoff && this.isPreview == isPreview
      ensures View() == Work([], [], 0, 0, tree) && prunedCount == 0
    {
      this.cutoff, this.isPreview, this.tree := cutoff, isPreview, tree;
      directories, printed := [], [];
      fileCount, byteCount, prunedCount := 0, 0, 0;
    }

    function View(): Work
      reads this
    {
      Work(directories, printed, fileCount, byteCount, tree)
    }

    /** Removal fails for the paths in `faults`. */
    method Remove(path: Path, faults: set<Path>) returns (ok: bool)
      modifies this`tree
      ensures ok == (path !in faults)
      ensures tree == if ok then old(tree) - {path} else old(tree)
    {
      ok := path !in faults;
      if ok { tree := tree - {path}; }
    }

    /** The walk's callback. */
    method Visit(before: Tree, path: Path, faults: set<Path>) returns (ok: bool)
      requires path in before
      modifies this
      ensures ok == !(IsStale(before, cutoff, path) && !isPreview && path in faults)
      ensures View() == if ok then Visited(before, cutoff, isPreview, old(View()), path) else old(View())
      ensures prunedCount == old(prunedCount)
    {
      ok := true;
      var node := before[path];
      if node.Link? { return; }
      if node.Directory? {
        if IsScenario(path) { return; }
        directories := directories + [path];
        return;
      }
      if !node.Regular? || node.modTime >= cutoff { return; }
      if !isPreview {
        ok := Remove(path, faults);
        if !ok { return; }
      }
      printed := printed + [path];
      fileCount := fileCount + 1;
      byteCount := byteCount + node.size;
    }

    method Walk(order: seq<Path>, faults: set<Path>) returns (ok: bool)
      requires IsWalk(tree, order) && View() == Work([], [], 0, 0, tree)
      modifies this
      ensures prunedCount == old(prunedCount)
      ensures ok ==> View() == Walked(old(tree), cutoff, isPreview, order)
      ensures OnlyStaleGone(old(tree), tree, cutoff)
      ensures ok <== isPreview || faults == {}
    {
      var before := tree;
      ok := true;
      for index := 0 to |order|
        invariant prunedCount == old(prunedCount)
        invariant View() == Walked(before, cutoff, isPreview, order[..index])
      {
        var path := order[index];
        assert path in order && order[..index + 1] == order[..index] + [path];
        WalkStep(before, cutoff, isPreview, order[..index], path);
        StaleGone(before, cutoff, order[..index]);
        if IsVisited(before, path) {
          ok := Visit(before, path, faults);
          if !ok { return; }
        }
      }
      StaleGone(before, cutoff, order[..|order|]);
      assert order[..|order|] == order;
    }

    /** One round of the prune: a collected directory that has become empty is removed. */
    method PruneOne(ghost before: Tree, ghost ds: seq<Path>, ghost index: nat, directory: Path, faults: set<Path>)
      returns (ok: bool)
      requires index < |ds| && directory == ds[index] && WellFormed(before) && CollectedInOrder(before, ds)
      requires IsPruned(before, tree, cutoff, ds, index + 1)
      modifies this`tree, this`prunedCount
      ensures ok ==> IsPruned(before, tree, cutoff, ds, index)
      ensures ok ==> prunedCount == old(prunedCount) + (if IsPrunable(before, cutoff, directory) then 1 else 0)
      ensures !ok ==> tree == old(tree)
      ensures ok <== faults == {}
    {
      var entries := set p | p in tree && p != [] && Parent(p) == directory;
      EmptyMeansPrunable(before, tree, cutoff, ds, index);
      PruneStep(before, tree, cutoff, ds, index, entries);
      ok := true;
      if entries == {} {
        ok := Remove(directory, faults);
        if !ok { return; }
        prunedCount := prunedCount + 1;
      }
    }

    /** Removes, last directory first, every collected directory that has become empty. */
    method Prune(ghost before: Tree, faults: set<Path>) returns (ok: bool)
      requires WellFormed(before) && CollectedInOrder(before, directories)
      requires IsPruned(before, tree, cutoff, directories, |directories|)
      modifies this`tree, this`prunedCount
      ensures ok ==> IsPruned(before, tree, cutoff, directories, 0)
      ensures ok ==> prunedCount == old(prunedCount) + |Prunable(before, cutoff, directories, 0)|
      ensures !ok ==> exists index: nat :: IsPruned(before, tree, cutoff, directories, index)
      ensures ok <== faults == {}
    {
      var index := |directories|;
      ok := true;
      while index > 0
        invariant 0 <= index <= |directories|
        invariant IsPruned(before, tree, cutoff, directories, index)
        invariant prunedCount == old(prunedCount) + |Prunable(before, cutoff, directories, index)|
      {
        index := index - 1;
        PrunableOne(before, cutoff, directories, index);
        ok := PruneOne(before, directories, index, directories[index], faults);
        if !ok { return; }
      }
    }

    /** The whole cleaner: on success exactly the disposable entries are gone, or would be. */
    method Clean(order: seq<Path>, faults: set<Path>) returns (ok: bool)
      requires WellFormed(tree) && IsWalk(tree, order) && View() == Work([], [], 0, 0, tree) && prunedCount == 0
      modifies this
      ensures ok ==> printed == StaleFiles(old(tree), cutoff, order)
      ensures ok ==> fileCount == |printed| && byteCount == TotalSize(old(tree), printed)
      ensures ok && !isPreview ==> forall p :: p in old(tree) ==> (p in tree <==> !IsDisposable(old(tree), cutoff, p))
      ensures ok ==> prunedCount == if isPreview then 0 else |PrunableDirectories(old(tree), cutoff)|
      ensures isPreview ==> ok && tree == old(tree)
      ensures OnlyDisposableGone(old(tree), tree, cutoff)
      ensures ok <== faults == {}
    {
      ghost var before := tree;
      ok := Walk(order, faults);
      if !ok || isPreview { return; }
      WalkedIsPruned(before, cutoff, order);
      ghost var ds := directories;
      ok := Prune(before, faults);
      ghost var index: nat :| IsPruned(before, tree, cutoff, ds, index) && (ok ==> index == 0);
      PrunedIsSafe(before, tree, cutoff, ds, index);
      if ok {
        PrunableIsAll(before, cutoff, ds);
        PrunedIsAll(before, tree, cutoff, ds);
      }
    }
  }

  /** Whatever is gone was disposable; nothing else changed. */
  ghost predicate OnlyDisposableGone(before: Tree, after: Tree, cutoff: int) {
    && (forall p :: p in after ==> p in before && after[p] == before[p])
    && (forall p :: p in before && p !in after ==> IsDisposable(before, cutoff, p))
  }

  /** Stale files are gone, and so are the prunable directories among the last ones. */
  ghost predicate IsPruned(before: Tree, tree: Tree, cutoff: int, directories: seq<Path>, index: nat) {
    && index <= |directories|
    && (forall p :: p in tree ==> p in before && tree[p] == before[p])
    && forall p :: p in before ==>
         (p !in tree <==> (IsVisited(before, p) && IsStale(before, cutoff, p))
                          || (p in directories[index..] && IsPrunable(before, cutoff, p)))
  }

  /** The collected directories, each once, and what lies below one after it. */
  ghost predicate CollectedInOrder(before: Tree, ds: seq<Path>) {
    && (forall p :: p in ds <==> IsVisited(before, p) && IsEntered(before, p))
    && forall i, j :: 0 <= i < j < |ds| ==> ds[i] != ds[j] && !IsBelow(ds[i], ds[j])
  }

  /** The prunable ones among the directories from `index` on. */
  function Prunable(before: Tree, cutoff: int, ds: seq<Path>, index: nat): set<Path>
    requires index <= |ds|
  {
    set p | p in ds[index..] && IsPrunable(before, cutoff, p)
  }

  function PrunableDirectories(tree: Tree, cutoff: int): set<Path> {
    set p | p in tree && IsVisited(tree, p) && IsPrunable(tree, cutoff, p)
  }

  /** The directories that are counted are the disposable ones. */
  lemma PrunedMeaning(tree: Tree, cutoff: int)
    ensures PrunableDirectories(tree, cutoff) == set p | p in tree && tree[p] == Directory && IsDisposable(tree, cutoff, p)
  {
  }

  lemma PrunableOne(before: Tree, cutoff: int, ds: seq<Path>, index: nat)
    requires index < |ds| && CollectedInOrder(before, ds)
    ensures |Prunable(before, cutoff, ds, index)|
         == |Prunable(before, cutoff, ds, index + 1)| + (if IsPrunable(before, cutoff, ds[index]) then 1 else 0)
  {
    assert ds[index..] == [ds[index]] + ds[index + 1..];
    var rest := Prunable(before, cutoff, ds, index + 1);
    assert ds[index] !in ds[index + 1..];
    assert Prunable(before, cutoff, ds, index) == rest + (if IsPrunable(before, cutoff, ds[index]) then {ds[index]} else {});
  }

  lemma PrunableIsAll(before: Tree, cutoff: int, ds: seq<Path>)
    requires CollectedInOrder(before, ds)
    ensures Prunable(before, cutoff, ds, 0) == PrunableDirectories(before, cutoff)
  {
    assert ds[0..] == ds;
  }

  /** Where the prune starts: stale files are gone, no directory is. */
  lemma WalkedIsPruned(before: Tree, cutoff: int, order: seq<Path>)
    requires IsWalk(before, order)
    ensures var ds := EnteredDirectories(before, order);
            && CollectedInOrder(before, ds)
            && IsPruned(before, Without(before, StaleFiles(before, cutoff, order)), cutoff, ds, |ds|)
  {
    StaleMembers(before, cutoff, order);
    EnteredMembers(before, order);
    EnteredOrdered(before, order);
  }

  /** Whatever is gone was a stale file the walk reaches; nothing else changed. */
  ghost predicate OnlyStaleGone(before: Tree, after: Tree, cutoff: int) {
    && (forall p :: p in after ==> p in before && after[p] == before[p])
    && (forall p :: p in before && p !in after ==> IsVisited(before, p) && IsStale(before, cutoff, p))
  }

  lemma StaleGone(tree: Tree, cutoff: int, order: seq<Path>)
    ensures OnlyStaleGone(tree, Without(tree, StaleFiles(tree, cutoff, order)), cutoff)
    ensures OnlyStaleGone(tree, tree, cutoff)
  {
    StaleMembers(tree, cutoff, order);
  }

  lemma PrunedIsSafe(before: Tree, tree: Tree, cutoff: int, directories: seq<Path>, index: nat)
    requires IsPruned(before, tree, cutoff, directories, index)
    requires CollectedInOrder(before, directories)
    ensures OnlyDisposableGone(before, tree, cutoff)
  {
    forall p | p in before && p !in tree
      ensures IsDisposable(before, cutoff, p)
    {
      if p in directories[index..] {
        assert p in directories;
      }
    }
  }

  lemma PrunedIsAll(before: Tree, tree: Tree, cutoff: int, directories: seq<Path>)
    requires IsPruned(before, tree, cutoff, directories, 0)
    requires CollectedInOrder(before, directories)
    ensures forall p :: p in before ==> (p in tree <==> !IsDisposable(before, cutoff, p))
  {
    assert directories[0..] == directories;
  }

  /** One round of the prune, whether or not the directory at `index` still has entries. */
  lemma PruneStep(before: Tree, tree: Tree, cutoff: int, directories: seq<Path>, index: nat, entries: set<Path>)
    requires index < |directories| && IsPruned(before, tree, cutoff, directories, index + 1)
    requires entries == set p | p in tree && p != [] && Parent(p) == directories[index]
    requires (forall c :: c in tree && c != [] ==> Parent(c) != directories[index]) <==> IsPrunable(before, cutoff, directories[index])
    ensures entries == {} <==> IsPrunable(before, cutoff, directories[index])
    ensures IsPruned(before, if entries == {} then tree - {directories[index]} else tree, cutoff, directories, index)
  {
    var d := directories[index];
    assert directories[index..] == [d] + directories[index + 1..];
    assert entries == {} <==> forall c :: c in tree && c != [] ==> Parent(c) != d by {
      if entries == {} {
        forall c | c in tree && c != []
          ensures Parent(c) != d
        {
          assert c !in entries;
        }
      }
    }
  }

  lemma BelowIsLater(before: Tree, directories: seq<Path>, index: nat, c: Path)
    requires index < |directories| && c in directories && IsBelow(c, directories[index])
    requires forall i, j :: 0 <= i < j < |directories| ==> !IsBelow(directories[i], directories[j])
    ensures c in directories[index + 1..]
  {
    var k :| 0 <= k < |directories| && directories[k] == c;
    assert k > index;
    assert directories[index + 1..][k - index - 1] == c;
  }

  lemma VisitedChild(tree: Tree, d: Path, c: Path)
    requires IsVisited(tree, d) && IsEntered(tree, d) && c in tree && c != [] && Parent(c) == d
    ensures IsVisited(tree, c) && IsBelow(c, d)
  {
    forall k | 0 < k < |c|
      ensures IsEntered(tree, c[..k])
    {
      assert c[..k] == d[..k];
      if k == |d| {
        assert d[..k] == d;
      }
    }
  }

  /** Once everything after it is settled, a directory is empty exactly when it is prunable. */
  lemma EmptyMeansPrunable(before: Tree, tree: Tree, cutoff: int, directories: seq<Path>, index: nat)
    requires WellFormed(before) && index < |directories| && IsPruned(before, tree, cutoff, directories, index + 1)
    requires CollectedInOrder(before, directories)
    ensures (forall c :: c in tree && c != [] ==> Parent(c) != directories[index]) <==> IsPrunable(before, cutoff, directories[index])
  {
    var d := directories[index];
    assert d in directories;
    PrunableRecursively(before, cutoff, d);
    forall c | c in before && c != [] && Parent(c) == d
      ensures c !in tree <==> IsStale(before, cutoff, c) || IsPrunable(before, cutoff, c)
    {
      VisitedChild(before, d, c);
      if IsPrunable(before, cutoff, c) {
        assert c in directories;
        BelowIsLater(before, directories, index, c);
      }
    }
  }
}
