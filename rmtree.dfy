/** `rmtree`: removes the tree at a path on the device, depth-first. In each directory it first
    removes the subdirectories in sorted order, then the files in sorted order, and then the
    directory itself, unless it is the root. */
module TreeRemoval {
  import opened Errors
  import opened Seqs
  import opened Sorting
  import opened Paths
  import opened Device
  import opened Listing
  import opened RemoteFs

  /** `relpath` with one trailing `/` removed, unless it is the root. */
  function Normalize(relpath: string): (r: string)
    ensures r == relpath || (relpath == r + "/" && relpath != "/")
    ensures StartsWith(relpath, "/") ==> StartsWith(r, "/")
  {
    if relpath != "/" && EndsWith(relpath, "/") then relpath[..|relpath| - 1] else relpath
  }

  /** The keys of `keys` in the tree of `d`, `d` included: what bounds the recursion. */
  function Subtree(keys: set<string>, d: string): set<string> {
    set k | k in keys && InTree(k, d)
  }

  /** The filesystem once the tree at `d` is gone: everything below `d`, and `d` unless it is the
      root. */
  function Pruned(fs: Fs, d: string): Fs {
    map k | k in fs && !Doomed(k, d) :: fs[k]
  }

  /** The names of the entries of type `kind` in a listing, in the order `rmtree` visits them:
      `sorted(dnames)` or `sorted(fnames)`. The device's own order does not matter (see
      `VisitAnyOrder`). */
  ghost function Visit(listing: set<Entry>, kind: int): seq<string> {
    SortNames(Collect(Enumerate(listing), kind, Name))
  }

  /** `rmtree(p, isdir=True)` from the filesystem `fs`: the filesystem it leaves, the changes it
      makes, and how it ends. */
  ghost function RmtreeAt(fs: Fs, p: string): (r: (Fs, seq<Op>, Outcome))
    ensures r.0.Keys <= fs.Keys
    decreases |Subtree(fs.Keys, p)|, 1, 0
  {
    match ListOn(fs, p)
    case Raised(m) => (fs, [], Failed(Fault(m)))
    case Value(listing) =>
      VisitedChildren(fs, p, ST_TYPE_DIRECTORY);
      Finish(p, RmDirs(fs, fs, p, Visit(listing, ST_TYPE_DIRECTORY)), Visit(listing, ST_TYPE_FILE))
  }

  /** What follows the directory loop when it ends without error: the file loop, then `rmdir` of
      `p` unless it is the root. */
  function Finish(p: string, dirs: (Fs, seq<Op>, Outcome), fns: seq<string>): (r: (Fs, seq<Op>, Outcome))
    ensures r.0.Keys <= dirs.0.Keys
  {
    if dirs.2.Failed? then dirs
    else
      var rest := AfterDirs(dirs.0, p, fns);
      (rest.0, dirs.1 + rest.1, rest.2)
  }

  /** The file loop, then `rmdir` of `p` unless it is the root, from the filesystem `fs` the
      directory loop leaves. */
  function AfterDirs(fs: Fs, p: string, fns: seq<string>): (r: (Fs, seq<Op>, Outcome))
    ensures r.0.Keys <= fs.Keys
  {
    var files := RmFiles(fs, p, fns);
    if files.2.Failed? || p == "/" then files
    else
      var last := RmdirOn(files.0, p);
      (last.1, files.1 + (if Expect(last.0).Done? then [RemovedDir(p)] else []), Expect(last.0))
  }

  /** The loop over `sorted(dnames)`: `rmtree` of each subdirectory in turn, stopping at the first
      failure. `fs0` is the filesystem the directory `p` was listed in. */
  ghost function RmDirs(fs0: Fs, fs: Fs, p: string, ds: seq<string>): (r: (Fs, seq<Op>, Outcome))
    requires p in fs0 && fs.Keys <= fs0.Keys
    requires forall d | d in ds :: IsName(d)
    ensures r.0.Keys <= fs.Keys
    decreases |Subtree(fs0.Keys, p)|, 0, |ds|
  {
    if ds == [] then (fs, [], Done)
    else
      MeasureDrops(fs0, fs, p, ds[0]);
      var sub := RmtreeAt(fs, Join(p, ds[0]));
      if sub.2.Failed? then sub
      else
        var rest := RmDirs(fs0, sub.0, p, ds[1..]);
        (rest.0, sub.1 + rest.1, rest.2)
  }

  /** The loop over `sorted(fnames)`: `rm` of each file in turn, stopping at the first failure. */
  function RmFiles(fs: Fs, p: string, ns: seq<string>): (r: (Fs, seq<Op>, Outcome))
    ensures r.0.Keys <= fs.Keys
  {
    if ns == [] then (fs, [], Done)
    else
      var step := RemoveOn(fs, Join(p, ns[0]));
      if Expect(step.0).Done? then
        var rest := RmFiles(step.1, p, ns[1..]);
        (rest.0, [Removed(Join(p, ns[0]))] + rest.1, rest.2)
      else (fs, [], Expect(step.0))
  }

  /** `rmtree(relpath)`. */
  method Rmtree(dev: Device, relpath: string) returns (o: Outcome)
    requires dev.Valid()
    modifies dev`fs, dev`trace
    ensures dev.Valid()
    ensures relpath == "" || !StartsWith(relpath, "/") ==>
      o.Failed? && o.error.Rejected? && dev.fs == old(dev.fs) && dev.trace == old(dev.trace)
    ensures relpath != "" && StartsWith(relpath, "/") && Normalize(relpath) !in old(dev.fs) ==>
      o == Failed(NoSuchPath(Normalize(relpath))) && dev.fs == old(dev.fs) && dev.trace == old(dev.trace)
    ensures relpath != "" && StartsWith(relpath, "/") && Normalize(relpath) in old(dev.fs) ==>
      o == Done && dev.fs == Pruned(old(dev.fs), Normalize(relpath))
    ensures relpath != "" && StartsWith(relpath, "/") && Normalize(relpath) in old(dev.fs) ==>
      var p := Normalize(relpath);
      dev.trace == old(dev.trace) + (if old(dev.fs)[p].Dir? then RmtreeAt(old(dev.fs), p).1 else [Removed(p)])
  {
    if relpath == "" || !StartsWith(relpath, "/") {
      return Failed(Rejected("relpath and relpath.startswith('/')"));
    }
    var p := Normalize(relpath);
    var st := Stat(dev, p);
    if st.value.None? {
      return Failed(NoSuchPath(p));
    }
    if st.value.value.isdir {
      ghost var fs0 := dev.fs;
      o := RmtreeDir(dev, p);
      RmtreeAtDone(fs0, p);
    } else {
      PrunedFile(dev.fs, p);
      o := Rm(dev, p);
    }
  }

  /** `rmtree(p, isdir=True)`. The recursive calls of the source pass paths that start with `/`
      and do not end with it, so their argument check passes and normalising changes nothing. */
  method RmtreeDir(dev: Device, p: string) returns (o: Outcome)
    requires dev.Valid()
    modifies dev`fs, dev`trace
    ensures dev.Valid()
    ensures var r := RmtreeAt(old(dev.fs), p);
      dev.fs == r.0 && dev.trace == old(dev.trace) + r.1 && o == r.2
    decreases |Subtree(dev.fs.Keys, p)|, 1, 0
  {
    ghost var fs0 := dev.fs;
    var reply := dev.Ilistdir(p);
    if reply.Raised? {
      return Failed(Fault(reply.message));
    }
    var dnames, fnames := Partition(reply.value);
    VisitAnyOrder(reply.value, ListOn(fs0, p).value, ST_TYPE_DIRECTORY);
    VisitAnyOrder(reply.value, ListOn(fs0, p).value, ST_TYPE_FILE);
    var ds := SortNames(dnames);
    var fns := SortNames(fnames);
    RmtreeAtListed(fs0, p, ds, fns);
    o := RemoveDirs(dev, fs0, p, ds);
    if o.Failed? {
      return;
    }
    ghost var dirs := RmDirs(fs0, fs0, p, ds);
    o := RemoveRest(dev, p, fns);
    AppendAssoc(old(dev.trace), dirs.1, AfterDirs(dirs.0, p, fns).1);
  }

  /** What `rmtree(p, isdir=True)` does after its directory loop: the file loop, then `rmdir`
      of `p` unless it is the root. */
  method RemoveRest(dev: Device, p: string, fns: seq<string>) returns (o: Outcome)
    requires dev.Valid()
    modifies dev`fs, dev`trace
    ensures dev.Valid()
    ensures var r := AfterDirs(old(dev.fs), p, fns);
      dev.fs == r.0 && dev.trace == old(dev.trace) + r.1 && o == r.2
  {
    o := RemoveFiles(dev, p, fns);
    if o.Failed? || p == "/" {
      return;
    }
    ghost var files := RmFiles(old(dev.fs), p, fns);
    ghost var last := RmdirOn(files.0, p);
    o := Rmdir(dev, p);
    EmptyAppend(files.1);
    AppendAssoc(old(dev.trace), files.1, if Expect(last.0).Done? then [RemovedDir(p)] else []);
  }

  /** The loop over `sorted(dnames)` of `rmtree`, for the directory `p` listed in `fs0`. */
  method RemoveDirs(dev: Device, ghost fs0: Fs, p: string, ds: seq<string>) returns (o: Outcome)
    requires dev.Valid() && p in fs0 && dev.fs.Keys <= fs0.Keys
    requires forall d | d in ds :: IsName(d)
    modifies dev`fs, dev`trace
    ensures dev.Valid()
    ensures var r := RmDirs(fs0, old(dev.fs), p, ds);
      dev.fs == r.0 && dev.trace == old(dev.trace) + r.1 && o == r.2
    decreases |Subtree(fs0.Keys, p)|, 0, |ds|
  {
    ghost var goal := RmDirs(fs0, dev.fs, p, ds);
    ghost var done: seq<Op> := [];
    EmptyAppend(ds);
    EmptyAppend(goal.1);
    EmptyAppend(old(dev.trace));
    o := Done;
    for i := 0 to |ds|
      invariant dev.Valid() && dev.fs.Keys <= fs0.Keys
      invariant dev.trace == old(dev.trace) + done
      invariant var r := RmDirs(fs0, dev.fs, p, ds[i..]); goal == (r.0, done + r.1, r.2)
    {
      MeasureDrops(fs0, dev.fs, p, ds[i]);
      RmDirsUnfold(fs0, dev.fs, p, ds, i);
      ghost var before := dev.fs;
      o := RmtreeDir(dev, Join(p, ds[i]));
      ghost var sub := RmtreeAt(before, Join(p, ds[i]));
      AppendAssoc(old(dev.trace), done, sub.1);
      if o.Failed? {
        return;
      }
      ghost var rest := RmDirs(fs0, sub.0, p, ds[i + 1..]);
      AppendAssoc(done, sub.1, rest.1);
      done := done + sub.1;
    }
    assert ds[|ds|..] == [];
    EmptyAppend(done);
    o := Done;
  }

  /** The loop over `sorted(fnames)` of `rmtree`. */
  method RemoveFiles(dev: Device, p: string, fns: seq<string>) returns (o: Outcome)
    requires dev.Valid()
    modifies dev`fs, dev`trace
    ensures dev.Valid()
    ensures var r := RmFiles(old(dev.fs), p, fns);
      dev.fs == r.0 && dev.trace == old(dev.trace) + r.1 && o == r.2
  {
    ghost var goal := RmFiles(dev.fs, p, fns);
    ghost var done: seq<Op> := [];
    EmptyAppend(fns);
    EmptyAppend(goal.1);
    EmptyAppend(old(dev.trace));
    for i := 0 to |fns|
      invariant dev.Valid()
      invariant dev.trace == old(dev.trace) + done
      invariant var r := RmFiles(dev.fs, p, fns[i..]); goal == (r.0, done + r.1, r.2)
    {
      RmFilesUnfold(dev.fs, p, fns, i);
      o := Rm(dev, Join(p, fns[i]));
      if o.Failed? {
        EmptyAppend(done);
        return;
      }
      ghost var rest := RmFiles(dev.fs, p, fns[i + 1..]);
      AppendAssoc(done, [Removed(Join(p, fns[i]))], rest.1);
      AppendAssoc(old(dev.trace), done, [Removed(Join(p, fns[i]))]);
      done := done + [Removed(Join(p, fns[i]))];
    }
    assert fns[|fns|..] == [];
    EmptyAppend(done);
    o := Done;
  }

  /** Once the directory `p` is listed, `rmtree` of `p` is its directory loop over the sorted
      subdirectory names followed by the rest over the sorted file names. */
  lemma RmtreeAtListed(fs: Fs, p: string, ds: seq<string>, fns: seq<string>)
    requires ListOn(fs, p).Value?
    requires ds == Visit(ListOn(fs, p).value, ST_TYPE_DIRECTORY)
    requires fns == Visit(ListOn(fs, p).value, ST_TYPE_FILE)
    ensures p in fs && forall d | d in ds :: IsName(d)
    ensures RmtreeAt(fs, p) == Finish(p, RmDirs(fs, fs, p, ds), fns)
  {
    VisitedChildren(fs, p, ST_TYPE_DIRECTORY);
  }

  /** One turn of the directory loop, seen from position `i`. */
  lemma RmDirsUnfold(fs0: Fs, fs: Fs, p: string, ds: seq<string>, i: nat)
    requires p in fs0 && fs.Keys <= fs0.Keys
    requires forall d | d in ds :: IsName(d)
    requires i < |ds|
    ensures var sub := RmtreeAt(fs, Join(p, ds[i]));
      RmDirs(fs0, fs, p, ds[i..]) ==
        if sub.2.Failed? then sub
        else
          var rest := RmDirs(fs0, sub.0, p, ds[i + 1..]);
          (rest.0, sub.1 + rest.1, rest.2)
  {
    assert ds[i..][0] == ds[i];
    assert ds[i..][1..] == ds[i + 1..];
  }

  /** One turn of the file loop, seen from position `i`. */
  lemma RmFilesUnfold(fs: Fs, p: string, ns: seq<string>, i: nat)
    requires i < |ns|
    ensures var step := RemoveOn(fs, Join(p, ns[i]));
      RmFiles(fs, p, ns[i..]) ==
        if Expect(step.0).Done? then
          var rest := RmFiles(step.1, p, ns[i + 1..]);
          (rest.0, [Removed(Join(p, ns[i]))] + rest.1, rest.2)
        else (fs, [], Expect(step.0))
  {
    assert ns[i..][0] == ns[i];
    assert ns[i..][1..] == ns[i + 1..];
  }

  // ---------------------------------------------------------------- the visiting order

  /** `sorted(dnames)` and `sorted(fnames)` come out the same however the device orders the items
      of its listing. */
  lemma VisitAnyOrder(items: seq<Entry>, listing: set<Entry>, kind: int)
    requires multiset(items) == multiset(listing)
    ensures SortNames(Collect(items, kind, Name)) == Visit(listing, kind)
  {
    CollectPermutation(items, Enumerate(listing), kind, Name);
    SortNamesPermutation(Collect(items, kind, Name), Collect(Enumerate(listing), kind, Name));
  }

  /** A name is visited exactly when it names an entry of `p` of the wanted type. */
  lemma VisitedChildren(fs: Fs, p: string, kind: int)
    ensures forall u :: u in Visit(DirEntries(fs, p), kind) <==>
      IsName(u) && Join(p, u) in fs && Kind(fs[Join(p, u)]) == kind
  {
    var items := Enumerate(DirEntries(fs, p));
    var c := Collect(items, kind, Name);
    forall u
      ensures u in Visit(DirEntries(fs, p), kind) <==> u in c
    {
      assert u in Visit(DirEntries(fs, p), kind) <==> u in multiset(c);
    }
    ListedChildren(fs, p, items, kind);
  }

  /** The names collected from an arrangement of a listing are the names of the entries of the
      wanted type. */
  lemma ListedChildren(fs: Fs, p: string, items: seq<Entry>, kind: int)
    requires multiset(items) == multiset(DirEntries(fs, p))
    ensures forall u :: u in Collect(items, kind, Name) <==>
      IsName(u) && Join(p, u) in fs && Kind(fs[Join(p, u)]) == kind
  {
    CollectMembers(items, kind, Name);
    forall u
      ensures u in Collect(items, kind, Name) <==>
        IsName(u) && Join(p, u) in fs && Kind(fs[Join(p, u)]) == kind
    {
      if u in Collect(items, kind, Name) {
        var i :| 0 <= i < |items| && items[i].kind == kind && Name(items[i]) == u;
        assert items[i] in multiset(items);
        var k :| k in fs && IsChild(k, p) && EntryOf(fs, p, k) == items[i];
        ChildIsJoin(k, p);
      }
      if IsName(u) && Join(p, u) in fs && Kind(fs[Join(p, u)]) == kind {
        var k := Join(p, u);
        JoinIsChild(p, u);
        var e := EntryOf(fs, p, k);
        assert e in DirEntries(fs, p);
        assert e in multiset(items);
        var i :| 0 <= i < |items| && items[i] == e;
      }
    }
  }

  /** No name is visited twice. */
  lemma VisitUnique(fs: Fs, p: string, kind: int)
    ensures Unique(Visit(DirEntries(fs, p), kind))
  {
    var listing := DirEntries(fs, p);
    var items := Enumerate(listing);
    forall x
      ensures multiset(items)[x] <= 1
    {
      assert multiset(items)[x] == multiset(listing)[x];
    }
    forall i, j | 0 <= i < |items| && 0 <= j < |items| && items[i].name == items[j].name
      ensures items[i] == items[j]
    {
      assert items[i] in multiset(items) && items[j] in multiset(items);
      var ki :| ki in fs && IsChild(ki, p) && EntryOf(fs, p, ki) == items[i];
      var kj :| kj in fs && IsChild(kj, p) && EntryOf(fs, p, kj) == items[j];
      ChildIsJoin(ki, p);
      ChildIsJoin(kj, p);
    }
    CollectUnique(items, kind);
    var c := Collect(items, kind, Name);
    assert multiset(Visit(listing, kind)) == multiset(c);
  }

  /** Collecting the names of items that are all different and whose names tell them apart gives
      names that are all different. */
  lemma {:induction false} CollectUnique(items: seq<Entry>, kind: int)
    requires Unique(items)
    requires forall i, j | 0 <= i < |items| && 0 <= j < |items| && items[i].name == items[j].name ::
      items[i] == items[j]
    ensures Unique(Collect(items, kind, Name))
    decreases |items|
  {
    if items != [] {
      var init := items[..|items| - 1];
      var last := items[|items| - 1];
      UniqueInit(items);
      forall i, j | 0 <= i < |init| && 0 <= j < |init| && init[i].name == init[j].name
        ensures init[i] == init[j]
      {
        assert init[i] == items[i] && init[j] == items[j];
      }
      CollectUnique(init, kind);
      if last.kind == kind {
        var c := Collect(init, kind, Name);
        CollectMembers(init, kind, Name);
        forall i | 0 <= i < |init|
          ensures init[i].name != last.name
        {
          assert init[i] == items[i] && init[i] in init;
        }
        UniqueSnoc(c, last.name);
      }
    }
  }

  // ---------------------------------------------------------------- termination

  /** The tree below a child of `p` is smaller than the tree at `p`, in any filesystem with fewer
      keys. */
  lemma MeasureDrops(fs0: Fs, fs: Fs, p: string, d: string)
    requires p in fs0 && fs.Keys <= fs0.Keys && IsName(d)
    ensures |Subtree(fs.Keys, Join(p, d))| < |Subtree(fs0.Keys, p)|
  {
    var a := Subtree(fs.Keys, Join(p, d));
    var b := Subtree(fs0.Keys, p);
    forall k | k in a
      ensures k in b - {p}
    {
      InChildTree(k, p, d);
    }
    SubsetSmaller(a, b - {p});
  }

  // ---------------------------------------------------------------- what rmtree leaves

  /** The root survives every pruning, and a pruned tree is a tree. */
  lemma PrunedTree(fs: Fs, d: string)
    requires Tree(fs)
    ensures Tree(Pruned(fs, d))
  {
    var t := Pruned(fs, d);
    forall k | k in t && k != "/"
      ensures Parent(k) in t
    {
      ChildOfParent(k);
      var q := Parent(k);
      if Doomed(q, d) {
        if q != d {
          UnderTrans(k, q, d);
        }
      }
    }
  }

  /** Pruning at a file takes away that file only. */
  lemma PrunedFile(fs: Fs, p: string)
    requires Tree(fs) && p in fs && fs[p].File?
    ensures Pruned(fs, p) == fs - {p}
  {
    forall k | k in fs && Under(k, p)
      ensures false
    {
      AncestorIsDir(fs, k, p);
    }
    assert p != "/";
  }

  /** Pruning the root leaves the root alone. */
  lemma PrunedRoot(fs: Fs)
    requires Tree(fs)
    ensures Pruned(fs, "/") == map["/" := Dir]
  {
    forall k | k in fs && k != "/"
      ensures Under(k, "/")
    {
      assert k[0] == '/';
    }
  }

  /** `k` lies in the tree of one of the directories named in `ds`. */
  ghost predicate Swept(k: string, p: string, ds: seq<string>) {
    exists d | d in ds :: InTree(k, Join(p, d))
  }

  /** The filesystem once the trees of the subdirectories named in `ds` are gone. */
  ghost function Without(fs: Fs, p: string, ds: seq<string>): Fs {
    map k | k in fs && !Swept(k, p, ds) :: fs[k]
  }

  /** The paths of the files named in `ns`. */
  function FilePaths(p: string, ns: seq<string>): set<string> {
    set n | n in ns :: Join(p, n)
  }

  /** On a tree whose directory `p` holds all the named directories, each named once, the
      directory loop ends without error and takes away exactly their trees. */
  lemma {:induction false} RmDirsDone(fs0: Fs, fs: Fs, p: string, ds: seq<string>)
    requires p in fs0 && fs.Keys <= fs0.Keys
    requires forall d | d in ds :: IsName(d)
    requires Tree(fs) && Unique(ds)
    requires forall d | d in ds :: Join(p, d) in fs && fs[Join(p, d)] == Dir
    ensures RmDirs(fs0, fs, p, ds).2 == Done
    ensures RmDirs(fs0, fs, p, ds).0 == Without(fs, p, ds)
    decreases |Subtree(fs0.Keys, p)|, 0, |ds|
  {
    if ds == [] {
      assert Without(fs, p, ds) == fs;
    } else {
      var q := Join(p, ds[0]);
      assert ds[0] in ds;
      MeasureDrops(fs0, fs, p, ds[0]);
      RmtreeAtDone(fs, q);
      PrunedTree(fs, q);
      UniqueTail(ds);
      SiblingsSurvive(fs, p, ds[0], ds[1..]);
      RmDirsDone(fs0, Pruned(fs, q), p, ds[1..]);
      WithoutStep(fs, p, ds);
    }
  }

  /** Removing the tree of one subdirectory leaves the other subdirectories in place. */
  lemma SiblingsSurvive(fs: Fs, p: string, d0: string, ds: seq<string>)
    requires IsName(d0) && d0 !in ds
    requires forall d | d in ds :: IsName(d) && Join(p, d) in fs && fs[Join(p, d)] == Dir
    ensures forall d | d in ds ::
      Join(p, d) in Pruned(fs, Join(p, d0)) && Pruned(fs, Join(p, d0))[Join(p, d)] == Dir
  {
    forall d | d in ds
      ensures !InTree(Join(p, d), Join(p, d0))
    {
      if InTree(Join(p, d), Join(p, d0)) {
        SiblingsDisjoint(Join(p, d), p, d, d0);
      }
    }
  }

  /** Pruning the first named subdirectory, then the trees of the others, leaves what pruning
      all of them leaves. */
  lemma WithoutStep(fs: Fs, p: string, ds: seq<string>)
    requires ds != [] && IsName(ds[0])
    ensures Without(Pruned(fs, Join(p, ds[0])), p, ds[1..]) == Without(fs, p, ds)
  {
    var q := Join(p, ds[0]);
    assert ds == [ds[0]] + ds[1..];
    assert |q| >= 2;
    forall k
      ensures k in Without(Pruned(fs, q), p, ds[1..]) <==> k in Without(fs, p, ds)
    {
      if k in fs && InTree(k, q) {
        assert Swept(k, p, ds);
      }
      if k in fs && Swept(k, p, ds) && !InTree(k, q) {
        var d :| d in ds && InTree(k, Join(p, d));
        assert d in ds[1..];
      }
    }
  }

  /** When every named file is there, each named once, the file loop ends without error and takes
      away exactly those files. */
  lemma {:induction false} RmFilesDone(fs: Fs, p: string, ns: seq<string>)
    requires Unique(ns)
    requires forall n | n in ns :: IsName(n) && Join(p, n) in fs && fs[Join(p, n)].File?
    ensures RmFiles(fs, p, ns).2 == Done
    ensures RmFiles(fs, p, ns).0 == fs - FilePaths(p, ns)
    decreases |ns|
  {
    if ns == [] {
      assert FilePaths(p, ns) == {};
    } else {
      var fs1 := fs - {Join(p, ns[0])};
      FilesAfterFirst(fs, p, ns);
      RmFilesDone(fs1, p, ns[1..]);
      FilePathsCons(fs, p, ns);
    }
  }

  /** Once the first named file is gone, the others are still there. */
  lemma FilesAfterFirst(fs: Fs, p: string, ns: seq<string>)
    requires ns != [] && Unique(ns)
    requires forall n | n in ns :: IsName(n) && Join(p, n) in fs && fs[Join(p, n)].File?
    ensures Unique(ns[1..])
    ensures forall n | n in ns[1..] ::
      IsName(n) && Join(p, n) in fs - {Join(p, ns[0])} && (fs - {Join(p, ns[0])})[Join(p, n)].File?
  {
    var n0 := ns[0];
    assert n0 in ns;
    UniqueTail(ns);
    forall n | n in ns[1..]
      ensures IsName(n) && Join(p, n) in fs - {Join(p, n0)}
    {
      assert n in ns;
      JoinIsChild(p, n);
      JoinIsChild(p, n0);
    }
  }

  /** Taking away the first named file and then the paths of the others takes away them all. */
  lemma FilePathsCons(fs: Fs, p: string, ns: seq<string>)
    requires ns != []
    ensures (fs - {Join(p, ns[0])}) - FilePaths(p, ns[1..]) == fs - FilePaths(p, ns)
  {
    assert ns == [ns[0]] + ns[1..];
    assert FilePaths(p, ns) == {Join(p, ns[0])} + FilePaths(p, ns[1..]);
  }

  /** `rmtree` of a directory of a tree ends without error and leaves exactly the pruned tree. */
  lemma {:induction false} RmtreeAtDone(fs: Fs, p: string)
    requires Tree(fs) && p in fs && fs[p] == Dir
    ensures RmtreeAt(fs, p).2 == Done
    ensures RmtreeAt(fs, p).0 == Pruned(fs, p)
    decreases |Subtree(fs.Keys, p)|, 1, 0
  {
    var listing := DirEntries(fs, p);
    assert ListOn(fs, p) == Value(listing);
    var ds := Visit(listing, ST_TYPE_DIRECTORY);
    var fns := Visit(listing, ST_TYPE_FILE);
    RmtreeAtListed(fs, p, ds, fns);
    SubdirsListed(fs, p);
    RmDirsDone(fs, fs, p, ds);
    AfterDirsDone(fs, p);
  }

  /** The subdirectories `rmtree` visits are directories of `p`, each visited once. */
  lemma SubdirsListed(fs: Fs, p: string)
    ensures var ds := Visit(DirEntries(fs, p), ST_TYPE_DIRECTORY);
      Unique(ds) && forall d | d in ds :: IsName(d) && Join(p, d) in fs && fs[Join(p, d)] == Dir
  {
    VisitedChildren(fs, p, ST_TYPE_DIRECTORY);
    VisitUnique(fs, p, ST_TYPE_DIRECTORY);
  }

  /** After the directory loop has taken away the trees of all subdirectories, the rest of
      `rmtree` ends without error and leaves the pruned tree. */
  lemma AfterDirsDone(fs: Fs, p: string)
    requires Tree(fs) && p in fs && fs[p] == Dir
    ensures var ds := Visit(DirEntries(fs, p), ST_TYPE_DIRECTORY);
      var r := AfterDirs(Without(fs, p, ds), p, Visit(DirEntries(fs, p), ST_TYPE_FILE));
      r.2 == Done && r.0 == Pruned(fs, p)
  {
    var ds := Visit(DirEntries(fs, p), ST_TYPE_DIRECTORY);
    var fns := Visit(DirEntries(fs, p), ST_TYPE_FILE);
    var fs1 := Without(fs, p, ds);
    FilesSurvive(fs, p);
    VisitUnique(fs, p, ST_TYPE_FILE);
    RmFilesDone(fs1, p, fns);
    var fs2 := fs1 - FilePaths(p, fns);
    LeftAfterFiles(fs, p);
    PrunedFromLeft(fs, fs2, p);
    if p != "/" {
      assert !HasChildren(fs2, p);
    }
  }

  /** What is left outside `p` is the pruned tree, once `p` itself is gone unless it is the root. */
  lemma PrunedFromLeft(fs: Fs, left: Fs, p: string)
    requires forall k :: k in left <==> k in fs && !Under(k, p)
    requires forall k | k in left :: left[k] == fs[k]
    ensures p == "/" ==> left == Pruned(fs, p)
    ensures p != "/" ==> left - {p} == Pruned(fs, p)
  {
  }

  /** No file of `p` lies in the tree of a subdirectory of `p`. */
  lemma FilesSurvive(fs: Fs, p: string)
    ensures var ds := Visit(DirEntries(fs, p), ST_TYPE_DIRECTORY);
      forall n | n in Visit(DirEntries(fs, p), ST_TYPE_FILE) ::
        IsName(n) && Join(p, n) in Without(fs, p, ds) && Without(fs, p, ds)[Join(p, n)].File?
  {
    var ds := Visit(DirEntries(fs, p), ST_TYPE_DIRECTORY);
    VisitedChildren(fs, p, ST_TYPE_DIRECTORY);
    VisitedChildren(fs, p, ST_TYPE_FILE);
    forall n | n in Visit(DirEntries(fs, p), ST_TYPE_FILE)
      ensures !Swept(Join(p, n), p, ds)
    {
      if Swept(Join(p, n), p, ds) {
        var d :| d in ds && InTree(Join(p, n), Join(p, d));
        SiblingsDisjoint(Join(p, n), p, n, d);
      }
    }
  }

  /** Once the subdirectory trees and the files of `p` are gone, what is left is what lies
      outside `p`, and `p` itself. */
  lemma LeftAfterFiles(fs: Fs, p: string)
    requires Tree(fs) && p in fs
    ensures var ds := Visit(DirEntries(fs, p), ST_TYPE_DIRECTORY);
      var left := Without(fs, p, ds) - FilePaths(p, Visit(DirEntries(fs, p), ST_TYPE_FILE));
      (forall k :: k in left <==> k in fs && !Under(k, p)) && forall k | k in left :: left[k] == fs[k]
  {
    var ds := Visit(DirEntries(fs, p), ST_TYPE_DIRECTORY);
    var fns := Visit(DirEntries(fs, p), ST_TYPE_FILE);
    VisitedChildren(fs, p, ST_TYPE_DIRECTORY);
    VisitedChildren(fs, p, ST_TYPE_FILE);
    forall k | k in fs && Under(k, p)
      ensures Swept(k, p, ds) || k in FilePaths(p, fns)
    {
      SweptAll(fs, p, k);
    }
    forall k | k in fs && !Under(k, p)
      ensures !Swept(k, p, ds) && k !in FilePaths(p, fns)
    {
      if Swept(k, p, ds) {
        var d :| d in ds && InTree(k, Join(p, d));
        InChildTree(k, p, d);
      }
      if k in FilePaths(p, fns) {
        var n :| n in fns && k == Join(p, n);
        JoinIsChild(p, n);
      }
    }
  }

  /** After the directory loop and the file loop, nothing below `p` is left. */
  lemma SweptAll(fs: Fs, p: string, k: string)
    requires Tree(fs) && k in fs && Under(k, p)
    ensures var ds := Visit(DirEntries(fs, p), ST_TYPE_DIRECTORY);
      var fns := Visit(DirEntries(fs, p), ST_TYPE_FILE);
      Swept(k, p, ds) || k in FilePaths(p, fns)
  {
    var ds := Visit(DirEntries(fs, p), ST_TYPE_DIRECTORY);
    var fns := Visit(DirEntries(fs, p), ST_TYPE_FILE);
    VisitedChildren(fs, p, ST_TYPE_DIRECTORY);
    VisitedChildren(fs, p, ST_TYPE_FILE);
    var c := ChildAncestor(fs, k, p);
    var n := c[|Prefix(p)|..];
    ChildIsJoin(c, p);
    if fs[c].Dir? {
      assert n in ds;
    } else {
      if k != c {
        AncestorIsDir(fs, k, c);
      }
      assert n in fns;
    }
  }
}
