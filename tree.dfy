/** The remote tree operations of the syncer: `makedirs`, which walks the prefixes of a path and
    creates the missing ones, and `rmtree`, which removes a tree depth-first in sorted order. */
module TreeOps {
  import opened Errors
  import opened Seqs
  import opened Paths
  import opened Device
  import opened RemoteFs

  // ---------------------------------------------------------------- makedirs

  /** The components `makedirs` splits `realpath` into: `realpath[1:].split("/")`. */
  function Parts(realpath: string): (r: seq<string>)
    requires StartsWith(realpath, "/")
    ensures |r| >= 1
  {
    Split(realpath[1..], "/")
  }

  /** The path `makedirs` visits at step `i`: `"/" + "/".join(parts[:i + 1])`. */
  function PrefixPath(parts: seq<string>, i: nat): string
    requires i < |parts|
  {
    "/" + JoinWith(parts[..i + 1], "/")
  }

  /** The paths `makedirs` visits, in order; the last is `realpath` itself. */
  function Prefixes(realpath: string): (r: seq<string>)
    requires StartsWith(realpath, "/")
    ensures |r| == |Parts(realpath)|
    ensures r[|r| - 1] == realpath
  {
    var parts := Parts(realpath);
    JoinSplit(realpath[1..], "/");
    assert parts[..|parts|] == parts;
    assert realpath == "/" + realpath[1..];
    seq(|parts|, i requires 0 <= i < |parts| => PrefixPath(parts, i))
  }

  /** What `makedirs` does when it visits the paths `qs` in order, starting from `fs`: the
      filesystem it leaves, the changes it makes, and how it ends. An absent path is created, a
      directory is passed over, and anything else stops the walk with an error. */
  function MakedirsFrom(fs: Fs, qs: seq<string>): (r: (Fs, seq<Op>, Outcome))
    decreases |qs|
  {
    if qs == [] then (fs, [], Done)
    else
      var q := qs[0];
      if q !in fs then
        var step := MkdirOn(fs, q);
        if step.0 == Value(true) then
          var rest := MakedirsFrom(step.1, qs[1..]);
          (rest.0, [Made(q)] + rest.1, rest.2)
        else (fs, [], Expect(step.0))
      else if fs[q].Dir? then MakedirsFrom(fs, qs[1..])
      else (fs, [], Failed(Conflict(q)))
  }

  /** `makedirs(realpath)`. */
  method Makedirs(dev: Device, realpath: string) returns (o: Outcome)
    requires dev.Valid()
    modifies dev`fs, dev`trace
    ensures dev.Valid()
    ensures !StartsWith(realpath, "/") ==>
      o.Failed? && o.error.Rejected? && dev.fs == old(dev.fs) && dev.trace == old(dev.trace)
    ensures StartsWith(realpath, "/") ==>
      var r := MakedirsFrom(old(dev.fs), Prefixes(realpath));
      dev.fs == r.0 && dev.trace == old(dev.trace) + r.1 && o == r.2
  {
    if !StartsWith(realpath, "/") {
      return Failed(Rejected("startswith('/')"));
    }
    var parts := Split(realpath[1..], "/");
    ghost var qs := Prefixes(realpath);
    ghost var goal := MakedirsFrom(dev.fs, qs);
    ghost var done: seq<Op> := [];
    assert qs[0..] == qs;
    assert done + goal.1 == goal.1;
    for idx := 0 to |parts|
      invariant dev.Valid()
      invariant dev.trace == old(dev.trace) + done
      invariant var r := MakedirsFrom(dev.fs, qs[idx..]); goal == (r.0, done + r.1, r.2)
    {
      var path := PrefixPath(parts, idx);
      MakedirsUnfold(dev.fs, qs, idx);
      var made, stop;
      made, stop, o := Visit(dev, path);
      if stop {
        assert done + [] == done;
        return;
      }
      if made {
        ghost var rest := MakedirsFrom(dev.fs, qs[idx + 1..]);
        AppendAssoc(done, [Made(path)], rest.1);
        AppendAssoc(old(dev.trace), done, [Made(path)]);
        done := done + [Made(path)];
      }
    }
    o := Done;
  }

  /** One visit of the walk: `stat` the path, create it when absent, pass over a directory and stop
      at anything else or at a failed `mkdir`. */
  method Visit(dev: Device, path: string) returns (made: bool, stop: bool, o: Outcome)
    requires dev.Valid()
    modifies dev`fs, dev`trace
    ensures dev.Valid()
    ensures made ==> !stop
    ensures made <==> path !in old(dev.fs) && MkdirOn(old(dev.fs), path).0 == Value(true)
    ensures made ==> dev.fs == MkdirOn(old(dev.fs), path).1 && dev.trace == old(dev.trace) + [Made(path)]
    ensures !made ==> dev.fs == old(dev.fs) && dev.trace == old(dev.trace)
    ensures stop <==> !made && (path in old(dev.fs) ==> !old(dev.fs)[path].Dir?)
    ensures stop && path !in old(dev.fs) ==> o == Expect(MkdirOn(old(dev.fs), path).0)
    ensures stop && path in old(dev.fs) ==> o == Failed(Conflict(path))
  {
    made, stop, o := false, false, Done;
    var st := Stat(dev, path);
    if st.value.None? {
      o := Mkdir(dev, path);
      made := o.Done?;
      stop := !made;
    } else if !st.value.value.isdir {
      stop, o := true, Failed(Conflict(path));
    }
  }

  /** One visit of `makedirs`, seen from position `idx` of the walk. */
  lemma MakedirsUnfold(fs: Fs, qs: seq<string>, idx: nat)
    requires idx < |qs|
    ensures var q := qs[idx];
      MakedirsFrom(fs, qs[idx..]) ==
        if q !in fs then
          if MkdirOn(fs, q).0 == Value(true) then
            var rest := MakedirsFrom(MkdirOn(fs, q).1, qs[idx + 1..]);
            (rest.0, [Made(q)] + rest.1, rest.2)
          else (fs, [], Expect(MkdirOn(fs, q).0))
        else if fs[q].Dir? then MakedirsFrom(fs, qs[idx + 1..])
        else (fs, [], Failed(Conflict(q)))
  {
    assert qs[idx..][0] == qs[idx];
    assert qs[idx..][1..] == qs[idx + 1..];
  }

  /** `makedirs` only adds: every path it finds stays as it was, and every path it adds is one of
      the visited paths, made a directory; each change it reports is such a creation. */
  lemma {:induction false} MakedirsOnlyAdds(fs: Fs, qs: seq<string>)
    ensures var r := MakedirsFrom(fs, qs);
      (forall k | k in fs :: k in r.0 && r.0[k] == fs[k]) &&
      (forall k | k in r.0 && k !in fs :: r.0[k] == Dir && k in qs) &&
      (forall i | 0 <= i < |r.1| :: r.1[i].Made? && r.1[i].path in qs && r.1[i].path !in fs && r.1[i].path in r.0)
    decreases |qs|
  {
    if qs != [] {
      var q := qs[0];
      if q !in fs {
        var step := MkdirOn(fs, q);
        if step.0 == Value(true) {
          MakedirsOnlyAdds(step.1, qs[1..]);
        }
      } else if fs[q].Dir? {
        MakedirsOnlyAdds(fs, qs[1..]);
      }
    }
  }

  /** When `makedirs` ends without an error, every visited path is a directory. */
  lemma {:induction false} MakedirsDoneAllDirs(fs: Fs, qs: seq<string>)
    requires MakedirsFrom(fs, qs).2 == Done
    ensures forall q | q in qs :: q in MakedirsFrom(fs, qs).0 && MakedirsFrom(fs, qs).0[q] == Dir
    decreases |qs|
  {
    if qs != [] {
      var q := qs[0];
      if q !in fs {
        var step := MkdirOn(fs, q);
        MakedirsDoneAllDirs(step.1, qs[1..]);
        MakedirsOnlyAdds(step.1, qs[1..]);
      } else {
        MakedirsDoneAllDirs(fs, qs[1..]);
        MakedirsOnlyAdds(fs, qs[1..]);
      }
    }
  }

  /** When every visited path already is a directory, `makedirs` changes nothing. */
  lemma {:induction false} MakedirsNoChange(fs: Fs, qs: seq<string>)
    requires forall q | q in qs :: q in fs && fs[q] == Dir
    ensures MakedirsFrom(fs, qs) == (fs, [], Done)
    decreases |qs|
  {
    if qs != [] {
      MakedirsNoChange(fs, qs[1..]);
    }
  }

  /** The visit at `i` met `what`, a file of `fs`, and every path that `fs1` has beyond `fs` was
      visited before `i`. */
  ghost predicate ConflictAt(fs: Fs, qs: seq<string>, what: string, fs1: Fs, i: int) {
    0 <= i < |qs| && qs[i] == what && what in fs && fs[what].File? &&
    forall k | k in fs1 && k !in fs :: k in qs[..i]
  }

  /** A conflict names the first visited path that exists and is not a directory; nothing after it
      is created. */
  lemma {:induction false} MakedirsConflict(fs: Fs, qs: seq<string>)
    requires MakedirsFrom(fs, qs).2.Failed? && MakedirsFrom(fs, qs).2.error.Conflict?
    ensures exists i :: ConflictAt(fs, qs, MakedirsFrom(fs, qs).2.error.what, MakedirsFrom(fs, qs).0, i)
    decreases |qs|
  {
    var r := MakedirsFrom(fs, qs);
    var q := qs[0];
    if q !in fs {
      var fs' := MkdirOn(fs, q).1;
      MakedirsConflict(fs', qs[1..]);
      var i :| ConflictAt(fs', qs[1..], r.2.error.what, r.0, i);
      ConflictShift(fs, fs', qs, r.2.error.what, r.0, i);
    } else if fs[q].Dir? {
      MakedirsConflict(fs, qs[1..]);
      var i :| ConflictAt(fs, qs[1..], r.2.error.what, r.0, i);
      ConflictShift(fs, fs, qs, r.2.error.what, r.0, i);
    } else {
      assert ConflictAt(fs, qs, r.2.error.what, r.0, 0);
    }
  }

  /** A conflict found after a first visit that at most created that path is a conflict of the
      whole walk, one position later. */
  lemma ConflictShift(fs: Fs, fs': Fs, qs: seq<string>, what: string, fs1: Fs, i: int)
    requires qs != [] && (fs' == fs || (qs[0] !in fs && fs' == fs[qs[0] := Dir]))
    requires ConflictAt(fs', qs[1..], what, fs1, i)
    ensures ConflictAt(fs, qs, what, fs1, i + 1)
  {
    assert qs[i + 1] == qs[1..][i];
    assert qs[..i + 1] == [qs[0]] + qs[1..][..i];
  }

  /** A chain of paths each directly inside the one before, the first directly inside `top`. */
  ghost predicate Chain(top: string, qs: seq<string>) {
    (qs != [] ==> Link(top, qs[0])) &&
    forall i | 0 < i < |qs| :: Link(qs[i - 1], qs[i])
  }

  /** `b` is a canonical path directly inside `a`. */
  ghost predicate Link(a: string, b: string) {
    Canonical(b) && b != "/" && Parent(b) == a
  }

  lemma ChainTail(top: string, qs: seq<string>)
    requires Chain(top, qs) && qs != []
    ensures Link(top, qs[0])
    ensures Chain(qs[0], qs[1..])
  {
    forall i | 0 < i < |qs[1..]|
      ensures Link(qs[1..][i - 1], qs[1..][i])
    {
      assert qs[1..][i] == qs[i + 1] && qs[1..][i - 1] == qs[i];
    }
    if |qs| > 1 {
      assert Link(qs[0], qs[1]);
    }
  }

  /** Walking a chain that starts in a directory and meets no file creates what is missing. */
  lemma {:induction false} MakedirsChainDone(fs: Fs, top: string, qs: seq<string>)
    requires Tree(fs) && top in fs && fs[top] == Dir && Chain(top, qs)
    requires forall q | q in qs && q in fs :: fs[q] == Dir
    ensures MakedirsFrom(fs, qs).2 == Done
    decreases |qs|
  {
    if qs != [] {
      var q := qs[0];
      ChainTail(top, qs);
      if q !in fs {
        var step := MkdirOn(fs, q);
        assert step == (Value(true), fs[q := Dir]);
        assert forall q' | q' in qs[1..] && q' in step.1 :: step.1[q'] == Dir;
        MakedirsChainDone(step.1, q, qs[1..]);
      } else {
        MakedirsChainDone(fs, q, qs[1..]);
      }
    }
  }

  /** The prefixes of a path without empty components form a chain below the root. */
  lemma PrefixesChain(realpath: string)
    requires StartsWith(realpath, "/")
    requires forall i | 0 <= i < |Parts(realpath)| :: Parts(realpath)[i] != ""
    ensures Chain("/", Prefixes(realpath))
  {
    var parts := Parts(realpath);
    var qs := Prefixes(realpath);
    PartsAreNames(realpath);
    PrefixCanonical(parts, 0);
    forall i | 0 < i < |qs|
      ensures Link(qs[i - 1], qs[i])
    {
      PrefixCanonical(parts, i);
    }
  }

  /** Non-empty components of a split at `/` are names. */
  lemma PartsAreNames(realpath: string)
    requires StartsWith(realpath, "/")
    requires forall i | 0 <= i < |Parts(realpath)| :: Parts(realpath)[i] != ""
    ensures forall i | 0 <= i < |Parts(realpath)| :: IsName(Parts(realpath)[i])
  {
    var parts := Parts(realpath);
    SplitPiecesFree(realpath[1..], "/");
    forall i | 0 <= i < |parts|
      ensures IsName(parts[i])
    {
      FreeOf(parts[i], '/');
    }
  }

  /** Each visited path is canonical and directly inside the one visited before it (the root for
      the first). */
  lemma {:induction false} PrefixCanonical(parts: seq<string>, i: nat)
    requires i < |parts| && forall j | 0 <= j < |parts| :: IsName(parts[j])
    ensures Canonical(PrefixPath(parts, i)) && PrefixPath(parts, i) != "/"
    ensures Parent(PrefixPath(parts, i)) == if i == 0 then "/" else PrefixPath(parts, i - 1)
    decreases i
  {
    if i == 0 {
      PrefixFirst(parts);
      CanonicalJoin("/", parts[0]);
    } else {
      PrefixCanonical(parts, i - 1);
      PrefixNext(parts, i);
      CanonicalJoin(PrefixPath(parts, i - 1), parts[i]);
    }
  }

  /** The first visited path is the first component below the root. */
  lemma PrefixFirst(parts: seq<string>)
    requires 0 < |parts|
    ensures PrefixPath(parts, 0) == Join("/", parts[0])
  {
    assert parts[..1] == [parts[0]];
  }

  /** Each later visited path is the one before joined with the next component. */
  lemma PrefixNext(parts: seq<string>, i: nat)
    requires 0 < i < |parts| && PrefixPath(parts, i - 1) != "/"
    ensures PrefixPath(parts, i) == Join(PrefixPath(parts, i - 1), parts[i])
  {
    assert parts[..i + 1] == parts[..i] + [parts[i]];
    JoinWithSnoc(parts[..i], parts[i], "/");
  }

  /** `makedirs` of an absolute path without empty components, none of whose prefixes is a file,
      ends without error and leaves the path a directory. */
  lemma MakedirsSucceeds(fs: Fs, realpath: string)
    requires Tree(fs) && StartsWith(realpath, "/")
    requires realpath == "/" || forall i | 0 <= i < |Parts(realpath)| :: Parts(realpath)[i] != ""
    requires forall q | q in Prefixes(realpath) && q in fs :: fs[q] == Dir
    ensures MakedirsFrom(fs, Prefixes(realpath)).2 == Done
    ensures realpath in MakedirsFrom(fs, Prefixes(realpath)).0
    ensures MakedirsFrom(fs, Prefixes(realpath)).0[realpath] == Dir
  {
    var qs := Prefixes(realpath);
    if |realpath| == 1 {
      SplitShort(realpath[1..], "/");
      assert |qs| == 1;
      forall q | q in qs
        ensures q == realpath
      {
        var i :| 0 <= i < |qs| && qs[i] == q;
      }
      MakedirsNoChange(fs, qs);
    } else {
      PrefixesChain(realpath);
      MakedirsChainDone(fs, "/", qs);
    }
    MakedirsDoneAllDirs(fs, qs);
    assert realpath in qs;
  }
}
