/** The host side of the transfer engine: the local filesystem that `upload` reads and `download`
    writes, as a map from path to node. Paths are looked up exactly as given. */
module HostFs {
  import opened Errors
  import opened Paths
  import Device

  datatype LocalNode = LocalFile(data: seq<Device.byte>) | LocalDir

  type LocalFs = map<string, LocalNode>

  /** What `open(p, "rb").read()` gives: the bytes of a regular file, or nothing when `p` is not
      one. */
  function FileData(fs: LocalFs, p: string): (r: Option<seq<Device.byte>>)
    ensures r.Some? <==> p in fs && fs[p].LocalFile?
  {
    if p in fs && fs[p].LocalFile? then Some(fs[p].data) else None
  }

  /** The names `os.listdir(d)` gives. */
  function Names(fs: LocalFs, d: string): (r: set<string>)
    ensures forall n | n in r :: IsName(n) && LocalJoin(d, n) in fs
  {
    var r := set k | k in fs && LocalIsChild(k, d) :: k[|LocalPrefix(d)|..];
    assert forall n | n in r :: IsName(n) && LocalJoin(d, n) in fs by {
      forall n | n in r
        ensures IsName(n) && LocalJoin(d, n) in fs
      {
        var k :| k in fs && LocalIsChild(k, d) && n == k[|LocalPrefix(d)|..];
        LocalChildIsJoin(k, d);
      }
    }
    r
  }

  /** A host child of `d` is `d` joined with its name. */
  lemma LocalChildIsJoin(k: string, d: string)
    requires LocalIsChild(k, d)
    ensures k == LocalJoin(d, k[|LocalPrefix(d)|..])
  {
    assert k == k[..|LocalPrefix(d)|] + k[|LocalPrefix(d)|..];
  }

  /** A path written as `d + "/" + n` lies below the host directory `d`, whatever `d` ends with. */
  lemma SlashLocalUnder(d: string, n: string)
    requires n != ""
    ensures LocalUnder(d + "/" + n, d)
  {
    if d == "" || d[|d| - 1] == '/' {
      assert (d + "/" + n)[..|d|] == d;
    } else {
      assert (d + "/" + n)[..|d| + 1] == d + "/";
    }
  }

  /** `k` is the host path `d` or lies below it. */
  predicate LocalInTree(k: string, d: string) {
    k == d || LocalUnder(k, d)
  }

  /** The host: `os.path`, `os.listdir`, `os.mkdir` and `open` on its filesystem. */
  class Host {
    var fs: LocalFs

    constructor(fs: LocalFs)
      ensures this.fs == fs
    {
      this.fs := fs;
    }

    /** `os.path.isdir(p)`. */
    method IsDir(p: string) returns (b: bool)
      ensures b <==> p in fs && fs[p].LocalDir?
    {
      b := p in fs && fs[p].LocalDir?;
    }

    /** `os.path.isfile(p)`. */
    method IsFile(p: string) returns (b: bool)
      ensures b <==> p in fs && fs[p].LocalFile?
    {
      b := p in fs && fs[p].LocalFile?;
    }

    /** `open(p, "rb").read()`; `None` stands for the exception it raises on anything but a
        regular file. */
    method ReadFile(p: string) returns (r: Option<seq<Device.byte>>)
      ensures r == FileData(fs, p)
    {
      r := FileData(fs, p);
    }

    /** `os.stat(p).st_size` of a regular file. */
    method FileSize(p: string) returns (n: nat)
      requires p in fs && fs[p].LocalFile?
      ensures n == |fs[p].data|
    {
      n := |fs[p].data|;
    }

    /** `os.listdir(p)`: the names come out in an order the model does not fix. */
    method Listdir(p: string) returns (names: seq<string>)
      ensures multiset(names) == multiset(Names(fs, p))
      ensures forall n | n in names :: IsName(n) && LocalJoin(p, n) in fs
    {
      var all := Names(fs, p);
      var left := all;
      names := [];
      while left != {}
        invariant left <= all
        invariant multiset(names) + multiset(left) == multiset(all)
        decreases |left|
      {
        var n :| n in left;
        names := names + [n];
        left := left - {n};
      }
      assert multiset(names) == multiset(all);
      forall n | n in names
        ensures n in all
      {
        assert n in multiset(names);
      }
    }

    /** `os.mkdir(p)` at a path that is not there yet. */
    method Mkdir(p: string)
      requires p !in fs
      modifies this
      ensures fs == old(fs)[p := LocalDir]
    {
      fs := fs[p := LocalDir];
    }

    /** `open(p, "wb+")` at a path that is not a directory: creates or truncates the file. */
    method Create(p: string)
      requires p !in fs || fs[p].LocalFile?
      modifies this
      ensures fs == old(fs)[p := LocalFile([])]
    {
      fs := fs[p := LocalFile([])];
    }

    /** `fout.write(data)` on the file opened at `p`. */
    method Append(p: string, data: seq<Device.byte>)
      requires p in fs && fs[p].LocalFile?
      modifies this
      ensures fs == old(fs)[p := LocalFile(old(fs)[p].data + data)]
    {
      fs := fs[p := LocalFile(fs[p].data + data)];
    }
  }
}
