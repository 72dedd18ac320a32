/** The device side of every remote call: MicroPython's `uos` module on a flash filesystem, and the
    two file handles `_fout` and `_fin` that the transfer engine binds in the REPL's globals.
    The filesystem is a map from absolute path to node; paths are looked up exactly as given. */
module Device {
  import opened Paths
  import Transport

  type byte = Transport.byte

  /** `st_mode` of a regular file and of a directory, as `uos.stat` and `uos.ilistdir` report them. */
  const ST_TYPE_FILE: int := 32768
  const ST_TYPE_DIRECTORY: int := 16384

  datatype Node = File(data: seq<byte>) | Dir

  type Fs = map<string, Node>

  /** What a remote call gives back: a value, or the text of the exception it raised. */
  datatype Reply<+T> = Value(value: T) | Raised(message: string)

  /** One item of `uos.ilistdir`: (name, type, inode, size). */
  datatype Entry = Entry(name: string, kind: int, inode: int, size: int)

  /** A global name (`_fout`, `_fin`) in the REPL: unbound, bound to an open file, or bound to a
      closed one. */
  datatype Handle = Unbound | Open(path: string) | Closed

  /** The changes the device makes, in the order it makes them. */
  datatype Op =
    | Made(path: string)                                    // uos.mkdir
    | Removed(path: string)                                 // uos.remove
    | RemovedDir(path: string)                              // uos.rmdir
    | Created(path: string)                                 // open(path, 'wb+')
    | Wrote(path: string, given: seq<byte>, accepted: nat)  // _fout.write(given) returned accepted

  function Kind(n: Node): int {
    if n.File? then ST_TYPE_FILE else ST_TYPE_DIRECTORY
  }

  function Size(n: Node): nat {
    if n.File? then |n.data| else 0
  }

  /** The 10-tuple of `uos.stat`: mode, inode, device, links, uid, gid, size and three times. */
  function StatTuple(n: Node): (st: seq<int>)
    ensures |st| == 10 && st[0] == Kind(n) && st[6] == Size(n)
  {
    [Kind(n), 0, 0, 0, 0, 0, Size(n), 0, 0, 0]
  }

  /** What the REPL prints for an exception raised by a one-line command. */
  function Traceback(exc: string): string {
    Transport.TRACEBACK + "\r\n  File \"<stdin>\", line 1, in <module>\r\n" + exc
  }

  const ENOENT: string := "OSError: [Errno 2] ENOENT"
  const EEXIST: string := "OSError: [Errno 17] EEXIST"
  const ENOTDIR: string := "OSError: [Errno 20] ENOTDIR"
  const EISDIR: string := "OSError: [Errno 21] EISDIR"
  const ENOTEMPTY: string := "OSError: [Errno 39] ENOTEMPTY"
  const EPERM: string := "OSError: [Errno 1] EPERM"
  const EBADF: string := "OSError: [Errno 9] EBADF"
  const UNBOUND: string := "NameError: name isn't defined"

  /** The root is a directory, and every other path is canonical and sits in a directory. */
  ghost predicate Tree(fs: Fs) {
    "/" in fs && fs["/"] == Dir &&
    forall k | k in fs && k != "/" :: Canonical(k) && Parent(k) in fs && fs[Parent(k)] == Dir
  }

  /** The `uos.ilistdir` item for the child `k` of `d`. */
  function EntryOf(fs: Fs, d: string, k: string): Entry
    requires k in fs && IsChild(k, d)
  {
    Entry(k[|Prefix(d)|..], Kind(fs[k]), 0, Size(fs[k]))
  }

  /** The items of `uos.ilistdir(d)`, in no particular order. */
  function DirEntries(fs: Fs, d: string): set<Entry> {
    set k | k in fs && IsChild(k, d) :: EntryOf(fs, d, k)
  }

  predicate HasChildren(fs: Fs, d: string) {
    exists k | k in fs :: IsChild(k, d)
  }

  /** `uos.stat(p)`. */
  function StatOn(fs: Fs, p: string): Reply<seq<int>> {
    if p in fs then Value(StatTuple(fs[p])) else Raised(Traceback(ENOENT))
  }

  /** `uos.ilistdir(p)` as a set of items. */
  function ListOn(fs: Fs, p: string): Reply<set<Entry>> {
    if p !in fs then Raised(Traceback(ENOENT))
    else if fs[p].File? then Raised(Traceback(ENOTDIR))
    else Value(DirEntries(fs, p))
  }

  /** `uos.remove(p) or True`: removes a file. */
  function RemoveOn(fs: Fs, p: string): (r: (Reply<bool>, Fs))
    ensures Tree(fs) ==> Tree(r.1)
  {
    if p !in fs then (Raised(Traceback(ENOENT)), fs)
    else if fs[p].Dir? then (Raised(Traceback(EISDIR)), fs)
    else
      assert Tree(fs) ==> Tree(fs - {p}) by {
        if Tree(fs) {
          forall k | k in fs - {p} && k != "/"
            ensures Parent(k) in fs - {p}
          {
            assert fs[Parent(k)] == Dir;
          }
        }
      }
      (Value(true), fs - {p})
  }

  /** `uos.rmdir(p) or True`: removes an empty directory other than the root. */
  function RmdirOn(fs: Fs, p: string): (r: (Reply<bool>, Fs))
    ensures Tree(fs) ==> Tree(r.1)
  {
    if p !in fs then (Raised(Traceback(ENOENT)), fs)
    else if fs[p].File? then (Raised(Traceback(ENOTDIR)), fs)
    else if p == "/" then (Raised(Traceback(EPERM)), fs)
    else if HasChildren(fs, p) then (Raised(Traceback(ENOTEMPTY)), fs)
    else
      assert Tree(fs) ==> Tree(fs - {p}) by {
        if Tree(fs) {
          forall k | k in fs - {p} && k != "/"
            ensures Parent(k) != p
          {
            ChildOfParent(k);
          }
        }
      }
      (Value(true), fs - {p})
  }

  /** `uos.mkdir(p) or True`: adds a directory inside an existing one. */
  function MkdirOn(fs: Fs, p: string): (r: (Reply<bool>, Fs))
    ensures Tree(fs) ==> Tree(r.1)
  {
    if p in fs then (Raised(Traceback(EEXIST)), fs)
    else if p == "/" || !Canonical(p) || Parent(p) !in fs then (Raised(Traceback(ENOENT)), fs)
    else if fs[Parent(p)].File? then (Raised(Traceback(ENOTDIR)), fs)
    else (Value(true), fs[p := Dir])
  }

  /** `open(p, 'wb+')`: creates or truncates a file. */
  function CreateOn(fs: Fs, p: string): (r: (Reply<()>, Fs))
    ensures Tree(fs) ==> Tree(r.1)
  {
    if p in fs && fs[p].Dir? then (Raised(Traceback(EISDIR)), fs)
    else if p !in fs && (p == "/" || !Canonical(p) || Parent(p) !in fs) then (Raised(Traceback(ENOENT)), fs)
    else if p !in fs && fs[Parent(p)].File? then (Raised(Traceback(ENOTDIR)), fs)
    else
      assert Tree(fs) ==> Tree(fs[p := File([])]) by {
        if Tree(fs) && p in fs {
          forall k | k in fs && k != "/"
            ensures Parent(k) != p
          {
          }
        }
      }
      (Value(()), fs[p := File([])])
  }

  /** The device: its filesystem, the two handles, the read position of `_fin`, and the changes
      made so far. `window` is the most bytes one `write` on the flash accepts. */
  class Device {
    var fs: Fs
    var fout: Handle
    var fin: Handle
    var finPos: nat
    var trace: seq<Op>
    const window: nat

    ghost predicate Valid()
      reads this
    {
      Tree(fs) && window >= 1
    }

    constructor(fs: Fs, window: nat)
      requires Tree(fs) && window >= 1
      ensures Valid() && this.fs == fs && this.window == window
      ensures fout == Unbound && fin == Unbound && trace == []
    {
      this.fs := fs;
      this.window := window;
      fout := Unbound;
      fin := Unbound;
      finPos := 0;
      trace := [];
    }

    method Stat(p: string) returns (r: Reply<seq<int>>)
      ensures r == StatOn(fs, p)
    {
      r := StatOn(fs, p);
    }

    /** `uos.ilistdir(p)`: the items come out in an order the model does not fix. */
    method Ilistdir(p: string) returns (r: Reply<seq<Entry>>)
      ensures ListOn(fs, p).Raised? ==> r == Raised(ListOn(fs, p).message)
      ensures ListOn(fs, p).Value? ==> r.Value? && multiset(r.value) == multiset(ListOn(fs, p).value)
    {
      match ListOn(fs, p)
      case Raised(m) =>
        r := Raised(m);
      case Value(items) =>
        var left := items;
        var out := [];
        while left != {}
          invariant left <= items
          invariant multiset(out) + multiset(left) == multiset(items)
          decreases |left|
        {
          var e :| e in left;
          out := out + [e];
          left := left - {e};
        }
        r := Value(out);
    }

    method Remove(p: string) returns (r: Reply<bool>)
      requires Valid()
      modifies this`fs, this`trace
      ensures Valid()
      ensures (r, fs) == RemoveOn(old(fs), p)
      ensures trace == old(trace) + (if r.Value? then [Removed(p)] else [])
    {
      var step := RemoveOn(fs, p);
      r, fs := step.0, step.1;
      if r.Value? {
        trace := trace + [Removed(p)];
      }
    }

    method Rmdir(p: string) returns (r: Reply<bool>)
      requires Valid()
      modifies this`fs, this`trace
      ensures Valid()
      ensures (r, fs) == RmdirOn(old(fs), p)
      ensures trace == old(trace) + (if r.Value? then [RemovedDir(p)] else [])
    {
      var step := RmdirOn(fs, p);
      r, fs := step.0, step.1;
      if r.Value? {
        trace := trace + [RemovedDir(p)];
      }
    }

    method Mkdir(p: string) returns (r: Reply<bool>)
      requires Valid()
      modifies this`fs, this`trace
      ensures Valid()
      ensures (r, fs) == MkdirOn(old(fs), p)
      ensures trace == old(trace) + (if r.Value? then [Made(p)] else [])
    {
      var step := MkdirOn(fs, p);
      r, fs := step.0, step.1;
      if r.Value? {
        trace := trace + [Made(p)];
      }
    }

    /** `_fout = open(p, 'wb+')`. */
    method OpenWrite(p: string) returns (r: Reply<()>)
      requires Valid()
      modifies this`fs, this`trace, this`fout
      ensures Valid()
      ensures (r, fs) == CreateOn(old(fs), p)
      ensures fout == (if r.Value? then Open(p) else old(fout))
      ensures trace == old(trace) + (if r.Value? then [Created(p)] else [])
    {
      var step := CreateOn(fs, p);
      r, fs := step.0, step.1;
      if r.Value? {
        fout := Open(p);
        trace := trace + [Created(p)];
      }
    }

    /** `_fout.write(chunk)`: appends the first `n` bytes of `chunk`, at most `window` of them, and
        returns `n`. */
    method Write(chunk: seq<byte>) returns (r: Reply<nat>)
      requires Valid()
      modifies this`fs, this`trace
      ensures Valid()
      ensures fout.Unbound? ==> r == Raised(Traceback(UNBOUND))
      ensures fout.Closed? ==> r == Raised(Traceback(EBADF))
      ensures fout.Open? && (fout.path !in old(fs) || old(fs)[fout.path].Dir?) ==> r == Raised(Traceback(EBADF))
      ensures r.Raised? ==> fs == old(fs) && trace == old(trace)
      ensures r.Value? <==> fout.Open? && fout.path in old(fs) && old(fs)[fout.path].File?
      ensures r.Value? ==>
        fout.Open? && fout.path in old(fs) && old(fs)[fout.path].File? &&
        r.value == (if |chunk| < window then |chunk| else window) &&
        fs == old(fs)[fout.path := File(old(fs)[fout.path].data + chunk[..r.value])] &&
        trace == old(trace) + [Wrote(fout.path, chunk, r.value)]
    {
      match fout
      case Unbound =>
        r := Raised(Traceback(UNBOUND));
      case Closed =>
        r := Raised(Traceback(EBADF));
      case Open(q) =>
        if q !in fs || fs[q].Dir? {
          r := Raised(Traceback(EBADF));
        } else {
          var n := if |chunk| < window then |chunk| else window;
          fs := fs[q := File(fs[q].data + chunk[..n])];
          trace := trace + [Wrote(q, chunk, n)];
          r := Value(n);
        }
    }

    /** `_fout.close()`. */
    method CloseWrite() returns (r: Reply<()>)
      modifies this`fout
      ensures fout == (if old(fout).Unbound? then Unbound else Closed)
      ensures r.Raised? <==> old(fout).Unbound?
    {
      if fout.Unbound? {
        r := Raised(Traceback(UNBOUND));
      } else {
        fout := Closed;
        r := Value(());
      }
    }

    /** `del _fout`. */
    method DelWrite() returns (r: Reply<()>)
      modifies this`fout
      ensures fout == Unbound
      ensures r.Raised? <==> old(fout).Unbound?
    {
      r := if fout.Unbound? then Raised(Traceback(UNBOUND)) else Value(());
      fout := Unbound;
    }

    /** `_fin = open(p, 'rb')`. */
    method OpenRead(p: string) returns (r: Reply<()>)
      modifies this`fin, this`finPos
      ensures p !in fs ==> r == Raised(Traceback(ENOENT)) && fin == old(fin) && finPos == old(finPos)
      ensures p in fs && fs[p].Dir? ==> r == Raised(Traceback(EISDIR)) && fin == old(fin) && finPos == old(finPos)
      ensures p in fs && fs[p].File? ==> r == Value(()) && fin == Open(p) && finPos == 0
    {
      if p !in fs {
        r := Raised(Traceback(ENOENT));
      } else if fs[p].Dir? {
        r := Raised(Traceback(EISDIR));
      } else {
        fin, finPos := Open(p), 0;
        r := Value(());
      }
    }

    /** `_fin.read(n)`: up to `n` bytes from the read position on, and the position moves past them. */
    method Read(n: nat) returns (r: Reply<seq<byte>>)
      modifies this`finPos
      ensures fin.Unbound? ==> r == Raised(Traceback(UNBOUND))
      ensures fin.Closed? ==> r == Raised(Traceback(EBADF))
      ensures fin.Open? && (fin.path !in fs || fs[fin.path].Dir?) ==> r == Raised(Traceback(EBADF))
      ensures r.Raised? ==> finPos == old(finPos)
      ensures r.Value? <==> fin.Open? && fin.path in fs && fs[fin.path].File?
      ensures r.Value? ==>
        fin.Open? && fin.path in fs && fs[fin.path].File? &&
        var data := fs[fin.path].data;
        (old(finPos) >= |data| ==> r.value == [] && finPos == old(finPos)) &&
        (old(finPos) < |data| ==>
          var end := if old(finPos) + n < |data| then old(finPos) + n else |data|;
          r.value == data[old(finPos)..end] && finPos == end)
    {
      match fin
      case Unbound =>
        r := Raised(Traceback(UNBOUND));
      case Closed =>
        r := Raised(Traceback(EBADF));
      case Open(q) =>
        if q !in fs || fs[q].Dir? {
          r := Raised(Traceback(EBADF));
        } else {
          var data := fs[q].data;
          if finPos >= |data| {
            r := Value([]);
          } else {
            var end := if finPos + n < |data| then finPos + n else |data|;
            r := Value(data[finPos..end]);
            finPos := end;
          }
        }
    }

    /** `_fin.close()`. */
    method CloseRead() returns (r: Reply<()>)
      modifies this`fin
      ensures fin == (if old(fin).Unbound? then Unbound else Closed)
      ensures r.Raised? <==> old(fin).Unbound?
    {
      if fin.Unbound? {
        r := Raised(Traceback(UNBOUND));
      } else {
        fin := Closed;
        r := Value(());
      }
    }

    /** `del _fin`. */
    method DelRead() returns (r: Reply<()>)
      modifies this`fin
      ensures fin == Unbound
      ensures r.Raised? <==> old(fin).Unbound?
    {
      r := if fin.Unbound? then Raised(Traceback(UNBOUND)) else Value(());
      fin := Unbound;
    }
  }

  // ---------------------------------------------------------------- the shape of a tree

  /** Whatever has a path below `d` in a tree makes `d` a directory of that tree. */
  lemma {:induction false} AncestorIsDir(fs: Fs, k: string, d: string)
    requires Tree(fs) && k in fs && Under(k, d) && d != ""
    ensures d in fs && fs[d] == Dir
    decreases |k|
  {
    assert k != "/";
    if IsChild(k, d) {
      ParentOfChild(k, d);
    } else {
      UpOne(k, d);
      AncestorIsDir(fs, Parent(k), d);
    }
  }

  /** Whatever has a path below `d` in a tree lies in the subtree of one of `d`'s children. */
  lemma {:induction false} ChildAncestor(fs: Fs, k: string, d: string) returns (c: string)
    requires Tree(fs) && k in fs && Under(k, d)
    ensures c in fs && IsChild(c, d) && InTree(k, c)
    decreases |k|
  {
    if IsChild(k, d) {
      c := k;
    } else {
      UpOne(k, d);
      c := ChildAncestor(fs, Parent(k), d);
      ChildOfParent(k);
      if Parent(k) != c {
        UnderTrans(k, Parent(k), c);
      }
    }
  }
}
