/** The syncer's view of the device filesystem: `StatResult`, `EspException.last_line`, `stat`,
    `ls`, `lsl`, `rm`, `rmdir` and `mkdir`, each a remote call followed by the source's reading of
    its reply. */
module RemoteFs {
  import opened Errors
  import opened Seqs
  import opened Sorting
  import opened Device
  import opened Listing

  /** What `stat` tells about a path. */
  datatype StatResult = StatResult(isfile: bool, isdir: bool, size: int)

  /** `StatResult(st)`: the mode picks file or directory, anything else raises; the size is `st[6]`.
      A tuple too short to index raises `IndexError`, reported as a desync. */
  function MakeStat(st: seq<int>): (r: Result<StatResult>)
    ensures r.Ok? <==> |st| > 6 && (st[0] == ST_TYPE_FILE || st[0] == ST_TYPE_DIRECTORY)
    ensures r.Ok? ==>
      r.value.isfile != r.value.isdir &&
      (r.value.isfile <==> st[0] == ST_TYPE_FILE) &&
      (r.value.isdir <==> st[0] == ST_TYPE_DIRECTORY) &&
      r.value.size == st[6]
    ensures |st| > 0 && st[0] != ST_TYPE_FILE && st[0] != ST_TYPE_DIRECTORY ==> r == Err(NotFileOrDir(st[0]))
  {
    if |st| == 0 then Err(Desync("stat tuple"))
    else if st[0] == ST_TYPE_FILE then
      if |st| > 6 then Ok(StatResult(true, false, st[6])) else Err(Desync("stat tuple"))
    else if st[0] == ST_TYPE_DIRECTORY then
      if |st| > 6 then Ok(StatResult(false, true, st[6])) else Err(Desync("stat tuple"))
    else Err(NotFileOrDir(st[0]))
  }

  /** `EspException.last_line`: the text after the final newline of the message, which is the
      whole message when it has none, and empty when the message ends with a newline. */
  function LastLine(message: string): (r: string)
    ensures |r| <= |message| && message[|message| - |r|..] == r
    ensures forall i | 0 <= i < |r| :: r[i] != '\n'
    ensures |r| < |message| ==> message[|message| - |r| - 1] == '\n'
  {
    LastPieceShape(message);
    LastPiece(message, "\n")
  }

  lemma LastPieceShape(message: string)
    ensures var r := LastPiece(message, "\n");
      |r| <= |message| && message[|message| - |r|..] == r &&
      (forall i | 0 <= i < |r| :: r[i] != '\n') &&
      (|r| < |message| ==> message[|message| - |r| - 1] == '\n')
  {
    LastPieceIsTail(message, "\n");
    SplitPiecesFree(message, "\n");
    var parts := Split(message, "\n");
    var r := LastPiece(message, "\n");
    assert r == parts[|parts| - 1];
    assert !Contains(r, "\n");
    FreeOf(r, '\n');
    if |r| < |message| {
      assert SeparatorEndsAt(message, |message| - |r|, "\n");
    }
  }

  /** The test `stat` applies to a fault: its last line is non-empty and ends with `ENOENT`. */
  predicate IsAbsent(message: string) {
    var l := LastLine(message);
    l != "" && EndsWith(l, "ENOENT")
  }

  /** The last line of a text whose final part after a newline has no newline is that part. */
  lemma LastLineOf(head: string, tail: string)
    requires forall i | 0 <= i < |tail| :: tail[i] != '\n'
    ensures LastLine(head + "\n" + tail) == tail
  {
    var s := head + "\n" + tail;
    var r := LastLine(s);
    assert s[|head|] == '\n';
    assert |r| == |tail|;
    assert s[|s| - |tail|..] == tail;
  }

  /** A traceback for an exception whose text has no newline has that text as its last line. */
  lemma TracebackLastLine(exc: string)
    requires forall i | 0 <= i < |exc| :: exc[i] != '\n'
    ensures LastLine(Traceback(exc)) == exc
  {
    var head := Transport.TRACEBACK + "\r\n  File \"<stdin>\", line 1, in <module>\r";
    assert Traceback(exc) == head + "\n" + exc;
    LastLineOf(head, exc);
  }

  /** `stat` reads a missing path as "absent" and every other fault of the device as an error. */
  lemma AbsentOnlyForENOENT()
    ensures IsAbsent(Traceback(ENOENT))
    ensures !IsAbsent(Traceback(EEXIST)) && !IsAbsent(Traceback(ENOTDIR)) && !IsAbsent(Traceback(EISDIR))
    ensures !IsAbsent(Traceback(ENOTEMPTY)) && !IsAbsent(Traceback(EPERM)) && !IsAbsent(Traceback(EBADF))
  {
    AbsentENOENT();
    NotAbsentEexist();
    NotAbsentEnotdir();
    NotAbsentEisdir();
    NotAbsentEnotempty();
    NotAbsentEperm();
    NotAbsentEbadf();
  }

  /** A text without a newline. */
  predicate OneLine(s: string) {
    forall i | 0 <= i < |s| :: s[i] != '\n'
  }

  lemma AbsentENOENT()
    ensures IsAbsent(Traceback(ENOENT))
  {
    assert OneLine(ENOENT);
    AbsentWhen(ENOENT);
  }

  lemma NotAbsentEexist()
    ensures !IsAbsent(Traceback(EEXIST))
  {
    assert OneLine(EEXIST);
    NotAbsentWhen(EEXIST, 1);
  }

  lemma NotAbsentEnotdir()
    ensures !IsAbsent(Traceback(ENOTDIR))
  {
    assert OneLine(ENOTDIR);
    NotAbsentWhen(ENOTDIR, 0);
  }

  lemma NotAbsentEisdir()
    ensures !IsAbsent(Traceback(EISDIR))
  {
    assert OneLine(EISDIR);
    NotAbsentWhen(EISDIR, 1);
  }

  lemma NotAbsentEnotempty()
    ensures !IsAbsent(Traceback(ENOTEMPTY))
  {
    assert OneLine(ENOTEMPTY);
    NotAbsentWhen(ENOTEMPTY, 0);
  }

  lemma NotAbsentEperm()
    ensures !IsAbsent(Traceback(EPERM))
  {
    assert OneLine(EPERM);
    NotAbsentWhen(EPERM, 0);
  }

  lemma NotAbsentEbadf()
    ensures !IsAbsent(Traceback(EBADF))
  {
    assert OneLine(EBADF);
    NotAbsentWhen(EBADF, 0);
  }

  /** A one-line exception text ending in `ENOENT` reads as "absent". */
  lemma AbsentWhen(exc: string)
    requires OneLine(exc) && EndsWith(exc, "ENOENT")
    ensures IsAbsent(Traceback(exc))
  {
    TracebackLastLine(exc);
  }

  /** A one-line exception text that differs from `ENOENT` at position `k` of its last six
      characters does not read as "absent". */
  lemma NotAbsentWhen(exc: string, k: nat)
    requires OneLine(exc)
    requires 6 <= |exc| && k < 6 && exc[|exc| - 6 + k] != "ENOENT"[k]
    ensures !IsAbsent(Traceback(exc))
  {
    TracebackLastLine(exc);
    assert exc[|exc| - 6..][k] == exc[|exc| - 6 + k];
  }

  /** The body of `stat` once the remote call has answered: a stat tuple is classified, a fault is
      "absent" exactly when `IsAbsent` holds and is raised again otherwise. */
  function StatReply(reply: Reply<seq<int>>): (r: Result<Option<StatResult>>)
    ensures reply.Raised? ==> (r == Ok(None) <==> IsAbsent(reply.message))
    ensures reply.Raised? && !IsAbsent(reply.message) ==> r == Err(Fault(reply.message))
    ensures reply.Value? ==> (r.Ok? <==> MakeStat(reply.value).Ok?)
    ensures reply.Value? && r.Ok? ==> r.value == Some(MakeStat(reply.value).value)
  {
    match reply
    case Value(st) =>
      (match MakeStat(st)
       case Ok(s) => Ok(Some(s))
       case Err(e) => Err(e))
    case Raised(m) =>
      if IsAbsent(m) then Ok(None) else Err(Fault(m))
  }

  /** What `stat` reports for a node of the device. */
  function Classify(n: Node): StatResult {
    StatResult(n.File?, n.Dir?, Size(n))
  }

  /** `stat(p)`: `None` exactly when the device has no such path. */
  method Stat(dev: Device, p: string) returns (r: Result<Option<StatResult>>)
    ensures r == StatReply(StatOn(dev.fs, p))
    ensures p in dev.fs ==> r == Ok(Some(Classify(dev.fs[p])))
    ensures p !in dev.fs ==> r == Ok(None)
  {
    var reply := dev.Stat(p);
    r := StatReply(reply);
    AbsentOnlyForENOENT();
  }

  /** `assert self.eval("... or True") is True`. */
  function Expect(reply: Reply<bool>): (o: Outcome)
    ensures o.Done? <==> reply == Value(true)
    ensures reply.Raised? ==> o == Failed(Fault(reply.message))
    ensures reply.Value? && !reply.value ==> o.Failed? && o.error.Desync?
  {
    match reply
    case Value(b) => if b then Done else Failed(Desync("is True"))
    case Raised(m) => Failed(Fault(m))
  }

  /** `rm(p)`: removes a file; anything else is left as it is and raises. */
  method Rm(dev: Device, p: string) returns (o: Outcome)
    requires dev.Valid()
    modifies dev`fs, dev`trace
    ensures dev.Valid()
    ensures o == Expect(RemoveOn(old(dev.fs), p).0) && dev.fs == RemoveOn(old(dev.fs), p).1
    ensures o.Done? <==> p in old(dev.fs) && old(dev.fs)[p].File?
    ensures o.Done? ==> dev.fs == old(dev.fs) - {p} && dev.trace == old(dev.trace) + [Removed(p)]
    ensures o.Failed? ==> o.error.Fault? && dev.fs == old(dev.fs) && dev.trace == old(dev.trace)
  {
    var reply := dev.Remove(p);
    o := Expect(reply);
  }

  /** `rmdir(p)`: removes an empty directory other than the root. */
  method Rmdir(dev: Device, p: string) returns (o: Outcome)
    requires dev.Valid()
    modifies dev`fs, dev`trace
    ensures dev.Valid()
    ensures o == Expect(RmdirOn(old(dev.fs), p).0) && dev.fs == RmdirOn(old(dev.fs), p).1
    ensures o.Done? <==> p in old(dev.fs) && old(dev.fs)[p].Dir? && p != "/" && !HasChildren(old(dev.fs), p)
    ensures o.Done? ==> dev.fs == old(dev.fs) - {p} && dev.trace == old(dev.trace) + [RemovedDir(p)]
    ensures o.Failed? ==> o.error.Fault? && dev.fs == old(dev.fs) && dev.trace == old(dev.trace)
  {
    var reply := dev.Rmdir(p);
    o := Expect(reply);
  }

  /** `mkdir(p)`: adds a directory at a new canonical path whose parent is a directory. */
  method Mkdir(dev: Device, p: string) returns (o: Outcome)
    requires dev.Valid()
    modifies dev`fs, dev`trace
    ensures dev.Valid()
    ensures o == Expect(MkdirOn(old(dev.fs), p).0)
    ensures o.Done? <==>
      p !in old(dev.fs) && p != "/" && Paths.Canonical(p) &&
      Paths.Parent(p) in old(dev.fs) && old(dev.fs)[Paths.Parent(p)].Dir?
    ensures o.Done? ==> dev.fs == old(dev.fs)[p := Dir] && dev.trace == old(dev.trace) + [Made(p)]
    ensures o.Failed? ==> o.error.Fault? && dev.fs == old(dev.fs) && dev.trace == old(dev.trace)
  {
    var reply := dev.Mkdir(p);
    o := Expect(reply);
  }

  /** `list(ls(p))`: directories with `/` appended, sorted, then files, sorted. */
  method Ls(dev: Device, p: string) returns (r: Result<seq<string>>)
    ensures ListOn(dev.fs, p).Raised? ==> r == Err(Fault(ListOn(dev.fs, p).message))
    ensures ListOn(dev.fs, p).Value? ==> r == Ok(LsOrder(Enumerate(ListOn(dev.fs, p).value)))
  {
    var reply := dev.Ilistdir(p);
    if reply.Raised? {
      return Err(Fault(reply.message));
    }
    var items := reply.value;
    var dnames, fnames := Partition(items);
    LsOrderPermutation(items, Enumerate(ListOn(dev.fs, p).value));
    r := Ok(WithSlash(SortNames(dnames)) + SortNames(fnames));
  }

  /** `list(lsl(p))`: (name + `/`, 0) for directories, sorted, then (name, size) for files, sorted. */
  method Lsl(dev: Device, p: string) returns (r: Result<seq<(string, int)>>)
    ensures ListOn(dev.fs, p).Raised? ==> r == Err(Fault(ListOn(dev.fs, p).message))
    ensures ListOn(dev.fs, p).Value? ==> r == Ok(LslOrder(Enumerate(ListOn(dev.fs, p).value)))
  {
    var reply := dev.Ilistdir(p);
    if reply.Raised? {
      return Err(Fault(reply.message));
    }
    var items := reply.value;
    var dnames, fnames := PartitionPairs(items);
    LslOrderPermutation(items, Enumerate(ListOn(dev.fs, p).value));
    r := Ok(SortPairs(dnames) + SortPairs(fnames));
  }
}
