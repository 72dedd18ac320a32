/** The upload half of the transfer engine: `_upload_file`, `_upload` and `upload` copy files and
    directories of the host onto the device. */
module Uploading {
  import opened Errors
  import opened Seqs
  import opened Sorting
  import opened Paths
  import opened Device
  import opened RemoteFs
  import opened HostFs

  /** At most this many bytes go into one `_fout.write` call. */
  const MAX_WRITE_PER_PASS: nat := 64

  function Min(a: nat, b: nat): nat {
    if a < b then a else b
  }

  // ---------------------------------------------------------------- the chunk loop

  /** The `_fout.write` calls of the chunk loop for the bytes `data`, on a flash that accepts at
      most `window` bytes a call: each call is given the next MAX_WRITE_PER_PASS bytes still to be
      written, and the loop moves on by the count the call returns. */
  function WriteOps(dst: string, data: seq<byte>, window: nat): seq<Op>
    requires window >= 1
    decreases |data|
  {
    if data == [] then []
    else
      var chunk := data[..Min(MAX_WRITE_PER_PASS, |data|)];
      var n := Min(|chunk|, window);
      [Wrote(dst, chunk, n)] + WriteOps(dst, data[n..], window)
  }

  /** The bytes the `write` calls in `ops` put into the file, in order. */
  function Written(ops: seq<Op>): seq<byte> {
    if ops == [] then []
    else
      (if ops[0].Wrote? && ops[0].accepted <= |ops[0].given| then ops[0].given[..ops[0].accepted] else []) +
      Written(ops[1..])
  }

  /** The chunk loop writes the whole file, in order: the parts the calls accepted, put together,
      are the file. */
  lemma {:induction false} WriteOpsWriteAll(dst: string, data: seq<byte>, window: nat)
    requires window >= 1
    ensures Written(WriteOps(dst, data, window)) == data
    decreases |data|
  {
    if data != [] {
      var m := Min(MAX_WRITE_PER_PASS, |data|);
      var n := Min(m, window);
      var op := Wrote(dst, data[..m], n);
      var rest := WriteOps(dst, data[n..], window);
      WriteOpsWriteAll(dst, data[n..], window);
      assert ([op] + rest)[0] == op;
      assert ([op] + rest)[1..] == rest;
      TakeTake(data, m, n);
      TakeDrop(data, n);
    }
  }

  /** Every call of the chunk loop writes to `dst`, is given between one and MAX_WRITE_PER_PASS
      bytes, and has at least one of them accepted, no more than the flash takes at once. */
  lemma {:induction false} WriteOpsChunks(dst: string, data: seq<byte>, window: nat)
    requires window >= 1
    ensures forall op | op in WriteOps(dst, data, window) ::
      op.Wrote? && op.path == dst &&
      1 <= op.accepted <= |op.given| <= MAX_WRITE_PER_PASS && op.accepted <= window
    ensures |WriteOps(dst, data, window)| <= |data|
    decreases |data|
  {
    if data != [] {
      var m := Min(MAX_WRITE_PER_PASS, |data|);
      var n := Min(m, window);
      WriteOpsChunks(dst, data[n..], window);
    }
  }

  /** Putting new bytes into an existing file keeps the shape of the tree. */
  lemma RefillKeepsTree(fs: Fs, p: string, data: seq<byte>)
    requires Tree(fs) && p in fs && fs[p].File?
    ensures Tree(fs[p := File(data)])
  {
    var fs' := fs[p := File(data)];
    forall k | k in fs' && k != "/"
      ensures Canonical(k) && Parent(k) in fs' && fs'[Parent(k)] == Dir
    {
      assert k in fs;
    }
  }

  // ---------------------------------------------------------------- one file

  /** What `_upload_file(src, dst, overwrite, quick)` does to a device holding `fs` whose flash
      takes `window` bytes a write, when the host file `src` holds `data` (`None`: it cannot be
      read): the new filesystem, the changes made, and the outcome. An existing `dst` is refused
      without `overwrite`, a directory always; with `quick` a file of the same size is skipped. */
  function UploadFileOn(fs: Fs, window: nat, src: string, data: Option<seq<byte>>, dst: string,
                        overwrite: bool, quick: bool): (Fs, seq<Op>, Outcome)
    requires window >= 1
  {
    if dst in fs && !overwrite then (fs, [], Failed(Conflict(dst)))
    else if dst in fs && fs[dst].Dir? then (fs, [], Failed(Conflict(dst)))
    else if data.None? then (fs, [], Failed(LocalIo(src)))
    else if quick && dst in fs && |data.value| == Size(fs[dst]) then (fs, [], Done)
    else
      var created := CreateOn(fs, dst);
      if created.0.Raised? then (fs, [], Failed(Fault(created.0.message)))
      else (fs[dst := File(data.value)], [Created(dst)] + WriteOps(dst, data.value, window), Done)
  }

  /** An upload either changes nothing and logs nothing, or creates `dst` and fills it. */
  lemma UploadFileShape(fs: Fs, window: nat, src: string, data: Option<seq<byte>>, dst: string,
                        overwrite: bool, quick: bool)
    requires window >= 1
    ensures var r := UploadFileOn(fs, window, src, data, dst, overwrite, quick);
      (r.1 == [] ==> r.0 == fs) &&
      (r.1 != [] ==>
        data.Some? && CreateOn(fs, dst).0.Value? && r.2 == Done &&
        r.0 == fs[dst := File(data.value)] && r.1 == [Created(dst)] + WriteOps(dst, data.value, window))
  {
  }

  /** An upload that makes changes creates `dst` and then writes the whole host file into it, in
      order, in chunks of at most MAX_WRITE_PER_PASS bytes; afterwards `dst` holds exactly the bytes
      those writes accepted. */
  lemma UploadFileWrites(fs: Fs, window: nat, src: string, data: Option<seq<byte>>, dst: string,
                         overwrite: bool, quick: bool)
    requires window >= 1
    ensures var r := UploadFileOn(fs, window, src, data, dst, overwrite, quick);
      r.1 != [] ==>
        r.2 == Done && data.Some? && r.1[0] == Created(dst) &&
        dst in r.0 && r.0[dst] == File(Written(r.1[1..])) && Written(r.1[1..]) == data.value &&
        forall op | op in r.1[1..] :: op.Wrote? && op.path == dst && 1 <= op.accepted <= |op.given| <= MAX_WRITE_PER_PASS
  {
    var r := UploadFileOn(fs, window, src, data, dst, overwrite, quick);
    UploadFileShape(fs, window, src, data, dst, overwrite, quick);
    if r.1 != [] {
      assert r.1[1..] == WriteOps(dst, data.value, window);
      WriteOpsWriteAll(dst, data.value, window);
      WriteOpsChunks(dst, data.value, window);
    }
  }

  /** What `_upload_file` leaves alone: every path other than `dst`; `dst` itself when it exists
      and `overwrite` is off, or when it is a directory; and the shape of the tree. */
  lemma UploadFileKeeps(fs: Fs, window: nat, src: string, data: Option<seq<byte>>, dst: string,
                        overwrite: bool, quick: bool)
    requires window >= 1
    ensures var r := UploadFileOn(fs, window, src, data, dst, overwrite, quick);
      (forall k | k != dst :: (k in r.0 <==> k in fs) && (k in fs ==> r.0[k] == fs[k])) &&
      (dst in fs && (!overwrite || fs[dst].Dir?) ==> r.0 == fs && r.2 == Failed(Conflict(dst))) &&
      (Tree(fs) ==> Tree(r.0))
  {
    var r := UploadFileOn(fs, window, src, data, dst, overwrite, quick);
    UploadFileShape(fs, window, src, data, dst, overwrite, quick);
    if r.1 != [] {
      var created := CreateOn(fs, dst);
      CreateEffect(fs, dst);
      ReFilled(fs, dst, [], data.value);
      if Tree(fs) {
        RefillKeepsTree(created.1, dst, data.value);
      }
    }
  }

  /** With `quick`, a host file as long as the device file it would replace is skipped: nothing
      is written and the upload succeeds. */
  lemma UploadFileQuickSkips(fs: Fs, window: nat, src: string, data: seq<byte>, dst: string)
    requires window >= 1
    requires dst in fs && fs[dst].File? && |data| == |fs[dst].data|
    ensures UploadFileOn(fs, window, src, Some(data), dst, true, true) == (fs, [], Done)
  {
  }

  /** The chunk loop of `_upload_file`, on the file `dst` opened as `_fout`: each pass writes the
      next MAX_WRITE_PER_PASS bytes and drops as many as `write` returns, until nothing is left.
      Returns `total_written`. */
  method WriteChunks(dev: Device, dst: string, data: seq<byte>) returns (total: nat)
    requires dev.Valid() && dev.fout == Open(dst) && dst in dev.fs && dev.fs[dst].File?
    modifies dev`fs, dev`trace
    ensures dev.Valid() && total == |data|
    ensures dev.fs == old(dev.fs)[dst := File(old(dev.fs)[dst].data + data)]
    ensures dev.trace == old(dev.trace) + WriteOps(dst, data, dev.window)
  {
    ghost var start := dev.fs[dst].data;
    ghost var cur := start;
    ghost var done: seq<Op> := [];
    var rest := data;
    total := 0;
    EmptyAppend(WriteOps(dst, data, dev.window));
    EmptyAppend(dev.trace);
    EmptyAppend(start);
    while rest != []
      invariant dev.Valid() && dev.fout == Open(dst)
      invariant total <= |data| && rest == data[total..]
      invariant cur == start + data[..total]
      invariant dev.fs == old(dev.fs)[dst := File(cur)]
      invariant dev.trace == old(dev.trace) + done
      invariant WriteOps(dst, data, dev.window) == done + WriteOps(dst, rest, dev.window)
      decreases |rest|
    {
      var written, op := WriteStep(dev, dst, rest);
      Grown(start, data, total, rest, written);
      ReFilled(old(dev.fs), dst, cur, cur + rest[..written]);
      AppendAssoc(done, [op], WriteOps(dst, rest[written..], dev.window));
      AppendAssoc(old(dev.trace), done, [op]);
      cur := cur + rest[..written];
      done := done + [op];
      total := total + written;
      rest := rest[written..];
    }
    assert data[..total] == data;
  }

  /** One pass of the chunk loop: `_fout.write(rest[:MAX_WRITE_PER_PASS])`, appending what the
      flash accepted to the file and logging the call `op`, the first one `WriteOps` has for
      `rest`. */
  method WriteStep(dev: Device, dst: string, rest: seq<byte>) returns (written: nat, ghost op: Op)
    requires dev.Valid() && dev.fout == Open(dst) && dst in dev.fs && dev.fs[dst].File? && rest != []
    modifies dev`fs, dev`trace
    ensures dev.Valid() && 1 <= written <= |rest|
    ensures dev.fs == old(dev.fs)[dst := File(old(dev.fs)[dst].data + rest[..written])]
    ensures dev.trace == old(dev.trace) + [op]
    ensures WriteOps(dst, rest, dev.window) == [op] + WriteOps(dst, rest[written..], dev.window)
  {
    var chunk := rest[..Min(MAX_WRITE_PER_PASS, |rest|)];
    var w := dev.Write(chunk);
    written := w.value;
    op := Wrote(dst, chunk, written);
    TakeTake(rest, |chunk|, written);
  }

  /** The bytes written so far, grown by one pass. */
  lemma Grown(start: seq<byte>, data: seq<byte>, total: nat, rest: seq<byte>, written: nat)
    requires total <= |data| && rest == data[total..] && written <= |rest|
    ensures (start + data[..total]) + rest[..written] == start + data[..total + written]
    ensures rest[written..] == data[total + written..]
  {
    DropDrop(data, total, written);
    AppendAssoc(start, data[..total], rest[..written]);
  }

  /** Filling the same path twice leaves the second contents. */
  lemma ReFilled(fs: Fs, p: string, a: seq<byte>, b: seq<byte>)
    ensures fs[p := File(a)][p := File(b)] == fs[p := File(b)]
  {
  }

  /** `_upload_file(src, dst, overwrite, quick)`. `_fout` is unbound again after a file was
      written. */
  method UploadFile(dev: Device, host: Host, src: string, dst: string, overwrite: bool, quick: bool)
    returns (o: Outcome)
    requires dev.Valid()
    modifies dev`fs, dev`trace, dev`fout
    ensures dev.Valid()
    ensures var r := UploadFileOn(old(dev.fs), dev.window, src, FileData(host.fs, src), dst, overwrite, quick);
      dev.fs == r.0 && dev.trace == old(dev.trace) + r.1 && o == r.2 &&
      dev.fout == (if r.1 == [] then old(dev.fout) else Unbound)
  {
    ghost var fs := dev.fs;
    ghost var r := UploadFileOn(fs, dev.window, src, FileData(host.fs, src), dst, overwrite, quick);
    EmptyAppend(dev.trace);
    var st := Stat(dev, dst);
    var present := st.value;
    if present.Some? && !overwrite {
      assert r == (fs, [], Failed(Conflict(dst)));
      return Failed(Conflict(dst));
    }
    if present.Some? && present.value.isdir {
      assert r == (fs, [], Failed(Conflict(dst)));
      return Failed(Conflict(dst));
    }
    var data := host.ReadFile(src);
    if data.None? {
      assert r == (fs, [], Failed(LocalIo(src)));
      return Failed(LocalIo(src));
    }
    if quick && present.Some? && |data.value| == present.value.size {
      assert r == (fs, [], Done);
      return Done;
    }
    assert !(quick && dst in fs && |data.value| == Size(fs[dst]));
    o := WriteFile(dev, dst, data.value);
  }

  /** `open(p, 'wb+')` on the device either fails and changes nothing, or leaves an empty file
      at `p`. */
  lemma CreateEffect(fs: Fs, p: string)
    ensures CreateOn(fs, p).0.Raised? ==> CreateOn(fs, p).1 == fs
    ensures CreateOn(fs, p).0.Value? ==> CreateOn(fs, p).1 == fs[p := File([])]
  {
  }

  /** `_fout = open(dst, 'wb+')`, the chunk loop, `_fout.close()` and `del _fout`. */
  method WriteFile(dev: Device, dst: string, data: seq<byte>) returns (o: Outcome)
    requires dev.Valid()
    modifies dev`fs, dev`trace, dev`fout
    ensures dev.Valid()
    ensures var created := CreateOn(old(dev.fs), dst);
      (created.0.Raised? ==>
        o == Failed(Fault(created.0.message)) &&
        dev.fs == old(dev.fs) && dev.trace == old(dev.trace) && dev.fout == old(dev.fout)) &&
      (created.0.Value? ==>
        o == Done && dev.fs == old(dev.fs)[dst := File(data)] &&
        dev.trace == old(dev.trace) + ([Created(dst)] + WriteOps(dst, data, dev.window)) &&
        dev.fout == Unbound)
  {
    CreateEffect(dev.fs, dst);
    var reply := dev.OpenWrite(dst);
    if reply.Raised? {
      return Failed(Fault(reply.message));
    }
    var total := WriteChunks(dev, dst, data);
    EmptyAppend(data);
    ReFilled(old(dev.fs), dst, [], data);
    AppendAssoc(old(dev.trace), [Created(dst)], WriteOps(dst, data, dev.window));
    var closed := dev.CloseWrite();
    var deleted := dev.DelWrite();
    o := Done;
  }

  // ---------------------------------------------------------------- trees

  /** Between `before` and `after` nothing was removed, and whatever was added or changed lies in
      the tree of `d`. */
  ghost predicate ChangedOnlyIn(before: Fs, after: Fs, d: string) {
    before.Keys <= after.Keys &&
    forall k | k in after && (k !in before || after[k] != before[k]) :: InTree(k, d)
  }

  /** A device path that does not name anything on the device; no path below it can be made. */
  predicate Orphan(fs: Fs, d: string) {
    d != "" && d !in fs
  }

  lemma ChangedTrans(a: Fs, b: Fs, c: Fs, d: string)
    requires ChangedOnlyIn(a, b, d) && ChangedOnlyIn(b, c, d)
    ensures ChangedOnlyIn(a, c, d)
  {
    forall k | k in c && (k !in a || c[k] != a[k])
      ensures InTree(k, d)
    {
      if k in b && (k !in a || b[k] != a[k]) {
      } else {
        assert k !in b || c[k] != b[k];
      }
    }
  }

  /** A change confined to the tree of a child of `d` is confined to the tree of `d`. */
  lemma ChangedInChild(a: Fs, b: Fs, d: string, n: string)
    requires IsName(n) && ChangedOnlyIn(a, b, Join(d, n))
    ensures ChangedOnlyIn(a, b, d)
  {
    forall k | k in b && (k !in a || b[k] != a[k])
      ensures InTree(k, d)
    {
      InChildTree(k, d, n);
    }
  }

  /** Below a path that is not on a device holding a tree, there is nothing, and nothing can be
      created: `open` and `mkdir` both fail there. */
  lemma OrphanJoin(fs: Fs, dst: string, name: string)
    requires Tree(fs) && Orphan(fs, dst) && '/' !in name
    ensures var k := Join(dst, name);
      k !in fs && (k == "/" || !Canonical(k) || Parent(k) !in fs)
  {
    var k := Join(dst, name);
    if name == "" {
      assert dst != "/";
      assert k == dst + "/";
      assert k[|k| - 1] == '/' && |k| >= 2;
    } else {
      assert IsName(name);
      JoinIsChild(dst, name);
      if Canonical(k) && k != "/" {
        ParentOfChild(k, dst);
      }
    }
  }

  /** A host entry is strictly below the host directory it was listed in, so it has fewer
      descendants. */
  lemma LocalShrinks(keys: set<string>, d: string, n: string)
    requires IsName(n) && LocalJoin(d, n) in keys
    ensures |LocalDesc(keys, LocalJoin(d, n))| < |LocalDesc(keys, d)|
  {
    var c := LocalJoin(d, n);
    var a := LocalDesc(keys, c);
    var b := LocalDesc(keys, d);
    forall k | k in a
      ensures k in b - {c}
    {
      LocalChildTree(k, d, n);
    }
    assert c in b;
    SubsetSmaller(a, b - {c});
  }

  /** A device path that is not there and cannot be created: `open` and `mkdir` both fail on it
      for want of a parent directory. */
  predicate Unreachable(fs: Fs, p: string) {
    p !in fs && (p == "/" || !Canonical(p) || Parent(p) !in fs)
  }

  /** Uploading one file to an unreachable path changes nothing and is not refused as a
      conflict. */
  lemma UploadFileUnreachable(fs: Fs, window: nat, src: string, data: Option<seq<byte>>, dst: string,
                              overwrite: bool, quick: bool)
    requires window >= 1 && Unreachable(fs, dst)
    ensures var r := UploadFileOn(fs, window, src, data, dst, overwrite, quick);
      r.0 == fs && r.1 == [] && r.2.Failed? && !r.2.error.Conflict?
  {
  }

  /** `_upload(src, dst, overwrite, quick)`: uploads the host file or directory `src` into the
      device directory `dst`, as `dst/basename(src)`. Only the tree at `dst/basename(src)`
      changes, nothing is removed, and below a missing `dst` nothing changes and the failure is
      never a conflict. */
  method UploadTree(dev: Device, host: Host, src: string, dst: string, overwrite: bool, quick: bool)
    returns (o: Outcome)
    requires dev.Valid()
    modifies dev`fs, dev`trace, dev`fout
    ensures dev.Valid()
    ensures ChangedOnlyIn(old(dev.fs), dev.fs, Join(dst, Basename(src)))
    ensures Orphan(old(dev.fs), dst) ==> dev.fs == old(dev.fs) && !(o.Failed? && o.error.Conflict?)
    decreases |LocalDesc(host.fs.Keys, src)|, 2
  {
    var name := Basename(src);
    var dstPath := if dst == "/" then "/" + name else dst + "/" + name;
    assert dstPath == Join(dst, name);
    if Orphan(dev.fs, dst) {
      OrphanJoin(dev.fs, dst, name);
    }
    var isDir := host.IsDir(src);
    if isDir {
      o := UploadDir(dev, host, src, dstPath, overwrite, quick);
    } else {
      var isFile := host.IsFile(src);
      if isFile {
        ghost var fs := dev.fs;
        o := UploadFile(dev, host, src, dstPath, overwrite, quick);
        UploadFileKeeps(fs, dev.window, src, FileData(host.fs, src), dstPath, overwrite, quick);
        if Unreachable(fs, dstPath) {
          UploadFileUnreachable(fs, dev.window, src, FileData(host.fs, src), dstPath, overwrite, quick);
        }
      } else {
        o := Failed(LocalIo(src));
      }
    }
  }

  /** The directory case of `_upload`: `dstPath` is created when missing, a device file in its
      place is refused, and then the entries of `src` go into it. */
  method UploadDir(dev: Device, host: Host, src: string, dstPath: string, overwrite: bool, quick: bool)
    returns (o: Outcome)
    requires dev.Valid()
    modifies dev`fs, dev`trace, dev`fout
    ensures dev.Valid()
    ensures ChangedOnlyIn(old(dev.fs), dev.fs, dstPath)
    ensures Unreachable(old(dev.fs), dstPath) ==> dev.fs == old(dev.fs) && !(o.Failed? && o.error.Conflict?)
    ensures dstPath in old(dev.fs) && old(dev.fs)[dstPath].File? ==>
      o == Failed(Conflict(dstPath)) && dev.fs == old(dev.fs)
    decreases |LocalDesc(host.fs.Keys, src)|, 1
  {
    var st := Stat(dev, dstPath);
    var present := st.value;
    if present.None? {
      o := Mkdir(dev, dstPath);
      if o.Failed? {
        return;
      }
    } else if present.value.isfile {
      return Failed(Conflict(dstPath));
    }
    ghost var made := dev.fs;
    o := UploadEach(dev, host, src, dstPath, overwrite, quick);
    ChangedTrans(old(dev.fs), made, dev.fs, dstPath);
  }

  /** The loop over `sorted(os.listdir(src))` shared by `_upload` and `upload`: every entry but
      `.` and `..` is uploaded into `dstPath`, stopping at the first failure. */
  method UploadEach(dev: Device, host: Host, src: string, dstPath: string, overwrite: bool, quick: bool)
    returns (o: Outcome)
    requires dev.Valid()
    modifies dev`fs, dev`trace, dev`fout
    ensures dev.Valid()
    ensures ChangedOnlyIn(old(dev.fs), dev.fs, dstPath)
    ensures Orphan(old(dev.fs), dstPath) ==> dev.fs == old(dev.fs) && !(o.Failed? && o.error.Conflict?)
    decreases |LocalDesc(host.fs.Keys, src)|, 0
  {
    var names := host.Listdir(src);
    var sorted := SortNames(names);
    for i := 0 to |sorted|
      invariant dev.Valid()
      invariant ChangedOnlyIn(old(dev.fs), dev.fs, dstPath)
      invariant Orphan(old(dev.fs), dstPath) ==> dev.fs == old(dev.fs)
    {
      var n := sorted[i];
      if n != ".." && n != "." {
        assert n in multiset(sorted);
        assert n in names;
        LocalShrinks(host.fs.Keys, src, n);
        ghost var before := dev.fs;
        o := UploadTree(dev, host, LocalJoin(src, n), dstPath, overwrite, quick);
        BasenameLocalJoin(src, n);
        ChangedInChild(before, dev.fs, dstPath, n);
        ChangedTrans(old(dev.fs), before, dev.fs, dstPath);
        if o.Failed? {
          return;
        }
      }
    }
    o := Done;
  }

  /** `upload(src, dst, contents, overwrite, quick)`. A `dst` that is a file is refused; a missing
      `dst` is not checked here, but nothing can be created below it. With `contents` the entries
      of the host directory `src` go into `dst` itself, otherwise `src` goes in as a whole. */
  method Upload(dev: Device, host: Host, src: string, dst: string, contents: bool, overwrite: bool,
                quick: bool) returns (o: Outcome)
    requires dev.Valid()
    modifies dev`fs, dev`trace, dev`fout
    ensures dev.Valid()
    ensures dst in old(dev.fs) && old(dev.fs)[dst].File? ==>
      o == Failed(Conflict(dst)) && dev.fs == old(dev.fs) && dev.trace == old(dev.trace)
    ensures contents && !(src in host.fs && host.fs[src].LocalDir?) && !(dst in old(dev.fs) && old(dev.fs)[dst].File?) ==>
      o == Failed(LocalIo(src)) && dev.fs == old(dev.fs) && dev.trace == old(dev.trace)
    ensures contents ==> ChangedOnlyIn(old(dev.fs), dev.fs, dst)
    ensures !contents ==> ChangedOnlyIn(old(dev.fs), dev.fs, Join(dst, Basename(src)))
    ensures Orphan(old(dev.fs), dst) ==> dev.fs == old(dev.fs) && !(o.Failed? && o.error.Conflict?)
  {
    var st := Stat(dev, dst);
    var present := st.value;
    if present.Some? && !present.value.isdir {
      return Failed(Conflict(dst));
    }
    if contents {
      var isDir := host.IsDir(src);
      if !isDir {
        return Failed(LocalIo(src));
      }
      o := UploadEach(dev, host, src, dst, overwrite, quick);
    } else {
      o := UploadTree(dev, host, src, dst, overwrite, quick);
    }
  }
}
