/** The download half of the transfer engine: `_download_file`, `_download` and `download` copy
    files and directories of the device onto the host. */
module Downloading {
  import opened Errors
  import opened Seqs
  import opened Sorting
  import opened Paths
  import opened Device
  import opened Listing
  import opened RemoteFs
  import opened HostFs
  import Uploading

  /** `_fin.read` is asked for this many bytes at a time. */
  const MAX_READ_PER_PASS: nat := 64

  // ---------------------------------------------------------------- one file

  /** What `_download_file(src, dst, overwrite, quick)` does to a host holding `hfs`, from a
      device holding `fs`: the new host filesystem and the outcome. A host directory at `dst` is
      refused, and so is a host file without `overwrite`; with `quick` a host file as long as the
      device's entry is skipped. */
  function DownloadFileOn(fs: Fs, hfs: LocalFs, src: string, dst: string, overwrite: bool,
                          quick: bool): (LocalFs, Outcome)
  {
    if dst in hfs && hfs[dst].LocalDir? then (hfs, Failed(Conflict(dst)))
    else if dst in hfs && !overwrite then (hfs, Failed(Conflict(dst)))
    else if quick && src in fs && dst in hfs && |hfs[dst].data| == Size(fs[src]) then (hfs, Done)
    else if src !in fs then (hfs, Failed(Fault(Traceback(ENOENT))))
    else if fs[src].Dir? then (hfs, Failed(Fault(Traceback(EISDIR))))
    else (hfs[dst := LocalFile(fs[src].data)], Done)
  }

  /** A download that changes the host leaves at `dst` a file holding exactly the bytes of the
      device file `src`; it only changes the host when it succeeds. */
  lemma DownloadFileFetches(fs: Fs, hfs: LocalFs, src: string, dst: string, overwrite: bool, quick: bool)
    ensures var r := DownloadFileOn(fs, hfs, src, dst, overwrite, quick);
      r.0 != hfs ==>
        r.1 == Done && src in fs && fs[src].File? && FileData(r.0, dst) == Some(fs[src].data)
  {
  }

  /** What `_download_file` leaves alone: every host path other than `dst`; `dst` itself when it
      is a directory, or a file and `overwrite` is off, each refused as a conflict. Nothing on the
      host is removed. */
  lemma DownloadFileKeeps(fs: Fs, hfs: LocalFs, src: string, dst: string, overwrite: bool, quick: bool)
    ensures var r := DownloadFileOn(fs, hfs, src, dst, overwrite, quick);
      hfs.Keys <= r.0.Keys &&
      (forall k | k != dst :: (k in r.0 <==> k in hfs) && (k in hfs ==> r.0[k] == hfs[k])) &&
      (dst in hfs && (hfs[dst].LocalDir? || !overwrite) ==> r == (hfs, Failed(Conflict(dst))))
  {
  }

  /** Downloading a file that `_upload_file` has just written, without `quick`, gives back the
      bytes of the host file that was uploaded. */
  lemma UploadDownloadRoundTrip(fs: Fs, window: nat, hsrc: string, data: seq<byte>, dst: string,
                                hfs: LocalFs, hdst: string)
    requires window >= 1
    requires Uploading.UploadFileOn(fs, window, hsrc, Some(data), dst, true, false).2 == Done
    requires !(hdst in hfs && hfs[hdst].LocalDir?)
    ensures var up := Uploading.UploadFileOn(fs, window, hsrc, Some(data), dst, true, false);
      var down := DownloadFileOn(up.0, hfs, dst, hdst, true, false);
      down.1 == Done && FileData(down.0, hdst) == Some(data)
  {
    Uploading.UploadFileShape(fs, window, hsrc, Some(data), dst, true, false);
  }

  /** With `quick`, a device entry as long as the host file it would replace is skipped: the host
      is left as it is and the download succeeds. */
  lemma DownloadFileQuickSkips(fs: Fs, hfs: LocalFs, src: string, dst: string)
    requires src in fs && dst in hfs && hfs[dst].LocalFile? && |hfs[dst].data| == Size(fs[src])
    ensures DownloadFileOn(fs, hfs, src, dst, true, true) == (hfs, Done)
  {
  }

  /** The read loop of `_download_file`, with `_fin` open on a device file and `dst` the empty host
      file just created: each pass asks for MAX_READ_PER_PASS bytes and appends what comes back,
      until the read comes back empty. Returns `total_read`. */
  method ReadChunks(dev: Device, host: Host, dst: string) returns (total: nat)
    requires dev.fin.Open? && dev.fin.path in dev.fs && dev.fs[dev.fin.path].File? && dev.finPos == 0
    requires dst in host.fs && host.fs[dst] == LocalFile([])
    modifies host, dev`finPos
    ensures host.fs == old(host.fs)[dst := LocalFile(dev.fs[dev.fin.path].data)]
    ensures total == |dev.fs[dev.fin.path].data|
  {
    ghost var content := dev.fs[dev.fin.path].data;
    ghost var cur: seq<byte> := [];
    total := 0;
    ReFilledLocal(old(host.fs), dst, [], []);
    while true
      invariant dev.finPos == total <= |content|
      invariant cur == content[..total]
      invariant host.fs == old(host.fs)[dst := LocalFile(cur)]
      decreases |content| - total
    {
      var r := dev.Read(MAX_READ_PER_PASS);
      var data := r.value;
      if data == [] {
        break;
      }
      host.Append(dst, data);
      ReFilledLocal(old(host.fs), dst, cur, cur + data);
      ReadMore(content, total, |data|);
      cur := cur + data;
      total := total + |data|;
    }
    assert content[..total] == content;
  }

  /** The bytes read so far, grown by one pass. */
  lemma ReadMore(content: seq<byte>, total: nat, n: nat)
    requires total + n <= |content|
    ensures content[..total] + content[total..total + n] == content[..total + n]
  {
  }

  /** Filling the same host path twice leaves the second contents. */
  lemma ReFilledLocal(hfs: LocalFs, p: string, a: seq<byte>, b: seq<byte>)
    ensures hfs[p := LocalFile(a)][p := LocalFile(b)] == hfs[p := LocalFile(b)]
  {
  }

  /** `_download_file(src, dst, overwrite, quick)`. `_fin` is unbound again after a file was
      read. */
  method DownloadFile(dev: Device, host: Host, src: string, dst: string, overwrite: bool, quick: bool)
    returns (o: Outcome)
    modifies host, dev`fin, dev`finPos
    ensures var r := DownloadFileOn(dev.fs, old(host.fs), src, dst, overwrite, quick);
      host.fs == r.0 && o == r.1
    ensures dev.fin == old(dev.fin) || dev.fin == Unbound
  {
    var isDir := host.IsDir(dst);
    if isDir {
      return Failed(Conflict(dst));
    }
    var isFile := host.IsFile(dst);
    if isFile && !overwrite {
      return Failed(Conflict(dst));
    }
    if quick {
      var st := Stat(dev, src);
      var present := st.value;
      if present.Some? && isFile {
        var size := host.FileSize(dst);
        if size == present.value.size {
          return Done;
        }
      }
    }
    o := FetchFile(dev, host, src, dst);
  }

  /** `_fin = open(src, 'rb')`, the read loop into `open(dst, 'wb+')`, `_fin.close()` and
      `del _fin`. */
  method FetchFile(dev: Device, host: Host, src: string, dst: string) returns (o: Outcome)
    requires !(dst in host.fs && host.fs[dst].LocalDir?)
    modifies host, dev`fin, dev`finPos
    ensures src !in dev.fs ==> o == Failed(Fault(Traceback(ENOENT))) && host.fs == old(host.fs)
    ensures src in dev.fs && dev.fs[src].Dir? ==>
      o == Failed(Fault(Traceback(EISDIR))) && host.fs == old(host.fs)
    ensures src in dev.fs && dev.fs[src].File? ==>
      o == Done && host.fs == old(host.fs)[dst := LocalFile(dev.fs[src].data)]
    ensures dev.fin == old(dev.fin) || dev.fin == Unbound
  {
    var reply := dev.OpenRead(src);
    if reply.Raised? {
      return Failed(Fault(reply.message));
    }
    host.Create(dst);
    ghost var created := host.fs;
    var total := ReadChunks(dev, host, dst);
    ReFilledLocal(old(host.fs), dst, [], dev.fs[src].data);
    var closed := dev.CloseRead();
    var deleted := dev.DelRead();
    o := Done;
  }

  // ---------------------------------------------------------------- trees

  /** Between `before` and `after` nothing was removed from the host, and whatever was added or
      changed lies in the host tree of `d`. */
  ghost predicate LocalChangedOnlyIn(before: LocalFs, after: LocalFs, d: string) {
    before.Keys <= after.Keys &&
    forall k | k in after && (k !in before || after[k] != before[k]) :: LocalInTree(k, d)
  }

  lemma LocalChangedTrans(a: LocalFs, b: LocalFs, c: LocalFs, d: string)
    requires LocalChangedOnlyIn(a, b, d) && LocalChangedOnlyIn(b, c, d)
    ensures LocalChangedOnlyIn(a, c, d)
  {
    forall k | k in c && (k !in a || c[k] != a[k])
      ensures LocalInTree(k, d)
    {
      if k in b && (k !in a || b[k] != a[k]) {
      } else {
        assert k !in b || c[k] != b[k];
      }
    }
  }

  /** A change confined to the host tree of a child of `d` is confined to the host tree of `d`. */
  lemma LocalChangedInChild(a: LocalFs, b: LocalFs, d: string, n: string)
    requires IsName(n) && LocalChangedOnlyIn(a, b, LocalJoin(d, n))
    ensures LocalChangedOnlyIn(a, b, d)
  {
    forall k | k in b && (k !in a || b[k] != a[k])
      ensures LocalInTree(k, d)
    {
      if k == LocalJoin(d, n) {
        assert k[..|LocalPrefix(d)|] == LocalPrefix(d);
      } else {
        LocalChildTree(k, d, n);
      }
    }
  }

  /** A change confined to one host path below `d` is confined to the host tree of `d`. */
  lemma LocalChangedBelow(a: LocalFs, b: LocalFs, p: string, d: string)
    requires LocalUnder(p, d)
    requires a.Keys <= b.Keys
    requires forall k | k != p :: (k in b <==> k in a) && (k in a ==> b[k] == a[k])
    ensures LocalChangedOnlyIn(a, b, d)
  {
  }

  /** An item `uos.ilistdir(d)` yields is a child of `d` on the device. */
  lemma ListedEntry(fs: Fs, d: string, e: Entry)
    requires ListOn(fs, d).Value? && e in ListOn(fs, d).value
    ensures IsName(e.name) && Join(d, e.name) in fs
  {
    var k :| k in fs && IsChild(k, d) && e == EntryOf(fs, d, k);
    ChildIsJoin(k, d);
  }

  /** A device entry written `src + "/" + n` has fewer paths below it than `src` has. */
  lemma RemoteShrinks(keys: set<string>, src: string, n: string)
    requires IsName(n) && Join(src, n) in keys
    ensures |Desc(keys, src + "/" + n)| < |Desc(keys, src)|
  {
    var c := Join(src, n);
    var a := Desc(keys, src + "/" + n);
    var b := Desc(keys, src);
    JoinIsChild(src, n);
    assert c in b;
    forall k | k in a
      ensures k in b - {c}
    {
      SlashJoinUnder(k, src, n);
      if k == c {
        ShortNotUnder(c, src, n);
      }
    }
    SubsetSmaller(a, b - {c});
  }

  /** `_download(src, dst, overwrite, quick, isdir)`: downloads the device file or directory
      `src` into the host directory `dst`, as `dst/basename(src)`. Only the host tree at
      `dst/basename(src)` changes and nothing is removed; a missing `src` is reported before
      anything changes. */
  method DownloadTree(dev: Device, host: Host, src: string, dst: string, overwrite: bool, quick: bool,
                      isdir: Option<bool>) returns (o: Outcome)
    modifies host, dev`fin, dev`finPos
    ensures LocalChangedOnlyIn(old(host.fs), host.fs, LocalJoin(dst, Basename(src)))
    ensures isdir.None? && src !in dev.fs ==> o == Failed(NoSuchPath(src)) && host.fs == old(host.fs)
    ensures dev.fin == old(dev.fin) || dev.fin == Unbound
    decreases |Desc(dev.fs.Keys, src)|, 2
  {
    var name := Basename(src);
    var dstPath := if dst == "/" then "/" + name else LocalJoin(dst, name);
    assert dstPath == LocalJoin(dst, name);
    var dir: bool;
    if isdir.None? {
      var st := Stat(dev, src);
      var present := st.value;
      if present.None? {
        return Failed(NoSuchPath(src));
      }
      dir := present.value.isdir;
    } else {
      dir := isdir.value;
    }
    if dir {
      o := DownloadDir(dev, host, src, dstPath, overwrite, quick);
    } else {
      ghost var before := host.fs;
      o := DownloadFile(dev, host, src, dstPath, overwrite, quick);
      DownloadFileKeeps(dev.fs, before, src, dstPath, overwrite, quick);
    }
  }

  /** The directory case of `_download`: the host directory `dstPath` is created when missing, a
      host file in its place is refused, and then the items of `uos.ilistdir(src)` are fetched in
      the device's order. */
  method DownloadDir(dev: Device, host: Host, src: string, dstPath: string, overwrite: bool, quick: bool)
    returns (o: Outcome)
    modifies host, dev`fin, dev`finPos
    ensures LocalChangedOnlyIn(old(host.fs), host.fs, dstPath)
    ensures dstPath in old(host.fs) && old(host.fs)[dstPath].LocalFile? ==>
      o == Failed(Conflict(dstPath)) && host.fs == old(host.fs)
    ensures dev.fin == old(dev.fin) || dev.fin == Unbound
    decreases |Desc(dev.fs.Keys, src)|, 1
  {
    var isFile := host.IsFile(dstPath);
    var isDir := host.IsDir(dstPath);
    if !isFile && !isDir {
      host.Mkdir(dstPath);
    } else if isFile {
      return Failed(Conflict(dstPath));
    }
    var reply := dev.Ilistdir(src);
    if reply.Raised? {
      return Failed(Fault(reply.message));
    }
    var items := reply.value;
    forall e | e in items
      ensures e in ListOn(dev.fs, src).value
    {
      assert e in multiset(items);
    }
    ghost var made := host.fs;
    o := DownloadEach(dev, host, src, dstPath, items, overwrite, quick);
    LocalChangedTrans(old(host.fs), made, host.fs, dstPath);
  }

  /** The loop of `_download` over the items of a device directory: a file item is fetched into
      `dstPath` under its name, any other item is downloaded as a directory; the first failure
      ends the loop. */
  method DownloadEach(dev: Device, host: Host, src: string, dstPath: string, items: seq<Entry>,
                      overwrite: bool, quick: bool) returns (o: Outcome)
    requires ListOn(dev.fs, src).Value? && forall e | e in items :: e in ListOn(dev.fs, src).value
    modifies host, dev`fin, dev`finPos
    ensures LocalChangedOnlyIn(old(host.fs), host.fs, dstPath)
    ensures dev.fin == old(dev.fin) || dev.fin == Unbound
    decreases |Desc(dev.fs.Keys, src)|, 0
  {
    for i := 0 to |items|
      invariant LocalChangedOnlyIn(old(host.fs), host.fs, dstPath)
      invariant dev.fin == old(dev.fin) || dev.fin == Unbound
    {
      var item := items[i];
      ListedEntry(dev.fs, src, item);
      var srcPath := src + "/" + item.name;
      ghost var before := host.fs;
      if item.kind == ST_TYPE_FILE {
        var fileDst := dstPath + "/" + item.name;
        o := DownloadFile(dev, host, srcPath, fileDst, overwrite, quick);
        DownloadFileKeeps(dev.fs, before, srcPath, fileDst, overwrite, quick);
        SlashLocalUnder(dstPath, item.name);
        LocalChangedBelow(before, host.fs, fileDst, dstPath);
      } else {
        RemoteShrinks(dev.fs.Keys, src, item.name);
        o := DownloadTree(dev, host, srcPath, dstPath, overwrite, quick, Some(true));
        BasenameSlashJoin(src, item.name);
        LocalChangedInChild(before, host.fs, dstPath, item.name);
      }
      LocalChangedTrans(old(host.fs), before, host.fs, dstPath);
      if o.Failed? {
        return;
      }
    }
    o := Done;
  }

  // ---------------------------------------------------------------- the whole download

  /** The device path `download` builds for a name of `ls(src)` as written: `src + "/" + fname`,
      where `ls` has put a `/` after the name of every directory. */
  function ContentsSourceAsWritten(src: string, fname: string): string {
    src + "/" + fname
  }

  /** The device path the contents download evidently means for a name of `ls(src)`: the entry
      itself, without the `/` that `ls` puts after a directory's name. */
  function ContentsSource(src: string, fname: string): (r: string)
    ensures EndsWith(fname, "/") ==> r == src + "/" + fname[..|fname| - 1]
    ensures !EndsWith(fname, "/") ==> r == ContentsSourceAsWritten(src, fname)
  {
    if EndsWith(fname, "/") then src + "/" + fname[..|fname| - 1] else src + "/" + fname
  }

  /** Every name `ls` yields is the name of a listed item, with a `/` after it or not. */
  lemma LsNameOf(items: seq<Entry>, s: string)
    requires s in LsOrder(items)
    ensures exists e :: e in items && (s == e.name || s == e.name + "/")
  {
    var ds := SortNames(Collect(items, ST_TYPE_DIRECTORY, Name));
    var fs := SortNames(Collect(items, ST_TYPE_FILE, Name));
    if s in WithSlash(ds) {
      var i :| 0 <= i < |ds| && WithSlash(ds)[i] == s;
      assert ds[i] in multiset(ds);
      CollectNames(items, ST_TYPE_DIRECTORY, ds[i]);
    } else {
      assert s in fs;
      assert s in multiset(fs);
      CollectNames(items, ST_TYPE_FILE, s);
    }
  }

  /** The finding, as written: a subdirectory `n` of the device directory `src` appears in
      `ls(src)` as `n/`, so the contents download asks for `src/n/`, a path the device does not
      hold under that spelling, and whose base name is empty, so that `_download` would write
      into `dst` itself instead of `dst/n`. */
  lemma TrailingSlashLost(fs: Fs, src: string, n: string)
    requires Tree(fs) && src in fs && fs[src] == Dir
    requires IsName(n) && Join(src, n) in fs && fs[Join(src, n)] == Dir
    ensures n + "/" in LsOrder(Enumerate(ListOn(fs, src).value))
    ensures ContentsSourceAsWritten(src, n + "/") !in fs
    ensures Basename(ContentsSourceAsWritten(src, n + "/")) == ""
  {
    DirListedWithSlash(fs, src, n);
    var p := ContentsSourceAsWritten(src, n + "/");
    assert p[|p| - 1] == '/' && |p| >= 2;
    assert !Canonical(p);
    LastSlashIs(p, |p| - 1);
  }

  /** `ls(src)` names a subdirectory `n` of `src` as `n/`. */
  lemma DirListedWithSlash(fs: Fs, src: string, n: string)
    requires src in fs && fs[src] == Dir
    requires IsName(n) && Join(src, n) in fs && fs[Join(src, n)] == Dir
    ensures n + "/" in LsOrder(Enumerate(ListOn(fs, src).value))
  {
    var items := Enumerate(ListOn(fs, src).value);
    JoinIsChild(src, n);
    var e := EntryOf(fs, src, Join(src, n));
    assert e in multiset(items);
    assert e in items && e.kind == ST_TYPE_DIRECTORY && e.name == n;
    LsOrderShape(items);
  }

  /** The corrected path names the listed entry itself, and its base name is the entry's name, so
      the entry lands at `dst/n`. */
  lemma ContentsSourceFound(fs: Fs, src: string, s: string) returns (n: string)
    requires src in fs && fs[src] == Dir
    requires s in LsOrder(Enumerate(ListOn(fs, src).value))
    ensures IsName(n) && Join(src, n) in fs
    ensures ContentsSource(src, s) == src + "/" + n && Basename(ContentsSource(src, s)) == n
  {
    var listing := ListOn(fs, src).value;
    LsNameOf(Enumerate(listing), s);
    var e :| e in Enumerate(listing) && (s == e.name || s == e.name + "/");
    assert e in multiset(Enumerate(listing));
    ListedEntry(fs, src, e);
    if s == e.name + "/" {
      assert EndsWith(s, "/");
      assert s[..|s| - 1] == e.name;
    } else {
      assert s[|s| - 1] in s;
      assert !EndsWith(s, "/");
    }
    n := e.name;
    BasenameSlashJoin(src, n);
  }

  /** `download(src, dst, contents, overwrite, quick)`. The host directory `dst` must exist. With
      `contents` the entries of the device directory `src` go into `dst` itself, in the sorted
      order of `ls(src)`; otherwise `src` goes in as a whole. */
  method Download(dev: Device, host: Host, src: string, dst: string, contents: bool, overwrite: bool,
                  quick: bool) returns (o: Outcome)
    modifies host, dev`fin, dev`finPos
    ensures !(dst in old(host.fs) && old(host.fs)[dst].LocalDir?) ==>
      o == Failed(LocalIo(dst)) && host.fs == old(host.fs)
    ensures contents && !(src in dev.fs && dev.fs[src].Dir?) ==>
      o.Failed? && host.fs == old(host.fs)
    ensures contents ==> LocalChangedOnlyIn(old(host.fs), host.fs, dst)
    ensures !contents ==> LocalChangedOnlyIn(old(host.fs), host.fs, LocalJoin(dst, Basename(src)))
    ensures dev.fin == old(dev.fin) || dev.fin == Unbound
  {
    var isDir := host.IsDir(dst);
    if !isDir {
      return Failed(LocalIo(dst));
    }
    if contents {
      var st := Stat(dev, src);
      var present := st.value;
      if present.None? || !present.value.isdir {
        return Failed(Conflict(src));
      }
      var listed := Ls(dev, src);
      var names := SortNames(listed.value);
      SameMembers(names, listed.value);
      o := DownloadContents(dev, host, src, dst, names, overwrite, quick);
    } else {
      o := DownloadTree(dev, host, src, dst, overwrite, quick, None);
    }
  }

  /** Two arrangements of the same elements hold the same members. */
  lemma SameMembers<T>(a: seq<T>, b: seq<T>)
    requires multiset(a) == multiset(b)
    ensures forall x | x in a :: x in b
  {
    forall x | x in a
      ensures x in b
    {
      assert x in multiset(a);
    }
  }

  /** The loop of `download` with `contents`: every name of `ls(src)` but `.` and `..` is
      downloaded into `dst`; the first failure ends the loop. */
  method DownloadContents(dev: Device, host: Host, src: string, dst: string, names: seq<string>,
                          overwrite: bool, quick: bool) returns (o: Outcome)
    requires src in dev.fs && dev.fs[src] == Dir
    requires forall s | s in names :: s in LsOrder(Enumerate(ListOn(dev.fs, src).value))
    modifies host, dev`fin, dev`finPos
    ensures LocalChangedOnlyIn(old(host.fs), host.fs, dst)
    ensures dev.fin == old(dev.fin) || dev.fin == Unbound
  {
    for i := 0 to |names|
      invariant LocalChangedOnlyIn(old(host.fs), host.fs, dst)
      invariant dev.fin == old(dev.fin) || dev.fin == Unbound
    {
      var fname := names[i];
      if fname != ".." && fname != "." {
        ghost var n := ContentsSourceFound(dev.fs, src, fname);
        ghost var before := host.fs;
        o := DownloadTree(dev, host, ContentsSource(src, fname), dst, overwrite, quick, None);
        LocalChangedInChild(before, host.fs, dst, n);
        LocalChangedTrans(old(host.fs), before, host.fs, dst);
        if o.Failed? {
          return;
        }
      }
    }
    o := Done;
  }
}
