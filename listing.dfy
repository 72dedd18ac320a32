/** The listing policy of `ls`, `lsl` and `rmtree`: split the items of `uos.ilistdir` by type,
    then directories first (sorted), then files (sorted); items of any other type are dropped. */
module Listing {
  import opened Seqs
  import opened Sorting
  import opened Device

  function Name(e: Entry): string {
    e.name
  }

  /** How `lsl` shows a directory: its name with a trailing `/`, and size 0. */
  function DirPair(e: Entry): (string, int) {
    (e.name + "/", 0)
  }

  /** How `lsl` shows a file: its name and its reported size. */
  function FilePair(e: Entry): (string, int) {
    (e.name, e.size)
  }

  /** The images under `f` of the items of type `kind`, in the order of `items`: what the
      `append` loops of `ls`, `lsl` and `rmtree` collect. */
  function Collect<U>(items: seq<Entry>, kind: int, f: Entry -> U): (r: seq<U>)
    ensures |r| <= |items|
    decreases |items|
  {
    if items == [] then []
    else
      var last := items[|items| - 1];
      Collect(items[..|items| - 1], kind, f) + (if last.kind == kind then [f(last)] else [])
  }

  /** Every name with `/` appended. */
  function WithSlash(names: seq<string>): (r: seq<string>)
    ensures |r| == |names|
    ensures forall i | 0 <= i < |names| :: r[i] == names[i] + "/"
  {
    seq(|names|, i requires 0 <= i < |names| => names[i] + "/")
  }

  /** What `ls` yields for the items of one `ilistdir`. */
  function LsOrder(items: seq<Entry>): seq<string> {
    WithSlash(SortNames(Collect(items, ST_TYPE_DIRECTORY, Name))) +
    SortNames(Collect(items, ST_TYPE_FILE, Name))
  }

  /** What `lsl` yields for the items of one `ilistdir`. */
  function LslOrder(items: seq<Entry>): seq<(string, int)> {
    SortPairs(Collect(items, ST_TYPE_DIRECTORY, DirPair)) +
    SortPairs(Collect(items, ST_TYPE_FILE, FilePair))
  }

  /** Some arrangement of a finite set; specifications use it where the device picks the order. */
  ghost function Enumerate<T>(s: set<T>): (r: seq<T>)
    ensures multiset(r) == multiset(s)
    decreases |s|
  {
    if s == {} then []
    else
      var x :| x in s;
      [x] + Enumerate(s - {x})
  }

  /** The loop of `ls` and `rmtree` that sorts item names into `dnames` and `fnames`. */
  method Partition(items: seq<Entry>) returns (dnames: seq<string>, fnames: seq<string>)
    ensures dnames == Collect(items, ST_TYPE_DIRECTORY, Name)
    ensures fnames == Collect(items, ST_TYPE_FILE, Name)
  {
    dnames, fnames := [], [];
    for i := 0 to |items|
      invariant dnames == Collect(items[..i], ST_TYPE_DIRECTORY, Name)
      invariant fnames == Collect(items[..i], ST_TYPE_FILE, Name)
    {
      assert items[..i + 1][..i] == items[..i];
      var item := items[i];
      if item.kind == ST_TYPE_FILE {
        fnames := fnames + [item.name];
      }
      if item.kind == ST_TYPE_DIRECTORY {
        dnames := dnames + [item.name];
      }
    }
    assert items[..|items|] == items;
  }

  /** The loop of `lsl` that sorts items into (name, size) pairs. */
  method PartitionPairs(items: seq<Entry>) returns (dnames: seq<(string, int)>, fnames: seq<(string, int)>)
    ensures dnames == Collect(items, ST_TYPE_DIRECTORY, DirPair)
    ensures fnames == Collect(items, ST_TYPE_FILE, FilePair)
  {
    dnames, fnames := [], [];
    for i := 0 to |items|
      invariant dnames == Collect(items[..i], ST_TYPE_DIRECTORY, DirPair)
      invariant fnames == Collect(items[..i], ST_TYPE_FILE, FilePair)
    {
      assert items[..i + 1][..i] == items[..i];
      var item := items[i];
      if item.kind == ST_TYPE_FILE {
        fnames := fnames + [(item.name, item.size)];
      }
      if item.kind == ST_TYPE_DIRECTORY {
        dnames := dnames + [(item.name + "/", 0)];
      }
    }
    assert items[..|items|] == items;
  }

  // ---------------------------------------------------------------- lemmas

  /** An image is collected exactly when some item of the wanted type has it. */
  lemma {:induction false} CollectMembers<U>(items: seq<Entry>, kind: int, f: Entry -> U)
    ensures forall i | 0 <= i < |items| && items[i].kind == kind :: f(items[i]) in Collect(items, kind, f)
    ensures forall u | u in Collect(items, kind, f) ::
      exists i :: 0 <= i < |items| && items[i].kind == kind && f(items[i]) == u
    decreases |items|
  {
    if items != [] {
      var init := items[..|items| - 1];
      CollectMembers(init, kind, f);
      assert forall i | 0 <= i < |init| :: init[i] == items[i];
    }
  }

  lemma {:induction false} CollectAppend<U>(a: seq<Entry>, b: seq<Entry>, kind: int, f: Entry -> U)
    ensures Collect(a + b, kind, f) == Collect(a, kind, f) + Collect(b, kind, f)
    decreases |b|
  {
    if b == [] {
      assert a + b == a;
    } else {
      var b' := b[..|b| - 1];
      var last := b[|b| - 1];
      CollectAppend(a, b', kind, f);
      assert (a + b)[..|a + b| - 1] == a + b';
      assert (a + b)[|a + b| - 1] == last;
      AppendAssoc(Collect(a, kind, f), Collect(b', kind, f), if last.kind == kind then [f(last)] else []);
    }
  }

  /** Taking one occurrence of `x` out of `b` leaves the multiset that `a` has without its last
      element, when that element is `x`. */
  lemma RemoveOne<T>(a: seq<T>, b: seq<T>, j: nat)
    requires multiset(a) == multiset(b) && a != [] && j < |b| && b[j] == a[|a| - 1]
    ensures multiset(a[..|a| - 1]) == multiset(b[..j] + b[j + 1..])
  {
    var x := a[|a| - 1];
    assert a == a[..|a| - 1] + [x];
    assert b == b[..j] + [x] + b[j + 1..];
    calc {
      multiset(a[..|a| - 1]);
      multiset(a) - multiset{x};
      multiset(b) - multiset{x};
      multiset(b[..j]) + multiset(b[j + 1..]);
      multiset(b[..j] + b[j + 1..]);
    }
  }

  lemma CollectSplice<U>(b1: seq<Entry>, x: Entry, b2: seq<Entry>, kind: int, f: Entry -> U)
    ensures multiset(Collect(b1 + [x] + b2, kind, f)) ==
      multiset(Collect(b1 + b2, kind, f)) + multiset(Collect([x], kind, f))
  {
    CollectAppend(b1, b2, kind, f);
    CollectAppend(b1 + [x], b2, kind, f);
    CollectAppend(b1, [x], kind, f);
  }

  /** What is collected depends only on the multiset of items, not on their order. */
  lemma {:induction false} CollectPermutation<U>(a: seq<Entry>, b: seq<Entry>, kind: int, f: Entry -> U)
    requires multiset(a) == multiset(b)
    ensures multiset(Collect(a, kind, f)) == multiset(Collect(b, kind, f))
    decreases |a|
  {
    if a == [] {
      assert |b| == |multiset(b)| == 0;
    } else {
      var x := a[|a| - 1];
      var a' := a[..|a| - 1];
      assert x in multiset(b);
      var j :| 0 <= j < |b| && b[j] == x;
      var b1, b2 := b[..j], b[j + 1..];
      RemoveOne(a, b, j);
      assert a == a' + [x];
      assert b == b1 + [x] + b2;
      var cx := multiset(Collect([x], kind, f));
      calc {
        multiset(Collect(a, kind, f));
        { CollectAppend(a', [x], kind, f); }
        multiset(Collect(a', kind, f)) + cx;
        { CollectPermutation(a', b1 + b2, kind, f); }
        multiset(Collect(b1 + b2, kind, f)) + cx;
        { CollectSplice(b1, x, b2, kind, f); }
        multiset(Collect(b, kind, f));
      }
    }
  }

  /** `ls` gives the same list however `ilistdir` orders its items. */
  lemma LsOrderPermutation(a: seq<Entry>, b: seq<Entry>)
    requires multiset(a) == multiset(b)
    ensures LsOrder(a) == LsOrder(b)
  {
    CollectPermutation(a, b, ST_TYPE_DIRECTORY, Name);
    CollectPermutation(a, b, ST_TYPE_FILE, Name);
    SortNamesPermutation(Collect(a, ST_TYPE_DIRECTORY, Name), Collect(b, ST_TYPE_DIRECTORY, Name));
    SortNamesPermutation(Collect(a, ST_TYPE_FILE, Name), Collect(b, ST_TYPE_FILE, Name));
  }

  /** `lsl` gives the same list however `ilistdir` orders its items. */
  lemma LslOrderPermutation(a: seq<Entry>, b: seq<Entry>)
    requires multiset(a) == multiset(b)
    ensures LslOrder(a) == LslOrder(b)
  {
    CollectPermutation(a, b, ST_TYPE_DIRECTORY, DirPair);
    CollectPermutation(a, b, ST_TYPE_FILE, FilePair);
    SortPairsPermutation(Collect(a, ST_TYPE_DIRECTORY, DirPair), Collect(b, ST_TYPE_DIRECTORY, DirPair));
    SortPairsPermutation(Collect(a, ST_TYPE_FILE, FilePair), Collect(b, ST_TYPE_FILE, FilePair));
  }

  /** A name is in a list exactly when the name with `/` appended is in `WithSlash` of it. */
  lemma SlashMembers(ns: seq<string>, n: string)
    ensures n + "/" in WithSlash(ns) <==> n in ns
  {
    if n + "/" in WithSlash(ns) {
      var i :| 0 <= i < |ns| && WithSlash(ns)[i] == n + "/";
      assert ns[i] == (ns[i] + "/")[..|ns[i]|] == (n + "/")[..|n|] == n;
    }
    if n in ns {
      var i :| 0 <= i < |ns| && ns[i] == n;
      assert WithSlash(ns)[i] == n + "/";
    }
  }

  /** A name is collected exactly when an item of the wanted type carries it. */
  lemma CollectNames(items: seq<Entry>, kind: int, n: string)
    ensures n in Collect(items, kind, Name) <==> exists e :: e in items && e.kind == kind && e.name == n
  {
    CollectMembers(items, kind, Name);
    if n in Collect(items, kind, Name) {
      var j :| 0 <= j < |items| && items[j].kind == kind && Name(items[j]) == n;
      assert items[j] in items;
    }
    if exists e :: e in items && e.kind == kind && e.name == n {
      var e :| e in items && e.kind == kind && e.name == n;
      var j :| 0 <= j < |items| && items[j] == e;
    }
  }

  /** The shape of an `ls` listing: the directories come first, each with `/` appended and in
      the order of their names without it, then the files in sorted order; a name is listed exactly when an item of that type carries it, so
      items of any other type are left out. */
  lemma LsOrderShape(items: seq<Entry>)
    ensures var out := LsOrder(items);
      var nd := |Collect(items, ST_TYPE_DIRECTORY, Name)|;
      nd <= |out| &&
      (forall i | 0 <= i < nd :: EndsWithSlash(out[i])) &&
      (forall i | 0 < i < nd :: LexLe(out[i - 1][..|out[i - 1]| - 1], out[i][..|out[i]| - 1])) &&
      Sorted(LexLe, out[nd..]) &&
      (forall n :: n + "/" in out[..nd] <==> exists e :: e in items && e.kind == ST_TYPE_DIRECTORY && e.name == n) &&
      (forall n :: n in out[nd..] <==> exists e :: e in items && e.kind == ST_TYPE_FILE && e.name == n)
  {
    var out := LsOrder(items);
    var dc := Collect(items, ST_TYPE_DIRECTORY, Name);
    var fc := Collect(items, ST_TYPE_FILE, Name);
    var ds := SortNames(dc);
    var nd := |dc|;
    SliceAppend(WithSlash(ds), SortNames(fc), nd);
    EmptyAppend(SortNames(fc));
    forall i | 0 < i < nd
      ensures LexLe(out[i - 1][..|out[i - 1]| - 1], out[i][..|out[i]| - 1])
    {
      assert out[i - 1][..|out[i - 1]| - 1] == ds[i - 1];
      assert out[i][..|out[i]| - 1] == ds[i];
    }
    LsDirNames(items);
    LsFileNames(items);
  }

  /** The names of the directory items, each with a `/` after it. */
  lemma LsDirNames(items: seq<Entry>)
    ensures var ds := SortNames(Collect(items, ST_TYPE_DIRECTORY, Name));
      forall n :: n + "/" in WithSlash(ds) <==> exists e :: e in items && e.kind == ST_TYPE_DIRECTORY && e.name == n
  {
    var dc := Collect(items, ST_TYPE_DIRECTORY, Name);
    var ds := SortNames(dc);
    forall n
      ensures n + "/" in WithSlash(ds) <==> exists e :: e in items && e.kind == ST_TYPE_DIRECTORY && e.name == n
    {
      SlashMembers(ds, n);
      assert n in ds <==> n in multiset(dc);
      CollectNames(items, ST_TYPE_DIRECTORY, n);
    }
  }

  /** The names of the file items. */
  lemma LsFileNames(items: seq<Entry>)
    ensures forall n :: n in SortNames(Collect(items, ST_TYPE_FILE, Name)) <==>
      exists e :: e in items && e.kind == ST_TYPE_FILE && e.name == n
  {
    var fc := Collect(items, ST_TYPE_FILE, Name);
    forall n
      ensures n in SortNames(fc) <==> exists e :: e in items && e.kind == ST_TYPE_FILE && e.name == n
    {
      assert n in SortNames(fc) <==> n in multiset(fc);
      CollectNames(items, ST_TYPE_FILE, n);
    }
  }

  predicate EndsWithSlash(s: string) {
    |s| > 0 && s[|s| - 1] == '/'
  }

  /** The shape of an `lsl` listing: directories first as (name + `/`, 0) in sorted order, then
      files as (name, size) in sorted order, each exactly when an item of that type is there. */
  lemma LslOrderShape(items: seq<Entry>)
    ensures var out := LslOrder(items);
      var nd := |Collect(items, ST_TYPE_DIRECTORY, DirPair)|;
      nd <= |out| && Sorted(PairLe, out[..nd]) && Sorted(PairLe, out[nd..]) &&
      (forall p :: p in out[..nd] <==> exists e :: e in items && e.kind == ST_TYPE_DIRECTORY && p == (e.name + "/", 0)) &&
      (forall p :: p in out[nd..] <==> exists e :: e in items && e.kind == ST_TYPE_FILE && p == (e.name, e.size))
  {
    CollectMembers(items, ST_TYPE_DIRECTORY, DirPair);
    CollectMembers(items, ST_TYPE_FILE, FilePair);
    var out := LslOrder(items);
    var ds := SortPairs(Collect(items, ST_TYPE_DIRECTORY, DirPair));
    var fs := SortPairs(Collect(items, ST_TYPE_FILE, FilePair));
    var nd := |Collect(items, ST_TYPE_DIRECTORY, DirPair)|;
    assert out[..nd] == ds && out[nd..] == fs;
    forall p
      ensures p in ds <==> exists e :: e in items && e.kind == ST_TYPE_DIRECTORY && p == (e.name + "/", 0)
    {
      if p in ds {
        assert p in multiset(ds);
        assert p in Collect(items, ST_TYPE_DIRECTORY, DirPair);
        var j :| 0 <= j < |items| && items[j].kind == ST_TYPE_DIRECTORY && DirPair(items[j]) == p;
        assert items[j] in items;
      }
      if exists e :: e in items && e.kind == ST_TYPE_DIRECTORY && p == (e.name + "/", 0) {
        var e :| e in items && e.kind == ST_TYPE_DIRECTORY && p == (e.name + "/", 0);
        var j :| 0 <= j < |items| && items[j] == e;
        assert DirPair(items[j]) in Collect(items, ST_TYPE_DIRECTORY, DirPair);
        assert p in multiset(ds);
      }
    }
    forall p
      ensures p in fs <==> exists e :: e in items && e.kind == ST_TYPE_FILE && p == (e.name, e.size)
    {
      if p in fs {
        assert p in multiset(fs);
        assert p in Collect(items, ST_TYPE_FILE, FilePair);
        var j :| 0 <= j < |items| && items[j].kind == ST_TYPE_FILE && FilePair(items[j]) == p;
        assert items[j] in items;
      }
      if exists e :: e in items && e.kind == ST_TYPE_FILE && p == (e.name, e.size) {
        var e :| e in items && e.kind == ST_TYPE_FILE && p == (e.name, e.size);
        var j :| 0 <= j < |items| && items[j] == e;
        assert FilePair(items[j]) in Collect(items, ST_TYPE_FILE, FilePair);
        assert p in multiset(fs);
      }
    }
  }
}
