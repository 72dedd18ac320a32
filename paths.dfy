/** Path strings as the syncer builds them, on the device (always `/`-separated, absolute)
    and on the host (`os.path.join` / `os.path.split`). */
module Paths {

  /** A single path component: non-empty and without a separator. */
  predicate IsName(n: string) {
    n != "" && '/' !in n
  }

  /** What the source puts in front of a child name: `/` for the root, `d + "/"` otherwise. */
  function Prefix(d: string): string {
    if d == "/" then "/" else d + "/"
  }

  /** The source's child-path expression: `"/" + n` when `d` is the root, else `d + "/" + n`. */
  function Join(d: string, n: string): (r: string)
    ensures r == Prefix(d) + n
  {
    if d == "/" then "/" + n else d + "/" + n
  }

  /** `k` lies strictly below the directory `d`. */
  predicate Under(k: string, d: string) {
    |Prefix(d)| < |k| && k[..|Prefix(d)|] == Prefix(d)
  }

  /** `k` is an entry directly inside `d`. */
  predicate IsChild(k: string, d: string) {
    Under(k, d) && IsName(k[|Prefix(d)|..])
  }

  /** `k` is `d` itself or lies below it. */
  predicate InTree(k: string, d: string) {
    k == d || Under(k, d)
  }

  /** What removing the tree at `d` takes away: everything below it, and `d` unless it is the root. */
  predicate Doomed(k: string, d: string) {
    Under(k, d) || (k == d && d != "/")
  }

  /** The keys of `keys` that lie below `d`. */
  function Desc(keys: set<string>, d: string): (r: set<string>)
    ensures r <= keys
  {
    set k | k in keys && Under(k, d)
  }

  /** An absolute path without empty components and without a trailing separator. */
  predicate Canonical(k: string) {
    k == "/" ||
    (|k| >= 2 && k[0] == '/' && k[|k| - 1] != '/' &&
     forall i :: 0 < i < |k| ==> !(k[i - 1] == '/' && k[i] == '/'))
  }

  /** Index of the last separator in `k`. */
  function LastSlash(k: string): (r: nat)
    requires '/' in k
    ensures r < |k| && k[r] == '/'
    ensures forall j :: r < j < |k| ==> k[j] != '/'
  {
    if k[|k| - 1] == '/' then |k| - 1
    else
      assert '/' in k[..|k| - 1] by {
        var i :| 0 <= i < |k| && k[i] == '/';
        assert k[..|k| - 1][i] == '/';
      }
      LastSlash(k[..|k| - 1])
  }

  /** The directory that holds the canonical path `k`. */
  function Parent(k: string): string
    requires Canonical(k) && k != "/"
  {
    var i := LastSlash(k);
    if i == 0 then "/" else k[..i]
  }

  /** `os.path.split(p)[1]`: the text after the last separator. */
  function Basename(p: string): (r: string)
    ensures '/' !in r
  {
    if '/' in p then
      var i := LastSlash(p);
      p[i + 1..]
    else p
  }

  /** `os.path.join(a, n)` for a name `n` that is not absolute. */
  function LocalJoin(a: string, n: string): (r: string)
    ensures r == LocalPrefix(a) + n
  {
    if a == "" || a[|a| - 1] == '/' then a + n else a + "/" + n
  }

  /** What `os.path.join` puts in front of a name joined to `a`. */
  function LocalPrefix(a: string): string {
    if a == "" || a[|a| - 1] == '/' then a else a + "/"
  }

  /** `k` lies strictly below the host directory `d`. */
  predicate LocalUnder(k: string, d: string) {
    |LocalPrefix(d)| < |k| && k[..|LocalPrefix(d)|] == LocalPrefix(d)
  }

  /** `k` is an entry directly inside the host directory `d`. */
  predicate LocalIsChild(k: string, d: string) {
    LocalUnder(k, d) && IsName(k[|LocalPrefix(d)|..])
  }

  function LocalDesc(keys: set<string>, d: string): (r: set<string>)
    ensures r <= keys
  {
    set k | k in keys && LocalUnder(k, d)
  }

  // ---------------------------------------------------------------- lemmas

  /** A joined name is a child, and the name can be read back off it. */
  lemma JoinIsChild(d: string, n: string)
    requires IsName(n)
    ensures IsChild(Join(d, n), d) && Join(d, n)[|Prefix(d)|..] == n
  {
    assert Join(d, n)[..|Prefix(d)|] == Prefix(d);
    assert Join(d, n)[|Prefix(d)|..] == n;
  }

  /** A child is `Join` of its directory and its name. */
  lemma ChildIsJoin(k: string, d: string)
    requires IsChild(k, d)
    ensures k == Join(d, k[|Prefix(d)|..])
  {
    assert k == k[..|Prefix(d)|] + k[|Prefix(d)|..];
  }

  /** Being below is transitive. */
  lemma UnderTrans(k: string, p: string, c: string)
    requires Under(k, p) && Under(p, c)
    ensures Under(k, c)
  {
    assert p != "/";
    assert k[..|Prefix(p)|][..|Prefix(c)|] == k[..|Prefix(c)|];
    assert Prefix(p)[..|Prefix(c)|] == p[..|Prefix(c)|];
  }

  /** Whatever is in the tree of a child of `d` lies below `d`. */
  lemma InChildTree(k: string, d: string, n: string)
    requires IsName(n) && InTree(k, Join(d, n))
    ensures Under(k, d)
  {
    JoinIsChild(d, n);
    if k != Join(d, n) {
      UnderTrans(k, Join(d, n), d);
    }
  }

  /** Below `d`, a path in the tree of the child `n` continues with `n` and then ends or goes on
      with a separator. */
  lemma ChildTreeShape(k: string, d: string, n: string)
    requires IsName(n) && InTree(k, Join(d, n))
    ensures |Prefix(d)| <= |k|
    ensures var t := k[|Prefix(d)|..];
      t == n || (|n| < |t| && t[..|n|] == n && t[|n|] == '/')
  {
    var P := Prefix(d);
    InChildTree(k, d, n);
    var t := k[|P|..];
    if k != Join(d, n) {
      assert Prefix(Join(d, n)) == P + n + "/";
      assert k[..|P + n + "/"|] == P + n + "/";
      assert t[..|n|] == k[|P|..|P| + |n|];
      assert t[|n|] == k[|P| + |n|];
    }
  }

  /** The trees of two different children of one directory do not meet. */
  lemma SiblingsDisjoint(k: string, d: string, n1: string, n2: string)
    requires IsName(n1) && IsName(n2)
    requires InTree(k, Join(d, n1)) && InTree(k, Join(d, n2))
    ensures n1 == n2
  {
    ChildTreeShape(k, d, n1);
    ChildTreeShape(k, d, n2);
    var t := k[|Prefix(d)|..];
    if |n1| == |n2| && t != n1 {
      assert t[..|n1|] == n1 && t[..|n2|] == n2;
    }
  }

  /** A canonical path is a child of its parent. */
  lemma ChildOfParent(k: string)
    requires Canonical(k) && k != "/"
    ensures IsChild(k, Parent(k))
    ensures |Parent(k)| < |k|
  {
    var i := LastSlash(k);
    var P := Prefix(Parent(k));
    assert P == k[..i + 1];
    var n := k[i + 1..];
    assert n != "";
    assert forall j :: 0 <= j < |n| ==> n[j] == k[i + 1 + j];
    assert '/' !in n;
    assert k[|P|..] == n;
  }

  /** Walking one step up from a canonical path that is below `d` but not a child of it
      stays below `d`. */
  lemma UpOne(k: string, d: string)
    requires Canonical(k) && Under(k, d) && !IsChild(k, d)
    ensures k != "/" && Under(Parent(k), d) && |Parent(k)| < |k|
  {
    var P := Prefix(d);
    var t := k[|P|..];
    assert '/' in t;
    var j :| 0 <= j < |t| && t[j] == '/';
    assert k[|P| + j] == '/';
    var i := LastSlash(k);
    assert |P| + j <= i;
    // the character before a separator is never a separator, and P ends with one
    assert k[|P| - 1] == P[|P| - 1] == '/';
    assert i != |P|;
    assert |P| < i;
    ChildOfParent(k);
    assert Parent(k) == k[..i];
    assert k[..i][..|P|] == k[..|P|];
  }

  /** A child path of `src + "/" + n` is never the key `Prefix(src) + n`, which is short. */
  lemma ShortNotUnder(c: string, src: string, n: string)
    requires |c| <= |src| + 1 + |n|
    ensures !Under(c, src + "/" + n)
  {
  }

  /** Below `src + "/" + n` implies below `src`. */
  lemma SlashJoinUnder(k: string, src: string, n: string)
    requires IsName(n) && Under(k, src + "/" + n)
    ensures Under(k, src)
  {
    var Q := Prefix(src + "/" + n);
    assert Q == src + "/" + n + "/";
    assert k[..|Prefix(src)|] == Q[..|Prefix(src)|];
  }

  /** Below a host child implies below its directory. */
  lemma LocalChildTree(k: string, d: string, n: string)
    requires IsName(n) && LocalUnder(k, LocalJoin(d, n))
    ensures LocalUnder(k, d)
  {
    var c := LocalJoin(d, n);
    assert c[|c| - 1] == n[|n| - 1];
    assert LocalPrefix(c) == c + "/";
    assert k[..|LocalPrefix(d)|] == LocalPrefix(c)[..|LocalPrefix(d)|];
  }

  /** The last separator is the one after which no separator follows. */
  lemma LastSlashIs(p: string, r: nat)
    requires r < |p| && p[r] == '/'
    requires forall j :: r < j < |p| ==> p[j] != '/'
    ensures '/' in p && LastSlash(p) == r
  {
  }

  /** The last component of a joined host path is the name that was joined. */
  lemma BasenameLocalJoin(d: string, n: string)
    requires IsName(n)
    ensures Basename(LocalJoin(d, n)) == n
  {
    var p := LocalJoin(d, n);
    var P := LocalPrefix(d);
    assert p[|P|..] == n;
    assert forall j | |P| <= j < |p| :: p[j] == n[j - |P|];
    if P != "" {
      LastSlashIs(p, |P| - 1);
    } else {
      assert p == n;
    }
  }

  /** The last component of `src + "/" + n` is `n`. */
  lemma BasenameSlashJoin(src: string, n: string)
    requires IsName(n)
    ensures Basename(src + "/" + n) == n
  {
    var p := src + "/" + n;
    assert forall j | |src| < j < |p| :: p[j] == n[j - |src| - 1];
    LastSlashIs(p, |src|);
    assert p[|src| + 1..] == n;
  }

  /** A canonical child of `d` has `d` as its parent. */
  lemma ParentOfChild(k: string, d: string)
    requires Canonical(k) && IsChild(k, d) && d != ""
    ensures k != "/" && Parent(k) == d
  {
    var P := Prefix(d);
    assert k[|P| - 1] == P[|P| - 1] == '/';
    var n := k[|P|..];
    assert forall j | |P| <= j < |k| :: k[j] == n[j - |P|];
    LastSlashIs(k, |P| - 1);
    if d != "/" {
      assert k[..|P| - 1] == P[..|P| - 1] == d;
    }
  }

  /** Joining a name to a canonical path gives a canonical path whose parent is that path. */
  lemma CanonicalJoin(q: string, n: string)
    requires Canonical(q) && IsName(n)
    ensures Canonical(Join(q, n)) && Join(q, n) != "/" && Parent(Join(q, n)) == q
  {
    var k := Join(q, n);
    var P := Prefix(q);
    assert k == P + n;
    assert forall j | |P| <= j < |k| :: k[j] == n[j - |P|];
    assert forall j | 0 <= j < |P| :: k[j] == P[j];
    assert k[|P| - 1] == '/';
    forall i | 0 < i < |k|
      ensures !(k[i - 1] == '/' && k[i] == '/')
    {
      if i > |P| {
        assert k[i] == n[i - |P|];
      } else if i == |P| {
        assert k[i] == n[0];
      } else if q != "/" {
        if i < |q| {
          assert k[i - 1] == q[i - 1] && k[i] == q[i];
        } else {
          assert k[i - 1] == q[|q| - 1];
        }
      }
    }
    assert k[|k| - 1] == n[|n| - 1];
    JoinIsChild(q, n);
    ParentOfChild(k, q);
  }
}
