/** Python's `sorted` on names and on (name, size) pairs: a stable insertion sort under a total order. */
module Sorting {

  /** Python's `<=` on `str`: lexicographic comparison of code points. */
  predicate LexLe(a: string, b: string)
    decreases |a|
  {
    |a| == 0 || (|b| > 0 && (a[0] < b[0] || (a[0] == b[0] && LexLe(a[1..], b[1..]))))
  }

  lemma {:induction false} LexTotal(a: string, b: string)
    ensures LexLe(a, b) || LexLe(b, a)
    decreases |a|
  {
    if |a| > 0 && |b| > 0 && a[0] == b[0] {
      LexTotal(a[1..], b[1..]);
    }
  }

  lemma {:induction false} LexRefl(a: string)
    ensures LexLe(a, a)
    decreases |a|
  {
    if |a| > 0 {
      LexRefl(a[1..]);
    }
  }

  lemma {:induction false} LexTrans(a: string, b: string, c: string)
    requires LexLe(a, b) && LexLe(b, c)
    ensures LexLe(a, c)
    decreases |a|
  {
    if |a| > 0 && a[0] == b[0] && b[0] == c[0] {
      LexTrans(a[1..], b[1..], c[1..]);
    }
  }

  lemma {:induction false} LexAntisym(a: string, b: string)
    requires LexLe(a, b) && LexLe(b, a)
    ensures a == b
    decreases |a|
  {
    if |a| > 0 {
      LexAntisym(a[1..], b[1..]);
      assert a == [a[0]] + a[1..] && b == [b[0]] + b[1..];
    }
  }

  /** Python's `<=` on a `(str, int)` tuple: by name, then by number. */
  predicate PairLe(a: (string, int), b: (string, int)) {
    (LexLe(a.0, b.0) && a.0 != b.0) || (a.0 == b.0 && a.1 <= b.1)
  }

  ghost predicate Total<T(!new)>(le: (T, T) -> bool) {
    forall a, b :: le(a, b) || le(b, a)
  }

  /** Each element is `le` its successor. */
  predicate Sorted<T>(le: (T, T) -> bool, s: seq<T>) {
    forall i :: 0 < i < |s| ==> le(s[i - 1], s[i])
  }

  /** Puts `x` before the first element it is `le` to. */
  function Insert<T>(le: (T, T) -> bool, x: T, s: seq<T>): (r: seq<T>)
    ensures multiset(r) == multiset(s) + multiset{x}
    ensures |r| == |s| + 1
  {
    if s == [] || le(x, s[0]) then [x] + s
    else assert s == [s[0]] + s[1..]; [s[0]] + Insert(le, x, s[1..])
  }

  /** Insertion sort; the result is a permutation of `s`. */
  function SortBy<T>(le: (T, T) -> bool, s: seq<T>): (r: seq<T>)
    ensures multiset(r) == multiset(s)
    ensures |r| == |s|
  {
    if s == [] then []
    else assert s == [s[0]] + s[1..]; Insert(le, s[0], SortBy(le, s[1..]))
  }

  lemma {:induction false} InsertSorted<T(!new)>(le: (T, T) -> bool, x: T, s: seq<T>)
    requires Total(le) && Sorted(le, s)
    ensures Sorted(le, Insert(le, x, s))
    ensures s != [] ==> Insert(le, x, s)[0] == x || Insert(le, x, s)[0] == s[0]
  {
    if s != [] && !le(x, s[0]) {
      InsertSorted(le, x, s[1..]);
      assert le(s[0], x);
    }
  }

  lemma {:induction false} SortBySorted<T(!new)>(le: (T, T) -> bool, s: seq<T>)
    requires Total(le)
    ensures Sorted(le, SortBy(le, s))
  {
    if s != [] {
      SortBySorted(le, s[1..]);
      InsertSorted(le, s[0], SortBy(le, s[1..]));
    }
  }

  lemma LexLeTotal()
    ensures Total(LexLe)
  {
    forall a: string, b: string
      ensures LexLe(a, b) || LexLe(b, a)
    {
      LexTotal(a, b);
    }
  }

  lemma PairLeTotal()
    ensures Total(PairLe)
  {
    forall a: (string, int), b: (string, int)
      ensures PairLe(a, b) || PairLe(b, a)
    {
      LexTotal(a.0, b.0);
    }
  }

  /** Python's `sorted(names)`. */
  function SortNames(names: seq<string>): (r: seq<string>)
    ensures multiset(r) == multiset(names)
    ensures Sorted(LexLe, r)
  {
    LexLeTotal();
    SortBySorted(LexLe, names);
    SortBy(LexLe, names)
  }

  /** Python's `sorted(pairs)` on (name, size) tuples. */
  function SortPairs(pairs: seq<(string, int)>): (r: seq<(string, int)>)
    ensures multiset(r) == multiset(pairs)
    ensures Sorted(PairLe, r)
  {
    PairLeTotal();
    SortBySorted(PairLe, pairs);
    SortBy(PairLe, pairs)
  }

  /** In a sorted list of names every earlier name is `<=` every later one. */
  lemma {:induction false} SortedNamesPairwise(s: seq<string>, i: nat, j: nat)
    requires Sorted(LexLe, s) && i <= j < |s|
    ensures LexLe(s[i], s[j])
    decreases j - i
  {
    if i == j {
      LexTotal(s[i], s[i]);
    } else {
      SortedNamesPairwise(s, i, j - 1);
      LexTrans(s[i], s[j - 1], s[j]);
    }
  }

  ghost predicate Transitive<T(!new)>(le: (T, T) -> bool) {
    forall a, b, c :: le(a, b) && le(b, c) ==> le(a, c)
  }

  ghost predicate Antisymmetric<T(!new)>(le: (T, T) -> bool) {
    forall a, b :: le(a, b) && le(b, a) ==> a == b
  }

  /** In a sorted sequence every earlier element is `le` every later one. */
  lemma {:induction false} SortedPairwise<T(!new)>(le: (T, T) -> bool, s: seq<T>, i: nat, j: nat)
    requires Transitive(le) && Sorted(le, s) && i < j < |s|
    ensures le(s[i], s[j])
    decreases j - i
  {
    if i + 1 < j {
      SortedPairwise(le, s, i, j - 1);
    }
  }

  /** Two sorted arrangements of one non-empty multiset start with the same element. */
  lemma SortedHeads<T(!new)>(le: (T, T) -> bool, a: seq<T>, b: seq<T>)
    requires Transitive(le) && Antisymmetric(le)
    requires Sorted(le, a) && Sorted(le, b) && multiset(a) == multiset(b) && a != []
    ensures b != [] && a[0] == b[0]
  {
    assert a[0] in multiset(b);
    var j :| 0 <= j < |b| && b[j] == a[0];
    assert b[0] in multiset(a);
    var i :| 0 <= i < |a| && a[i] == b[0];
    if i > 0 && j > 0 {
      SortedPairwise(le, a, 0, i);
      SortedPairwise(le, b, 0, j);
    }
  }

  lemma TailMultiset<T>(a: seq<T>, b: seq<T>)
    requires a != [] && b != [] && a[0] == b[0] && multiset(a) == multiset(b)
    ensures multiset(a[1..]) == multiset(b[1..])
  {
    assert a == [a[0]] + a[1..];
    assert b == [b[0]] + b[1..];
    calc {
      multiset(a[1..]);
      multiset(a) - multiset{a[0]};
      multiset(b) - multiset{b[0]};
      multiset(b[1..]);
    }
  }

  /** Under a transitive, antisymmetric order there is only one sorted arrangement of a multiset:
      sorting does not depend on the order of its input. */
  lemma {:induction false} SortedUnique<T(!new)>(le: (T, T) -> bool, a: seq<T>, b: seq<T>)
    requires Transitive(le) && Antisymmetric(le)
    requires Sorted(le, a) && Sorted(le, b) && multiset(a) == multiset(b)
    ensures a == b
    decreases |a|
  {
    if a == [] {
      assert |b| == |multiset(b)| == 0;
    } else {
      SortedHeads(le, a, b);
      TailMultiset(a, b);
      assert Sorted(le, a[1..]) && Sorted(le, b[1..]);
      SortedUnique(le, a[1..], b[1..]);
      assert a == [a[0]] + a[1..] && b == [b[0]] + b[1..];
    }
  }

  lemma LexLeOrder()
    ensures Transitive(LexLe) && Antisymmetric(LexLe)
  {
    forall a: string, b: string, c: string | LexLe(a, b) && LexLe(b, c)
      ensures LexLe(a, c)
    {
      LexTrans(a, b, c);
    }
    forall a: string, b: string | LexLe(a, b) && LexLe(b, a)
      ensures a == b
    {
      LexAntisym(a, b);
    }
  }

  lemma PairLeOrder()
    ensures Transitive(PairLe) && Antisymmetric(PairLe)
  {
    forall a: (string, int), b: (string, int), c: (string, int) | PairLe(a, b) && PairLe(b, c)
      ensures PairLe(a, c)
    {
      LexRefl(a.0);
      LexRefl(b.0);
      LexTrans(a.0, b.0, c.0);
      if a.0 == c.0 && a.0 != b.0 {
        LexAntisym(a.0, b.0);
      }
    }
    forall a: (string, int), b: (string, int) | PairLe(a, b) && PairLe(b, a)
      ensures a == b
    {
      if a.0 != b.0 {
        LexAntisym(a.0, b.0);
      }
    }
  }

  /** `sorted` of two arrangements of the same names is the same list. */
  lemma SortNamesPermutation(a: seq<string>, b: seq<string>)
    requires multiset(a) == multiset(b)
    ensures SortNames(a) == SortNames(b)
  {
    LexLeOrder();
    SortedUnique(LexLe, SortNames(a), SortNames(b));
  }

  /** `sorted` of two arrangements of the same pairs is the same list. */
  lemma SortPairsPermutation(a: seq<(string, int)>, b: seq<(string, int)>)
    requires multiset(a) == multiset(b)
    ensures SortPairs(a) == SortPairs(b)
  {
    PairLeOrder();
    SortedUnique(PairLe, SortPairs(a), SortPairs(b));
  }
}
