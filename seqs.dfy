/** Searching, splitting and joining sequences, with Python's `bytes`/`str` semantics. */
module Seqs {

  /** `t` occurs in `s` starting at index `i`. */
  predicate OccursAt<T(==)>(s: seq<T>, t: seq<T>, i: int) {
    0 <= i && i + |t| <= |s| && s[i..i + |t|] == t
  }

  /** Python's `s.find(t, from)`: the lowest index >= from where `t` occurs, or -1. */
  function FindFrom<T(==)>(s: seq<T>, t: seq<T>, from: nat): (r: int)
    ensures r == -1 || (from <= r && OccursAt(s, t, r))
    ensures r == -1 ==> forall i :: from <= i ==> !OccursAt(s, t, i)
    ensures forall i :: from <= i < r ==> !OccursAt(s, t, i)
    decreases |s| - from
  {
    if from + |t| > |s| then -1
    else if s[from..from + |t|] == t then from
    else FindFrom(s, t, from + 1)
  }

  /** Python's `s.find(t)`. */
  function Find<T(==)>(s: seq<T>, t: seq<T>): (r: int)
    ensures r == -1 || OccursAt(s, t, r)
    ensures r == -1 <==> forall i :: !OccursAt(s, t, i)
    ensures forall i :: 0 <= i < r ==> !OccursAt(s, t, i)
  {
    FindFrom(s, t, 0)
  }

  /** Python's `t in s`. */
  predicate Contains<T(==)>(s: seq<T>, t: seq<T>) {
    Find(s, t) >= 0
  }

  predicate StartsWith<T(==)>(s: seq<T>, p: seq<T>) {
    |p| <= |s| && s[..|p|] == p
  }

  predicate EndsWith<T(==)>(s: seq<T>, p: seq<T>) {
    |p| <= |s| && s[|s| - |p|..] == p
  }

  /** An occurrence found in `s` stays the first one once more elements are appended. */
  lemma FindExtend<T>(s: seq<T>, u: seq<T>, t: seq<T>)
    requires Find(s, t) >= 0
    ensures Find(s + u, t) == Find(s, t)
  {
    var r := Find(s, t);
    assert (s + u)[r..r + |t|] == s[r..r + |t|];
    assert OccursAt(s + u, t, r);
    forall j | 0 <= j < r
      ensures !OccursAt(s + u, t, j)
    {
      assert (s + u)[j..j + |t|] == s[j..j + |t|];
      assert !OccursAt(s, t, j);
    }
  }

  /** An occurrence inside a prefix of `s` is an occurrence in `s`. */
  lemma OccursInPrefix<T>(s: seq<T>, n: nat, t: seq<T>, i: int)
    requires n <= |s| && OccursAt(s[..n], t, i)
    ensures OccursAt(s, t, i)
  {
    assert s[..n][i..i + |t|] == s[i..i + |t|];
  }

  /** The part before the first occurrence never contains the pattern. */
  lemma BeforeFirstIsFree<T>(s: seq<T>, t: seq<T>)
    requires |t| > 0 && Find(s, t) >= 0
    ensures !Contains(s[..Find(s, t)], t)
  {
    var r := Find(s, t);
    if Contains(s[..r], t) {
      var j := Find(s[..r], t);
      OccursInPrefix(s, r, t, j);
      assert false;
    }
  }

  /** Python's `s.split(sep)` for a non-empty separator. */
  function Split<T(==)>(s: seq<T>, sep: seq<T>): (r: seq<seq<T>>)
    requires |sep| > 0
    ensures |r| >= 1
    decreases |s|
  {
    var i := Find(s, sep);
    if i < 0 then [s] else [s[..i]] + Split(s[i + |sep|..], sep)
  }

  /** A text shorter than the separator splits into itself. */
  lemma SplitShort<T>(s: seq<T>, sep: seq<T>)
    requires 0 < |sep| && |s| < |sep|
    ensures Split(s, sep) == [s]
  {
    assert FindFrom(s, sep, 0) == -1;
  }

  /** Python's `sep.join(parts)`. */
  function JoinWith<T>(parts: seq<seq<T>>, sep: seq<T>): seq<T> {
    if |parts| == 0 then []
    else if |parts| == 1 then parts[0]
    else parts[0] + sep + JoinWith(parts[1..], sep)
  }

  /** Joining a part in front of at least one more puts a separator after it. */
  lemma JoinWithCons<T>(p: seq<T>, parts: seq<seq<T>>, sep: seq<T>)
    requires |parts| >= 1
    ensures JoinWith([p] + parts, sep) == p + sep + JoinWith(parts, sep)
  {
    assert ([p] + parts)[1..] == parts;
  }

  /** A split with a first occurrence at `i` is the piece before it followed by the split of the
      rest. */
  lemma SplitStep<T>(s: seq<T>, sep: seq<T>)
    requires |sep| > 0 && Find(s, sep) >= 0
    ensures Split(s, sep) == [s[..Find(s, sep)]] + Split(s[Find(s, sep) + |sep|..], sep)
  {
  }

  /** An occurrence at `i` cuts `s` into what precedes it, the separator and what follows it. */
  lemma AroundOccurrence<T>(s: seq<T>, sep: seq<T>, i: int)
    requires OccursAt(s, sep, i)
    ensures s == s[..i] + sep + s[i + |sep|..]
  {
    assert s == s[..i] + s[i..i + |sep|] + s[i + |sep|..];
  }

  /** Joining the pieces of a split with the same separator gives back the original. */
  lemma {:induction false} JoinSplit<T>(s: seq<T>, sep: seq<T>)
    requires |sep| > 0
    ensures JoinWith(Split(s, sep), sep) == s
    decreases |s|
  {
    var i := Find(s, sep);
    if i >= 0 {
      var rest := s[i + |sep|..];
      JoinSplit(rest, sep);
      SplitStep(s, sep);
      JoinWithCons(s[..i], Split(rest, sep), sep);
      AroundOccurrence(s, sep, i);
    }
  }

  /** Joining one more part puts a separator and the part at the end. */
  lemma {:induction false} JoinWithSnoc<T>(parts: seq<seq<T>>, p: seq<T>, sep: seq<T>)
    requires |parts| >= 1
    ensures JoinWith(parts + [p], sep) == JoinWith(parts, sep) + sep + p
    decreases |parts|
  {
    if |parts| > 1 {
      JoinWithSnoc(parts[1..], p, sep);
      assert (parts + [p])[1..] == parts[1..] + [p];
    }
  }

  /** No piece of a split contains the separator. */
  lemma {:induction false} SplitPiecesFree<T>(s: seq<T>, sep: seq<T>)
    requires |sep| > 0
    ensures forall k :: 0 <= k < |Split(s, sep)| ==> !Contains(Split(s, sep)[k], sep)
    decreases |s|
  {
    var i := Find(s, sep);
    if i >= 0 {
      BeforeFirstIsFree(s, sep);
      SplitPiecesFree(s[i + |sep|..], sep);
    }
  }

  /** Python's `s.split(sep)[-1]`: the text after the final separator. */
  function LastPiece<T(==)>(s: seq<T>, sep: seq<T>): seq<T>
    requires |sep| > 0
  {
    var parts := Split(s, sep);
    parts[|parts| - 1]
  }

  /** `p` is a suffix of `s` and is either all of `s` or directly preceded by a separator. */
  predicate IsTailPiece<T(==)>(s: seq<T>, p: seq<T>, sep: seq<T>) {
    |p| <= |s| && s[|s| - |p|..] == p &&
    (|p| < |s| ==> SeparatorEndsAt(s, |s| - |p|, sep))
  }

  /** The last piece is a suffix of `s` and is either all of `s`
      or directly preceded by a separator. */
  lemma {:induction false} LastPieceIsTail<T>(s: seq<T>, sep: seq<T>)
    requires |sep| > 0
    ensures IsTailPiece(s, LastPiece(s, sep), sep)
    decreases |s|
  {
    var i := Find(s, sep);
    if i >= 0 {
      var rest := s[i + |sep|..];
      LastPieceIsTail(rest, sep);
      LastPieceStep(s, sep);
      TailAfterOccurrence(s, sep, i, LastPiece(rest, sep));
    } else {
      LastPieceWhole(s, sep);
    }
  }

  /** Without an occurrence, the last piece is the whole sequence. */
  lemma LastPieceWhole<T>(s: seq<T>, sep: seq<T>)
    requires |sep| > 0 && Find(s, sep) < 0
    ensures LastPiece(s, sep) == s
  {
    assert Split(s, sep) == [s];
  }

  /** A tail piece of what follows an occurrence of the separator is a tail piece of the whole. */
  lemma TailAfterOccurrence<T>(s: seq<T>, sep: seq<T>, i: int, p: seq<T>)
    requires OccursAt(s, sep, i) && IsTailPiece(s[i + |sep|..], p, sep)
    ensures IsTailPiece(s, p, sep)
  {
    TailOfTail(s, i + |sep|, |p|);
    if |p| < |s| - (i + |sep|) {
      SeparatorInTail(s, i + |sep|, |s| - (i + |sep|) - |p|, sep);
    } else {
      OccurrenceEnds(s, sep, i);
    }
  }

  /** An occurrence at `i` is a separator ending at `i + |sep|`. */
  lemma OccurrenceEnds<T>(s: seq<T>, sep: seq<T>, i: int)
    requires OccursAt(s, sep, i)
    ensures SeparatorEndsAt(s, i + |sep|, sep)
  {
  }

  /** After a first occurrence, the last piece is the last piece of what follows it. */
  lemma LastPieceStep<T>(s: seq<T>, sep: seq<T>)
    requires |sep| > 0 && Find(s, sep) >= 0
    ensures LastPiece(s, sep) == LastPiece(s[Find(s, sep) + |sep|..], sep)
  {
    SplitStep(s, sep);
    var a := [s[..Find(s, sep)]];
    var b := Split(s[Find(s, sep) + |sep|..], sep);
    assert (a + b)[|a + b| - 1] == b[|b| - 1];
  }

  /** A suffix of a suffix is a suffix. */
  lemma TailOfTail<T>(s: seq<T>, a: nat, m: nat)
    requires a <= |s| && m <= |s| - a
    ensures s[a..][|s| - a - m..] == s[|s| - m..]
  {
  }

  /** A separator that ends at `k` in a suffix starting at `a` ends at `a + k` in `s`. */
  lemma SeparatorInTail<T>(s: seq<T>, a: nat, k: int, sep: seq<T>)
    requires a <= |s| && SeparatorEndsAt(s[a..], k, sep)
    ensures SeparatorEndsAt(s, a + k, sep)
  {
    assert s[a..][k - |sep|..k] == s[a + k - |sep|..a + k];
  }

  /** A sequence that does not contain `[x]` has no element `x`. */
  lemma FreeOf<T>(s: seq<T>, x: T)
    requires !Contains(s, [x])
    ensures forall i | 0 <= i < |s| :: s[i] != x
  {
    forall i | 0 <= i < |s|
      ensures s[i] != x
    {
      assert !OccursAt(s, [x], i);
      assert s[i..i + 1] == [s[i]];
    }
  }

  /** The `|sep|` elements of `s` just before index `k` are `sep`. */
  predicate SeparatorEndsAt<T(==)>(s: seq<T>, k: int, sep: seq<T>) {
    |sep| <= k <= |s| && s[k - |sep|..k] == sep
  }

  /** No element occurs twice. */
  ghost predicate Unique<T(!new)>(s: seq<T>) {
    forall x :: multiset(s)[x] <= 1
  }

  // Small facts about slices, stated once so that callers need not rediscover them.

  lemma AppendAssoc<T>(a: seq<T>, b: seq<T>, c: seq<T>)
    ensures a + (b + c) == (a + b) + c
  {
  }

  lemma TakeDrop<T>(s: seq<T>, i: nat)
    requires i <= |s|
    ensures s[..i] + s[i..] == s
  {
  }

  lemma SliceAppend<T>(a: seq<T>, b: seq<T>, k: nat)
    requires k <= |a|
    ensures (a + b)[k..] == a[k..] + b && (a + b)[..k] == a[..k]
  {
  }

  lemma SplitAt<T>(s: seq<T>, i: nat, b: seq<T>, rest: seq<T>)
    requires i <= |s| && s[i..] == b + rest
    ensures s[..i + |b|] == s[..i] + b && s[i + |b|..] == rest
  {
    assert s[i..][..|b|] == b;
    assert s[i..][|b|..] == rest;
  }

  lemma DropDrop<T>(s: seq<T>, i: nat, n: nat)
    requires i + n <= |s|
    ensures s[i..][n..] == s[i + n..] && s[..i] + s[i..][..n] == s[..i + n]
  {
  }

  lemma EmptyAppend<T>(s: seq<T>)
    ensures [] + s == s && s + [] == s && s[0..] == s
  {
  }

  /** Without its first element, a sequence without repeats still has none, and does not hold
      that element. */
  lemma UniqueTail<T(!new)>(s: seq<T>)
    requires s != [] && Unique(s)
    ensures Unique(s[1..]) && s[0] !in s[1..]
  {
    assert s == [s[0]] + s[1..];
    assert multiset(s) == multiset{s[0]} + multiset(s[1..]);
    forall x
      ensures multiset(s[1..])[x] <= 1
    {
      assert multiset(s)[x] <= 1;
    }
    assert multiset(s[1..])[s[0]] == 0 by {
      assert multiset(s)[s[0]] <= 1;
    }
  }

  /** Without its last element, a sequence without repeats still has none, and does not hold
      that element. */
  lemma UniqueInit<T(!new)>(s: seq<T>)
    requires s != [] && Unique(s)
    ensures Unique(s[..|s| - 1]) && s[|s| - 1] !in s[..|s| - 1]
  {
    var init := s[..|s| - 1];
    assert s == init + [s[|s| - 1]];
    assert multiset(s) == multiset(init) + multiset{s[|s| - 1]};
    forall x
      ensures multiset(init)[x] <= 1
    {
      assert multiset(s)[x] <= 1;
    }
    assert multiset(init)[s[|s| - 1]] == 0 by {
      assert multiset(s)[s[|s| - 1]] <= 1;
    }
  }

  /** Adding an element that is not there yet keeps a sequence free of repeats. */
  lemma UniqueSnoc<T(!new)>(s: seq<T>, x: T)
    requires Unique(s) && x !in s
    ensures Unique(s + [x])
  {
    assert multiset(s + [x]) == multiset(s) + multiset{x};
    assert multiset(s)[x] == 0;
  }

  /** A subset is no larger than the set it is taken from. */
  lemma {:induction false} SubsetSmaller<T>(a: set<T>, b: set<T>)
    requires a <= b
    ensures |a| <= |b|
    decreases |b|
  {
    if a != {} {
      var x :| x in a;
      SubsetSmaller(a - {x}, b - {x});
    }
  }

  lemma TakeTake<T>(s: seq<T>, m: nat, n: nat)
    requires n <= m <= |s|
    ensures s[..m][..n] == s[..n]
  {
  }
}
