/** Facts about sequences used by the loops that build lists by appending. */
module Seqs {

  /** Appending in two steps is appending the two parts at once. */
  lemma AppendAssoc<T>(a: seq<T>, b: seq<T>, c: seq<T>)
    ensures (a + b) + c == a + (b + c)
  {
  }

  /** The first part of a + b is a, and b starts at |a|. */
  lemma Parts<T>(a: seq<T>, b: seq<T>)
    ensures (a + b)[..|a|] == a
    ensures forall j :: 0 <= j < |b| ==> (a + b)[|a| + j] == b[j]
  {
  }

  /** What follows a in a + b is b. */
  lemma Rest<T>(a: seq<T>, b: seq<T>)
    ensures (a + b)[|a|..] == b
  {
  }

  /** The first, second and last of four parts. */
  lemma FourParts<T>(a: seq<T>, b: seq<T>, c: seq<T>, d: seq<T>)
    ensures (a + b + c + d)[..|a|] == a
    ensures (a + b + c + d)[|a|..|a| + |b|] == b
    ensures (a + b + c + d)[|a| + |b| + |c|..] == d
  {
    assert (a + b + c + d)[|a|..] == b + c + d;
    assert (a + b + c + d)[|a| + |b| + |c|..] == d;
  }

  /** The middle part of a + b + c is b. */
  lemma Middle<T>(a: seq<T>, b: seq<T>, c: seq<T>)
    ensures (a + b + c)[|a|..|a| + |b|] == b
  {
    assert (a + b + c)[|a|..] == b + c;
  }

  /** When p continues after position start with the flat list of f over xs, and every
      f(x) has w elements, f(xs[k]) sits at start + wk. */
  lemma FlatMapChunk<A, B>(p: seq<B>, start: nat, f: A -> seq<B>, xs: seq<A>, w: nat, k: nat)
    requires forall x :: |f(x)| == w
    requires start <= |p| && p[start..] == FlatMap(f, xs) && k < |xs|
    ensures start + w * k + w <= |p|
    ensures p[start + w * k..start + w * k + w] == f(xs[k])
  {
    var flat := FlatMap(f, xs);
    var lo := |FlatMap(f, xs[..k])|;
    FlatMapLength(f, xs[..k], w);
    FlatMapAt(f, xs, w, k);
    assert lo + w <= |flat| && |p| == start + |flat|;
    SliceOfRest(p, start, flat, lo, lo + w);
  }

  /** The four elements of a slice of length four. */
  lemma FourAt<T>(p: seq<T>, o: nat, lines: seq<T>)
    requires o + 4 <= |p| && p[o..o + 4] == lines
    ensures |lines| == 4
    ensures p[o] == lines[0] && p[o + 1] == lines[1] && p[o + 2] == lines[2] && p[o + 3] == lines[3]
  {
    assert p[o..o + 4][1] == p[o + 1] && p[o..o + 4][3] == p[o + 3];
  }

  /** Elements i to j of what follows position start in p are elements start + i to
      start + j of p. */
  lemma SliceOfRest<T>(p: seq<T>, start: nat, rest: seq<T>, i: nat, j: nat)
    requires start <= |p| && p[start..] == rest && i <= j <= |rest|
    ensures start + j <= |p| && p[start + i..start + j] == rest[i..j]
  {
    assert p[start..][i..j] == p[start + i..start + j];
  }

  /** A sequence is its part before position k, the element at k, and the part after. */
  lemma Around<T>(s: seq<T>, k: nat)
    requires k < |s|
    ensures s == s[..k] + [s[k]] + s[k + 1..]
  { }

  /** Appending four elements one by one appends the four of them. */
  lemma AppendFour<T>(p: seq<T>, l: seq<T>)
    requires |l| == 4
    ensures p + [l[0]] + [l[1]] + [l[2]] + [l[3]] == p + l
  {
    assert l == [l[0], l[1], l[2], l[3]];
  }

  /** f applied to every element, in order: a list comprehension [f(x) for x in xs]. */
  function Map<A, B>(f: A -> B, xs: seq<A>): (ys: seq<B>)
    ensures |ys| == |xs|
  {
    if xs == [] then [] else Map(f, xs[..|xs| - 1]) + [f(xs[|xs| - 1])]
  }

  /** A loop that appends f(xs[i]) at step i has built Map(f, xs[..i + 1]). */
  lemma MapStep<A, B>(f: A -> B, xs: seq<A>, i: nat)
    requires i < |xs|
    ensures Map(f, xs[..i + 1]) == Map(f, xs[..i]) + [f(xs[i])]
  {
    assert xs[..i + 1][..i] == xs[..i];
  }

  /** The k-th element of the map is f of the k-th element. */
  lemma {:induction false} MapAt<A, B>(f: A -> B, xs: seq<A>, k: nat)
    requires k < |xs|
    ensures Map(f, xs)[k] == f(xs[k])
  {
    var n := |xs| - 1;
    if k < n {
      MapAt(f, xs[..n], k);
    }
  }

  /** The lists f(x) of all elements, one after the other. */
  function FlatMap<A, B>(f: A -> seq<B>, xs: seq<A>): seq<B> {
    if xs == [] then [] else FlatMap(f, xs[..|xs| - 1]) + f(xs[|xs| - 1])
  }

  /** A loop that appends f(xs[i]) at step i has built FlatMap(f, xs[..i + 1]). */
  lemma FlatMapStep<A, B>(f: A -> seq<B>, xs: seq<A>, i: nat)
    requires i < |xs|
    ensures FlatMap(f, xs[..i + 1]) == FlatMap(f, xs[..i]) + f(xs[i])
  {
    assert xs[..i + 1][..i] == xs[..i];
  }

  /** The flat list of a + b is that of a followed by that of b. */
  lemma {:induction false} FlatMapAppend<A, B>(f: A -> seq<B>, a: seq<A>, b: seq<A>)
    ensures FlatMap(f, a + b) == FlatMap(f, a) + FlatMap(f, b)
    decreases |b|
  {
    if b == [] {
      assert a + b == a;
    } else {
      var m := |b| - 1;
      assert (a + b)[..|a + b| - 1] == a + b[..m];
      FlatMapAppend(f, a, b[..m]);
      AppendAssoc(FlatMap(f, a), FlatMap(f, b[..m]), f(b[m]));
    }
  }

  /** When every f(x) has w elements, the flat list has w per element. */
  lemma {:induction false} FlatMapLength<A, B>(f: A -> seq<B>, xs: seq<A>, w: nat)
    requires forall x :: |f(x)| == w
    ensures |FlatMap(f, xs)| == w * |xs|
  {
    if xs != [] {
      FlatMapLength(f, xs[..|xs| - 1], w);
      assert w * |xs| == w * (|xs| - 1) + w;
    }
  }

  /** When every f(x) has w elements, elements wk to wk + w - 1 are f(xs[k]). */
  lemma FlatMapAt<A, B>(f: A -> seq<B>, xs: seq<A>, w: nat, k: nat)
    requires forall x :: |f(x)| == w
    requires k < |xs|
    ensures w * k + w <= |FlatMap(f, xs)|
    ensures FlatMap(f, xs)[w * k..w * k + w] == f(xs[k])
  {
    var front := xs[..k];
    var rest := xs[k + 1..];
    Around(xs, k);
    FlatMapAppend(f, front + [xs[k]], rest);
    FlatMapAppend(f, front, [xs[k]]);
    assert FlatMap(f, [xs[k]]) == f(xs[k]) by {
      assert [xs[k]][..0] == [];
    }
    FlatMapLength(f, front, w);
    Middle(FlatMap(f, front), f(xs[k]), FlatMap(f, rest));
  }

  /** P holds of every element. */
  predicate Every<T>(P: T -> bool, s: seq<T>) {
    forall i :: 0 <= i < |s| ==> P(s[i])
  }

  lemma EveryAppend<T>(P: T -> bool, a: seq<T>, b: seq<T>)
    requires Every(P, a) && Every(P, b)
    ensures Every(P, a + b)
  {
    assert forall i :: |a| <= i < |a + b| ==> (a + b)[i] == b[i - |a|];
  }

  /** P holds of every element of the flat list when it holds of every element of each f(x). */
  lemma {:induction false} FlatMapEvery<A, B>(f: A -> seq<B>, xs: seq<A>, P: B -> bool)
    requires forall i :: 0 <= i < |xs| ==> Every(P, f(xs[i]))
    ensures Every(P, FlatMap(f, xs))
  {
    if xs != [] {
      var n := |xs| - 1;
      assert forall i :: 0 <= i < n ==> xs[..n][i] == xs[i];
      FlatMapEvery(f, xs[..n], P);
      EveryAppend(P, FlatMap(f, xs[..n]), f(xs[n]));
    }
  }
}
