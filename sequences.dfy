/**
 * Small facts about sequences, and mapping a function over one, stated once
 * for every element type.
 */
module Sequences {
  import opened Wrappers

  /** Appending keeps the earlier elements in place. */
  lemma ElementOfPrefix<T>(xs: seq<T>, x: T, k: nat)
    requires k < |xs|
    ensures (xs + [x])[k] == xs[k]
  {
  }

  /** The appended element comes last. */
  lemma ElementAppended<T>(xs: seq<T>, x: T)
    ensures (xs + [x])[|xs|] == x
  {
  }

  /** Moving one element across a concatenation. */
  lemma AppendOne<T>(xs: seq<T>, x: T, ys: seq<T>)
    ensures xs + ([x] + ys) == (xs + [x]) + ys
  {
  }

  /** Concatenation is associative. */
  lemma AppendAssoc<T>(xs: seq<T>, ys: seq<T>, zs: seq<T>)
    ensures (xs + ys) + zs == xs + (ys + zs)
  {
  }

  /** The four parts of a concatenation sit one after the other in it. */
  lemma PartsOfFour<T>(a: seq<T>, b: seq<T>, c: seq<T>, d: seq<T>)
    ensures var s := a + b + c + d;
      && |s| == |a| + |b| + |c| + |d|
      && s[..|a|] == a
      && s[|a|..|a| + |b|] == b
      && s[|a| + |b|..|a| + |b| + |c|] == c
      && s[|s| - |d|..] == d
  {
  }

  /**
   * `ys` is the subsequence of `xs` at the strictly increasing positions
   * `idx`: the elements a filter keeps, in their original order.
   */
  predicate SelectedAt<T(==)>(xs: seq<T>, idx: seq<nat>, ys: seq<T>) {
    && |idx| == |ys|
    && (forall k :: 0 <= k < |idx| ==> idx[k] < |xs| && ys[k] == xs[idx[k]])
    && (forall j, k :: 0 <= j < k < |idx| ==> idx[j] < idx[k])
  }

  /** `f` applied to every element of `xs`, in order. */
  function MapSeq<A, B>(f: A -> B, xs: seq<A>): (r: seq<B>)
    ensures |r| == |xs|
  {
    if xs == [] then [] else MapSeq(f, xs[..|xs| - 1]) + [f(xs[|xs| - 1])]
  }

  /** The `k`-th image is the image of the `k`-th element. */
  lemma {:induction false} MapSeqAt<A, B>(f: A -> B, xs: seq<A>, k: nat)
    requires k < |xs|
    ensures MapSeq(f, xs)[k] == f(xs[k])
  {
    var m := |xs| - 1;
    if k < m {
      MapSeqAt(f, xs[..m], k);
    }
  }

  /** Mapping one more element appends its image. */
  lemma MapSeqSnoc<A, B>(f: A -> B, xs: seq<A>, x: A)
    ensures MapSeq(f, xs + [x]) == MapSeq(f, xs) + [f(x)]
  {
    assert (xs + [x])[..|xs|] == xs;
  }

  /** Mapping a concatenation maps each part. */
  lemma {:induction false} MapSeqAppend<A, B>(f: A -> B, xs: seq<A>, ys: seq<A>)
    ensures MapSeq(f, xs + ys) == MapSeq(f, xs) + MapSeq(f, ys)
  {
    if ys != [] {
      var m := |ys| - 1;
      MapSeqAppend(f, xs, ys[..m]);
      assert (xs + ys)[..|xs + ys| - 1] == xs + ys[..m];
      AppendAssoc(MapSeq(f, xs), MapSeq(f, ys[..m]), [f(ys[m])]);
    } else {
      assert xs + ys == xs;
    }
  }

  /** The images are exactly the images of the elements. */
  lemma MapSeqMembers<A, B>(f: A -> B, xs: seq<A>)
    ensures forall y :: y in MapSeq(f, xs) <==> exists x :: x in xs && y == f(x)
  {
    forall y | y in MapSeq(f, xs) ensures exists x :: x in xs && y == f(x) {
      var k :| 0 <= k < |xs| && MapSeq(f, xs)[k] == y;
      MapSeqAt(f, xs, k);
    }
    forall x | x in xs ensures f(x) in MapSeq(f, xs) {
      var k :| 0 <= k < |xs| && xs[k] == x;
      MapSeqAt(f, xs, k);
    }
  }

  /**
   * A list comprehension `[f(x) for x in xs]` whose `f` may raise: the
   * images in order, or the error of the first element that fails.
   */
  function MapAll<A, B, E>(f: A -> Result<B, E>, xs: seq<A>): (r: Result<seq<B>, E>)
    ensures r.Ok? ==> |r.value| == |xs|
  {
    if xs == [] then Ok([])
    else match f(xs[0])
      case Err(e) => Err(e)
      case Ok(y) =>
        match MapAll(f, xs[1..])
        case Err(e) => Err(e)
        case Ok(ys) => Ok([y] + ys)
  }

  /**
   * The comprehension succeeds exactly when every element maps, and then
   * maps each element in place; a failure is the error of the first element
   * that fails.
   */
  lemma {:induction false} MapAllMeaning<A, B, E>(f: A -> Result<B, E>, xs: seq<A>)
    ensures MapAll(f, xs).Ok? <==> forall k :: 0 <= k < |xs| ==> f(xs[k]).Ok?
    ensures MapAll(f, xs).Ok? ==> forall k :: 0 <= k < |xs| ==> f(xs[k]) == Ok(MapAll(f, xs).value[k])
    ensures MapAll(f, xs).Err? ==>
      exists k :: 0 <= k < |xs| && f(xs[k]) == Err(MapAll(f, xs).error) &&
        forall j :: 0 <= j < k ==> f(xs[j]).Ok?
  {
    if xs != [] {
      var rest := xs[1..];
      MapAllMeaning(f, rest);
      assert forall k :: 0 < k < |xs| ==> xs[k] == rest[k - 1];
      var r := MapAll(f, xs);
      if f(xs[0]).Ok? && MapAll(f, rest).Ok? {
        assert forall k :: 0 < k < |xs| ==> r.value[k] == MapAll(f, rest).value[k - 1];
      }
      if r.Err? && f(xs[0]).Ok? {
        var k :| 0 <= k < |rest| && f(rest[k]) == Err(MapAll(f, rest).error) &&
          forall j :: 0 <= j < k ==> f(rest[j]).Ok?;
        assert f(xs[k + 1]) == Err(r.error);
        assert forall j :: 0 < j < k + 1 ==> f(xs[j]).Ok?;
      }
    }
  }

  /** A comprehension over the encodings of `xs`, by a decoder that inverts the encoding, gives `xs` back. */
  lemma MapAllInverse<A, B, E>(f: A -> Result<B, E>, g: B -> A, xs: seq<B>)
    requires forall x :: f(g(x)) == Ok(x)
    ensures MapAll(f, MapSeq(g, xs)) == Ok(xs)
  {
    var raw := MapSeq(g, xs);
    forall k | 0 <= k < |raw| ensures f(raw[k]) == Ok(xs[k]) {
      MapSeqAt(g, xs, k);
    }
    MapAllMeaning(f, raw);
    var v := MapAll(f, raw).value;
    assert forall k :: 0 <= k < |v| ==> f(raw[k]) == Ok(v[k]);
    assert v == xs;
  }
}
