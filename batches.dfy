/** Sequence shapes shared by the pipeline: consecutive fixed-size slices, the shape of
    `for start in range(0, len(xs), size): batch = xs[start:start + size]` (embedding
    batches in src/indexer.py and upsert batches in src/vectordb.py), `zip` of two
    lists, and the order-keeping filter `[x for x in xs if keep(x)]`. */
module Batches {

  function Min(a: int, b: int): int { if a <= b then a else b }

  /** The slices `xs[0:size]`, `xs[size:2*size]`, ... that the loop visits. */
  function Batches<T>(xs: seq<T>, size: nat): seq<seq<T>>
    requires size > 0
    decreases |xs|
  {
    if xs == [] then [] else [xs[..Min(size, |xs|)]] + Batches(xs[Min(size, |xs|)..], size)
  }

  /** The batches one after another. */
  function Concat<T>(bs: seq<seq<T>>): seq<T> {
    if bs == [] then [] else bs[0] + Concat(bs[1..])
  }

  /** Batch `k` is the slice from `k * size`, and there are as many batches as the
      loop has starting points. */
  lemma {:induction false} BatchAt<T>(xs: seq<T>, size: nat, k: nat)
    requires size > 0 && k * size < |xs|
    ensures k < |Batches(xs, size)|
    ensures Batches(xs, size)[k] == xs[k * size..Min((k + 1) * size, |xs|)]
    decreases |xs|
  {
    var n := Min(size, |xs|);
    var rest := xs[n..];
    if k > 0 {
      assert k * size == size + (k - 1) * size;
      assert (k + 1) * size == size + k * size;
      BatchAt(rest, size, k - 1);
      assert Batches(xs, size)[k] == Batches(rest, size)[k - 1];
      assert rest[(k - 1) * size..Min(k * size, |rest|)] == xs[k * size..Min((k + 1) * size, |xs|)];
    }
  }

  /** Every batch is non-empty and at most `size` long, and only the last may be
      shorter than `size`. */
  lemma {:induction false} BatchesShape<T>(xs: seq<T>, size: nat)
    requires size > 0
    ensures forall k :: 0 <= k < |Batches(xs, size)| ==> 0 < |Batches(xs, size)[k]| <= size
    ensures forall k :: 0 <= k < |Batches(xs, size)| - 1 ==> |Batches(xs, size)[k]| == size
    decreases |xs|
  {
    if xs != [] {
      var n := Min(size, |xs|);
      var rest := xs[n..];
      BatchesShape(rest, size);
      var bs := Batches(xs, size);
      assert bs == [xs[..n]] + Batches(rest, size);
      assert forall k :: 0 < k < |bs| ==> bs[k] == Batches(rest, size)[k - 1];
      if rest != [] {
        assert n == size;
      }
    }
  }

  /** The batches together are the whole sequence, in order. */
  lemma {:induction false} BatchesConcat<T>(xs: seq<T>, size: nat)
    requires size > 0
    ensures Concat(Batches(xs, size)) == xs
    decreases |xs|
  {
    if xs != [] {
      var n := Min(size, |xs|);
      BatchesConcat(xs[n..], size);
      assert (Batches(xs, size))[1..] == Batches(xs[n..], size);
      assert xs == xs[..n] + xs[n..];
    }
  }

  /** One step of the loop: the batch at `start` and the batches after it. */
  lemma BatchesFrom<T>(xs: seq<T>, size: nat, start: nat)
    requires size > 0 && start < |xs|
    ensures Batches(xs[start..], size) ==
      [xs[start..Min(start + size, |xs|)]] + Batches(xs[Min(start + size, |xs|)..], size)
  {
    var t := xs[start..];
    assert t[..Min(size, |t|)] == xs[start..Min(start + size, |xs|)];
    assert t[Min(size, |t|)..] == xs[Min(start + size, |xs|)..];
  }

  lemma {:induction false} ConcatAppend<T>(a: seq<seq<T>>, b: seq<seq<T>>)
    ensures Concat(a + b) == Concat(a) + Concat(b)
  {
    if a == [] {
      assert a + b == b;
    } else {
      assert (a + b)[1..] == a[1..] + b;
      ConcatAppend(a[1..], b);
    }
  }

  /** `[f(x, y) for x, y in zip(xs, ys)]`: the shorter list decides the length. */
  function Zip<A, B, C>(xs: seq<A>, ys: seq<B>, f: (A, B) -> C): seq<C> {
    seq(Min(|xs|, |ys|), k requires 0 <= k < Min(|xs|, |ys|) => f(xs[k], ys[k]))
  }

  /** A loop over `zip(xs, ys)` appending `f(x, y)` for each pair. */
  method ZipWith<A, B, C>(xs: seq<A>, ys: seq<B>, f: (A, B) -> C) returns (zs: seq<C>)
    ensures zs == Zip(xs, ys, f)
  {
    zs := [];
    var n := Min(|xs|, |ys|);
    for j := 0 to n
      invariant |zs| == j
      invariant forall k :: 0 <= k < j ==> zs[k] == f(xs[k], ys[k])
    {
      zs := zs + [f(xs[j], ys[j])];
    }
  }

  /** `[x for x in xs if keep(x)]`. */
  function Filter<T>(xs: seq<T>, keep: T -> bool): seq<T> {
    if xs == [] then [] else (if keep(xs[0]) then [xs[0]] else []) + Filter(xs[1..], keep)
  }

  /** Filtering one more element at the end. */
  lemma {:induction false} FilterSnoc<T>(xs: seq<T>, x: T, keep: T -> bool)
    ensures Filter(xs + [x], keep) == Filter(xs, keep) + (if keep(x) then [x] else [])
  {
    var last := if keep(x) then [x] else [];
    if xs == [] {
      assert [x][1..] == [];
    } else {
      var head := if keep(xs[0]) then [xs[0]] else [];
      assert (xs + [x])[0] == xs[0] && (xs + [x])[1..] == xs[1..] + [x];
      assert Filter(xs + [x], keep) == head + Filter(xs[1..] + [x], keep);
      FilterSnoc(xs[1..], x, keep);
      assert head + (Filter(xs[1..], keep) + last) == (head + Filter(xs[1..], keep)) + last;
    }
  }

  /** The kept elements are exactly the elements that pass. */
  lemma {:induction false} FilterMembers<T>(xs: seq<T>, keep: T -> bool)
    ensures forall y :: y in Filter(xs, keep) <==> y in xs && keep(y)
  {
    if xs != [] {
      FilterMembers(xs[1..], keep);
      assert xs == [xs[0]] + xs[1..];
    }
  }
}
