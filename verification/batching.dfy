/** Cutting a list into consecutive batches, as the source does with
    `for i in range(0, len(xs), size): xs[i:i + size]` (batches of 5 for the
    new-release notifications, of 10 for the `.latestrelease` listing). */
module Batching {
  import opened Text

  function Flatten<T>(cs: seq<seq<T>>): seq<T>
    decreases |cs|
  {
    if cs == [] then [] else cs[0] + Flatten(cs[1..])
  }

  /** Every batch is non-empty and holds at most `size` items, and every batch
      but the last holds exactly `size`. */
  predicate Shaped<T>(cs: seq<seq<T>>, size: nat) {
    && (forall k :: 0 <= k < |cs| ==> 0 < |cs[k]| <= size)
    && (forall k :: 0 <= k < |cs| - 1 ==> |cs[k]| == size)
  }

  /** Dropping the first batch keeps the rest shaped, and a shaped list with
      more than one batch starts with a full one. */
  lemma ShapedTail<T>(cs: seq<seq<T>>, size: nat)
    requires cs != [] && Shaped(cs, size)
    ensures Shaped(cs[1..], size)
    ensures |cs| > 1 ==> |cs[0]| == size
  {
    var rest := cs[1..];
    forall k | 0 <= k < |rest| ensures 0 < |rest[k]| <= size {
      assert rest[k] == cs[k + 1];
    }
    forall k | 0 <= k < |rest| - 1 ensures |rest[k]| == size {
      assert rest[k] == cs[k + 1];
    }
  }

  /** A positive multiple of `size` is at least `size`. */
  lemma MulAtLeast(d: int, size: int)
    requires d >= 1 && size > 0
    ensures d * size >= size
  {
  }

  /** Euclidean division is unique: quotient `q` and remainder `r` with
      `0 <= r < size` are the ones `/` returns. */
  lemma DivUnique(a: int, size: int, q: int, r: int)
    requires size > 0 && 0 <= r < size && a == q * size + r
    ensures a / size == q
  {
    var q', r' := a / size, a % size;
    assert a == q' * size + r';
    assert (q - q') * size == r' - r;
    if q > q' {
      MulAtLeast(q - q', size);
    } else if q < q' {
      MulAtLeast(q' - q, size);
    }
  }

  /** `(a + size) / size` is one more than `a / size`. */
  lemma DivStep(a: nat, size: nat)
    requires size > 0
    ensures (a + size) / size == a / size + 1
  {
    var q, r := a / size, a % size;
    assert a + size == (q + 1) * size + r;
    DivUnique(a + size, size, q + 1, r);
  }

  /** The batches of `xs`: each non-empty and at most `size` long, and all
      but the last exactly `size` long. */
  function Chunks<T>(xs: seq<T>, size: nat): (cs: seq<seq<T>>)
    requires size > 0
    ensures Shaped(cs, size)
    decreases |xs|
  {
    if |xs| == 0 then []
    else if |xs| <= size then [xs]
    else [xs[..size]] + Chunks(xs[size..], size)
  }

  /** Read in order, the batches give back exactly `xs`. */
  lemma {:induction false} ChunksFlatten<T>(xs: seq<T>, size: nat)
    requires size > 0
    ensures Flatten(Chunks(xs, size)) == xs
    decreases |xs|
  {
    if |xs| > size {
      ChunksFlatten(xs[size..], size);
      assert Chunks(xs, size)[1..] == Chunks(xs[size..], size);
      assert xs[..size] + xs[size..] == xs;
    } else if |xs| > 0 {
      assert Flatten(Chunks(xs, size)) == xs + Flatten([]);
    }
  }

  /** There are ceil(|xs| / size) batches. */
  lemma {:induction false} ChunkCount<T>(xs: seq<T>, size: nat)
    requires size > 0
    ensures |Chunks(xs, size)| == (|xs| + size - 1) / size
    decreases |xs|
  {
    if |xs| == 0 {
      DivUnique(size - 1, size, 0, size - 1);
    } else if |xs| <= size {
      DivUnique(|xs| + size - 1, size, 1, |xs| - 1);
    } else {
      ChunkCount(xs[size..], size);
      DivStep(|xs| - 1, size);
    }
  }

  /** The batch starting at `start` in the source's loop: `xs[start:start + size]`
      with Python's clamping of the upper bound. */
  function Slice<T>(xs: seq<T>, start: nat, size: nat): seq<T>
    requires start <= |xs|
  {
    xs[start .. Min(start + size, |xs|)]
  }

  /** `k * size`, counted up one batch at a time as the source's loop does. */
  function Offset(k: nat, size: nat): nat {
    if k == 0 then 0 else Offset(k - 1, size) + size
  }

  lemma {:induction false} OffsetIsProduct(k: nat, size: nat)
    ensures Offset(k, size) == k * size
  {
    if k > 0 {
      OffsetIsProduct(k - 1, size);
      assert (k - 1) * size + size == k * size;
    }
  }

  /** A shaped list holds `size` items per batch before the last one. */
  lemma {:induction false} ShapedLength<T>(cs: seq<seq<T>>, size: nat)
    requires cs != [] && Shaped(cs, size)
    ensures |Flatten(cs)| == Offset(|cs| - 1, size) + |cs[|cs| - 1]|
    decreases |cs|
  {
    if |cs| > 1 {
      ShapedTail(cs, size);
      ShapedLength(cs[1..], size);
      assert cs[1..][|cs| - 2] == cs[|cs| - 1];
      OffsetShift(|cs| - 2, size);
    }
  }

  /** One more batch in front moves the offset by one batch. */
  lemma OffsetShift(k: nat, size: nat)
    ensures Offset(k + 1, size) == size + Offset(k, size)
  {
  }

  /** Past the first batch, batch `k` is batch `k - 1` of the rest of the
      list. */
  lemma ChunkStep<T>(xs: seq<T>, size: nat, k: nat)
    requires size > 0 && 0 < k < |Chunks(xs, size)|
    ensures |xs| > size
    ensures k - 1 < |Chunks(xs[size..], size)|
    ensures Chunks(xs, size)[k] == Chunks(xs[size..], size)[k - 1]
  {
  }

  /** The first batch is the first `size` items, or all of them. */
  lemma ChunkFirst<T>(xs: seq<T>, size: nat)
    requires size > 0 && xs != []
    ensures Chunks(xs, size)[0] == Slice(xs, 0, size)
  {
  }

  /** Slicing after dropping a prefix of `size` is slicing `size` further on. */
  lemma SliceShift<T>(xs: seq<T>, size: nat, lo: nat)
    requires size <= |xs| && lo <= |xs| - size
    ensures Slice(xs[size..], lo, size) == Slice(xs, lo + size, size)
  {
  }

  lemma {:induction false} ChunkAtOffset<T>(xs: seq<T>, size: nat, k: nat)
    requires size > 0
    requires k < |Chunks(xs, size)|
    ensures Offset(k, size) < |xs|
    ensures Chunks(xs, size)[k] == Slice(xs, Offset(k, size), size)
    decreases |xs|
  {
    if k == 0 {
      ChunkFirst(xs, size);
    } else {
      ChunkStep(xs, size, k);
      ChunkAtOffset(xs[size..], size, k - 1);
      SliceShift(xs, size, Offset(k - 1, size));
    }
  }

  /** Batch `k` is the slice the source's loop takes at `i == k * size`. */
  lemma ChunkIsSlice<T>(xs: seq<T>, size: nat, k: nat)
    requires size > 0
    requires k < |Chunks(xs, size)|
    ensures k * size < |xs|
    ensures Chunks(xs, size)[k] == Slice(xs, k * size, size)
  {
    ChunkAtOffset(xs, size, k);
    OffsetIsProduct(k, size);
  }
}
