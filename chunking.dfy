/**
 `chunk_list`: consecutive slices of `n` items, the last one shorter when the
 count is not a multiple of `n`. The UI lays out store names two per row with it.
 */
module Chunking {
  datatype Option<T> = None | Some(value: T)

  function Concat<T>(chunks: seq<seq<T>>): seq<T> {
    if chunks == [] then [] else chunks[0] + Concat(chunks[1..])
  }

  /** Chunks of exactly `n` items, except for a shorter, non-empty last one. */
  function Chunks<T>(items: seq<T>, n: nat): (r: seq<seq<T>>)
    requires n > 0
    ensures forall i :: 0 <= i < |r| ==> 0 < |r[i]| <= n
    ensures forall i :: 0 <= i < |r| - 1 ==> |r[i]| == n
    decreases |items|
  {
    if items == [] then []
    else if |items| <= n then [items]
    else [items[..n]] + Chunks(items[n..], n)
  }

  /** `range(0, len(items), n)` raises for a zero step and is empty for a
      negative one, so `None` stands for the error and a negative size gives
      no chunks. */
  function ChunkList<T>(items: seq<T>, n: int): (r: Option<seq<seq<T>>>)
    ensures r.None? <==> n == 0
    ensures n < 0 ==> r == Some([])
    ensures n > 0 ==> r == Some(Chunks(items, n))
  {
    if n == 0 then None
    else if n < 0 then Some([])
    else Some(Chunks(items, n))
  }

  /** Putting the chunks back together gives the items. */
  lemma {:induction false} ChunksConcat<T>(items: seq<T>, n: nat)
    requires n > 0
    ensures Concat(Chunks(items, n)) == items
    decreases |items|
  {
    if items != [] && |items| > n {
      ChunksConcat(items[n..], n);
      assert items == items[..n] + items[n..];
    }
  }

  /** There are ceil(|items| / n) chunks: the least count whose `n`-fold covers the items. */
  lemma {:induction false} ChunksCount<T>(items: seq<T>, n: nat)
    requires n > 0
    ensures |items| <= |Chunks(items, n)| * n < |items| + n
    decreases |items|
  {
    if |items| > n {
      var k := |Chunks(items[n..], n)|;
      ChunksCount(items[n..], n);
      assert |Chunks(items, n)| * n == (1 + k) * n == n + k * n;
    }
  }

  /** Chunk `i` is the slice `items[i*n : i*n + n]`, cut short at the end. */
  lemma {:induction false} ChunkIsSlice<T>(items: seq<T>, n: nat, i: nat)
    requires n > 0 && i < |Chunks(items, n)|
    ensures i * n < |items|
    ensures Chunks(items, n)[i] ==
      items[i * n..if i * n + n <= |items| then i * n + n else |items|]
    decreases |items|
  {
    if i > 0 {
      var rest := items[n..];
      ChunkIsSlice(rest, n, i - 1);
      MulStep(i, n);
      var a := (i - 1) * n;
      var e := if a + n <= |rest| then a + n else |rest|;
      assert i * n == n + a;
      assert (if i * n + n <= |items| then i * n + n else |items|) == n + e;
      SliceOfDrop(items, n, a, e);
    }
  }

  lemma MulStep(i: nat, n: nat)
    requires i > 0
    ensures (i - 1) * n + n == i * n
  {
  }

  lemma SliceOfDrop<T>(items: seq<T>, n: nat, a: nat, e: nat)
    requires n <= |items| && a <= e <= |items| - n
    ensures items[n..][a..e] == items[n + a..n + e]
  {
  }
}
