/** Splitting a payload into fixed-size slices and putting received slices back together. */
module Chunking {
  import opened ByteStrings

  /** Bytes per datagram chunk of the stop-and-wait transfer. */
  const ChunkSize: nat := 1000

  /** `(n + size - 1) // size`. Python's `//` floors, and so does Dafny's `/` for a
      positive divisor, so this agrees with the source for negative `n` too. For
      `n > 0` it is the ceiling of `n / size`. */
  function NumChunks(n: int, size: nat): (k: int)
    requires size > 0
    ensures n > 0 ==> k >= 1 && (k - 1) * size < n <= k * size
    ensures n <= 0 ==> k <= 0
  {
    var k := (n + size - 1) / size;
    var r := (n + size - 1) % size;
    assert n + size - 1 == k * size + r && 0 <= r < size;
    assert n > 0 ==> k * size > 0;
    k
  }

  /** The comprehension `[data[i*size:(i+1)*size] for i in range(num_chunks)]`. */
  function Split(data: Bytes, size: nat): (chunks: seq<Bytes>)
    requires size > 0
    ensures |chunks| == if |data| == 0 then 0 else NumChunks(|data|, size)
  {
    var k := NumChunks(|data|, size);
    seq(if k < 0 then 0 else k, i requires 0 <= i => Slice(data, i * size, (i + 1) * size))
  }

  /** The chunks written one after another, in the order given. */
  function Concat(chunks: seq<Bytes>): Bytes
  {
    if chunks == [] then [] else Concat(chunks[..|chunks| - 1]) + chunks[|chunks| - 1]
  }

  lemma ConcatAppend(chunks: seq<Bytes>, c: Bytes)
    ensures Concat(chunks + [c]) == Concat(chunks) + c
  {
    assert (chunks + [c])[..|chunks|] == chunks;
  }

  /** Reading one more piece extends what the first `i` pieces concatenate to. */
  lemma ConcatPrefixStep(pieces: seq<Bytes>, i: nat)
    requires i < |pieces|
    ensures Concat(pieces[..i + 1]) == Concat(pieces[..i]) + pieces[i]
  {
    assert pieces[..i + 1] == pieces[..i] + [pieces[i]];
    ConcatAppend(pieces[..i], pieces[i]);
  }

  /** `a * size` grows with `a`. */
  lemma MulMono(a: int, b: int, size: nat)
    requires a <= b
    ensures a * size <= b * size
  {
    assert b * size - a * size == (b - a) * size;
  }

  lemma MulSucc(a: int, size: nat)
    ensures (a + 1) * size == a * size + size
  {
  }

  /** Every slice but the last is full, the last holds the remaining 1..size bytes,
      and there are exactly ceil(n / size) of them. */
  lemma SplitShape(data: Bytes, size: nat)
    requires size > 0 && |data| > 0
    ensures var chunks := Split(data, size);
      && |chunks| == NumChunks(|data|, size)
      && (forall i :: 0 <= i < |chunks| - 1 ==> |chunks[i]| == size)
      && 0 < |chunks[|chunks| - 1]| <= size
      && |chunks[|chunks| - 1]| == |data| - (|chunks| - 1) * size
  {
    var chunks := Split(data, size);
    var k := |chunks|;
    assert (k - 1) * size < |data| <= k * size;
    forall i | 0 <= i < k - 1 ensures |chunks[i]| == size {
      SliceLength(data, size, i);
      MulMono(i + 1, k - 1, size);
    }
    SliceLength(data, size, k - 1);
    MulSucc(k - 1, size);
  }

  /** Slice `i` runs from byte `i * size` to the next boundary or the end of the data. */
  lemma SliceLength(data: Bytes, size: nat, i: nat)
    requires size > 0 && i < |Split(data, size)|
    ensures i * size < |data| && (i + 1) * size == i * size + size
    ensures |Split(data, size)[i]| == Min((i + 1) * size, |data|) - i * size
  {
    var k := |Split(data, size)|;
    MulMono(i, k - 1, size);
    MulSucc(i, size);
  }

  /** Chunk `j` starts inside the payload at byte `j * size`. */
  lemma ChunkAt(data: Bytes, size: nat, j: nat)
    requires size > 0 && j < |Split(data, size)|
    ensures 0 <= j * size < |data| && (j + 1) * size == j * size + size
    ensures Split(data, size)[j] == data[j * size..Min(j * size + size, |data|)]
  {
    var k := |Split(data, size)|;
    assert (k - 1) * size < |data|;
    MulMono(0, j, size);
    MulMono(j, k - 1, size);
    MulSucc(j, size);
  }

  /** One more chunk that continues the payload extends the concatenated prefix. */
  lemma ConcatStep(data: Bytes, chunks: seq<Bytes>, i: nat, lo: nat, hi: nat)
    requires 1 <= i <= |chunks| && lo <= hi <= |data|
    requires Concat(chunks[..i - 1]) == data[..lo] && chunks[i - 1] == data[lo..hi]
    ensures Concat(chunks[..i]) == data[..hi]
  {
    assert chunks[..i] == chunks[..i - 1] + [chunks[i - 1]];
    ConcatAppend(chunks[..i - 1], chunks[i - 1]);
    assert data[..lo] + data[lo..hi] == data[..hi];
  }

  /** The first `i` chunks concatenate to the first `min(i * size, n)` bytes. */
  lemma {:induction false} ConcatSplitPrefix(data: Bytes, size: nat, i: nat)
    requires size > 0 && i <= |Split(data, size)|
    ensures Concat(Split(data, size)[..i]) == data[..Min(i * size, |data|)]
  {
    var chunks := Split(data, size);
    if i == 0 {
      assert chunks[..0] == [];
    } else {
      ConcatSplitPrefix(data, size, i - 1);
      ChunkAt(data, size, i - 1);
      var lo := (i - 1) * size;
      ConcatStep(data, chunks, i, lo, Min(lo + size, |data|));
    }
  }

  /** Round trip: concatenating the chunks in order gives the payload back. */
  lemma SplitConcat(data: Bytes, size: nat)
    requires size > 0
    ensures Concat(Split(data, size)) == data
  {
    var chunks := Split(data, size);
    ConcatSplitPrefix(data, size, |chunks|);
    assert chunks[..|chunks|] == chunks;
    if |data| > 0 {
      assert |data| <= |chunks| * size;
    }
  }

  lemma {:induction false} FullPiecesLength(pieces: seq<Bytes>, size: nat)
    requires forall j :: 0 <= j < |pieces| ==> |pieces[j]| == size
    ensures |Concat(pieces)| == |pieces| * size
  {
    if pieces != [] {
      FullPiecesLength(pieces[..|pieces| - 1], size);
      MulSucc(|pieces| - 1, size);
    }
  }

  /** `NumChunks` is the one `k` with `(k - 1) * size < n <= k * size`. */
  lemma NumChunksOf(n: int, size: nat, k: int)
    requires size > 0 && (k - 1) * size < n <= k * size
    ensures NumChunks(n, size) == k
  {
    var x := n + size - 1;
    var q := x / size;
    assert x == q * size + x % size;
    MulSucc(k - 1, size);
    MulSucc(q, size);
    if q < k {
      MulMono(q + 1, k, size);
    } else if q > k {
      MulMono(k + 1, q, size);
      MulSucc(k, size);
    }
  }

  /** A payload cut into pieces of at most `size` bytes, all but the last full, is
      cut exactly as `Split` cuts it. */
  lemma {:induction false} SplitUnique(data: Bytes, size: nat, pieces: seq<Bytes>)
    requires size > 0
    requires Concat(pieces) == data
    requires forall j :: 0 <= j < |pieces| ==> 0 < |pieces[j]| <= size
    requires forall j :: 0 <= j < |pieces| - 1 ==> |pieces[j]| == size
    ensures pieces == Split(data, size)
  {
    if pieces != [] {
      var m := |pieces| - 1;
      var init := pieces[..m];
      FullPiecesLength(init, size);
      assert data == Concat(init) + pieces[m];
      MulSucc(m, size);
      NumChunksOf(|data|, size, m + 1);
      var chunks := Split(data, size);
      forall i | 0 <= i <= m ensures chunks[i] == pieces[i] {
        PieceAt(init, size, pieces[m], i);
      }
    }
  }

  /** In a concatenation whose first pieces are full, piece `i` starts at `i * size`. */
  lemma {:induction false} PieceAt(init: seq<Bytes>, size: nat, last: Bytes, i: nat)
    requires size > 0 && 0 < |last| <= size && i <= |init|
    requires forall j :: 0 <= j < |init| ==> |init[j]| == size
    ensures var data := Concat(init + [last]);
      (init + [last])[i] == Slice(data, i * size, (i + 1) * size)
    decreases |init|
  {
    if i == |init| {
      LastPieceAt(init, size, last);
    } else {
      var m := |init| - 1;
      var pre := init[..m];
      assert init == pre + [init[m]];
      PieceAt(pre, size, init[m], i);
      FullPiecesLength(init, size);
      MulSucc(i, size);
      MulMono(i + 1, |init|, size);
      ConcatAppend(init, last);
      SlicePrefix(Concat(init), last, i * size, (i + 1) * size);
      assert (init + [last])[i] == init[i];
    }
  }

  /** After full pieces, the last piece is what remains from `|init| * size` on. */
  lemma LastPieceAt(init: seq<Bytes>, size: nat, last: Bytes)
    requires size > 0 && 0 < |last| <= size
    requires forall j :: 0 <= j < |init| ==> |init[j]| == size
    ensures var data := Concat(init + [last]);
      (init + [last])[|init|] == Slice(data, |init| * size, (|init| + 1) * size)
  {
    var data := Concat(init + [last]);
    ConcatAppend(init, last);
    FullPiecesLength(init, size);
    MulSucc(|init|, size);
    assert data[|init| * size..|data|] == last;
  }

  /** A slice that ends within the first part of a concatenation is a slice of that part. */
  lemma SlicePrefix(a: Bytes, b: Bytes, lo: nat, hi: nat)
    requires lo <= hi <= |a|
    ensures Slice(a + b, lo, hi) == Slice(a, lo, hi)
  {
    assert (a + b)[lo..hi] == a[lo..hi];
  }

  /** 2500 bytes travel as 1000, 1000 and 500 bytes. */
  lemma SplitOf2500(data: Bytes)
    requires |data| == 2500
    ensures var chunks := Split(data, ChunkSize);
      |chunks| == 3 && |chunks[0]| == 1000 && |chunks[1]| == 1000 && |chunks[2]| == 500
  {
    SplitShape(data, ChunkSize);
  }
}
