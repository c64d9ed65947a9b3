/** The byte stream of the TCP variant. Successive `send` calls append to one stream
    with no message boundaries; a `recv(1024)` hands back some of what has arrived,
    at most 1024 bytes. Both programs end a file transfer at the first read shorter
    than 1024 bytes, and mark the end of a name or a keyword with a NUL byte. */
module TcpStream {
  import opened ByteStrings
  import opened Chunking
  import opened Wrappers

  /** `recv(1024)` and `fp.read(1024)`. */
  const Piece: nat := 1024

  // ------------------------------------------------------------- reading files

  /** Index of the first read shorter than a piece, `|received|` if there is none. */
  function FirstShort(received: seq<Bytes>): (q: nat)
    ensures q <= |received|
    ensures forall p :: 0 <= p < q ==> |received[p]| >= Piece
    ensures q < |received| ==> |received[q]| < Piece
  {
    if received == [] || |received[0]| < Piece then 0 else 1 + FirstShort(received[1..])
  }

  /** What the receive loop writes: every read up to and including the first short
      one; `None` when no short read comes (the loop is still waiting). */
  function UntilShort(received: seq<Bytes>): Option<Bytes>
  {
    var q := FirstShort(received);
    if q == |received| then None else Some(Concat(received[..q + 1]))
  }

  /** A stream read as eagerly as the socket allows: each `recv(1024)` returns a full
      piece while there is one, then the rest. */
  function Eager(stream: Bytes): seq<Bytes>
  {
    Split(stream, Piece)
  }

  /** A length that is not a whole number of pieces leaves a short last piece. */
  lemma ShortTail(n: int, k: int)
    requires (k - 1) * Piece < n <= k * Piece
    ensures n % Piece != 0 <==> n < k * Piece
  {
    if n % Piece == 0 {
      var q := n / Piece;
      assert n == q * Piece;
      if q < k {
        MulMono(q, k - 1, Piece);
      } else if q > k {
        MulMono(k + 1, q, Piece);
        MulSucc(k, Piece);
      }
    }
  }

  /** Read eagerly, a stream whose length is not a multiple of 1024 ends in one short
      read and is written whole; otherwise every read is full and the loop waits for
      a read that never comes. */
  lemma UntilShortEager(stream: Bytes)
    ensures UntilShort(Eager(stream)) == if |stream| % Piece != 0 then Some(stream) else None
  {
    if |stream| % Piece != 0 {
      EagerShortEnd(stream);
    } else {
      EagerWholePieces(stream);
    }
  }

  /** A length that is not a whole number of pieces: the last eager read is the only
      short one, and the reader returns the whole stream. */
  lemma EagerShortEnd(stream: Bytes)
    requires |stream| % Piece != 0
    ensures UntilShort(Eager(stream)) == Some(stream)
  {
    var received := Eager(stream);
    EagerLast(stream);
    var k := |received|;
    FirstShortAt(received, k - 1);
    SplitConcat(stream, Piece);
    assert received[..k] == received;
  }

  /** A whole number of pieces: every eager read is full, and the reader never returns. */
  lemma EagerWholePieces(stream: Bytes)
    requires |stream| % Piece == 0
    ensures UntilShort(Eager(stream)) == None
  {
    var received := Eager(stream);
    if |stream| > 0 {
      EagerLast(stream);
    }
    FirstShortNone(received);
  }

  /** Read eagerly, every piece but the last is full, and the last is short exactly
      when the length is not a whole number of pieces. */
  lemma EagerLast(stream: Bytes)
    requires |stream| > 0
    ensures var received := Eager(stream);
      && |received| >= 1
      && (forall p :: 0 <= p < |received| - 1 ==> |received[p]| == Piece)
      && (|received[|received| - 1]| < Piece <==> |stream| % Piece != 0)
      && |received[|received| - 1]| <= Piece
  {
    var received := Eager(stream);
    SplitShape(stream, Piece);
    var k := |received|;
    ShortTail(|stream|, k);
    MulSucc(k - 1, Piece);
  }

  /** Every eager piece holds 1 to 1024 bytes. */
  lemma EagerSizes(stream: Bytes)
    ensures forall q :: 0 <= q < |Eager(stream)| ==> 0 < |Eager(stream)[q]| <= Piece
  {
    if |stream| > 0 {
      SplitShape(stream, Piece);
    }
  }

  /** The eager pieces put back together give the stream. */
  lemma EagerConcat(stream: Bytes)
    ensures Concat(Eager(stream)) == stream
  {
    SplitConcat(stream, Piece);
  }

  lemma {:induction false} FirstShortAt(received: seq<Bytes>, q: nat)
    requires q < |received| && |received[q]| < Piece
    requires forall p :: 0 <= p < q ==> |received[p]| >= Piece
    ensures FirstShort(received) == q
  {
    if q > 0 {
      FirstShortAt(received[1..], q - 1);
    }
  }

  lemma {:induction false} FirstShortNone(received: seq<Bytes>)
    requires forall p :: 0 <= p < |received| ==> |received[p]| >= Piece
    ensures FirstShort(received) == |received|
  {
    if received != [] {
      FirstShortNone(received[1..]);
    }
  }

  /** Piece `i` of the eager cutting, as the send loop's `fp.read(1024)` takes it. */
  lemma EagerPiece(data: Bytes, i: nat)
    requires i * Piece < |data|
    ensures i < |Eager(data)|
    ensures Eager(data)[i] == data[i * Piece..Min(i * Piece + Piece, |data|)]
  {
    var k := |Eager(data)|;
    assert (k - 1) * Piece < |data| <= k * Piece;
    if i >= k {
      MulMono(k, i, Piece);
    }
    MulSucc(i, Piece);
  }

  /** One more turn of the send loop takes the next eager piece. */
  lemma EagerStep(data: Bytes, i: nat)
    requires i * Piece < |data|
    ensures i < |Eager(data)|
    ensures Eager(data)[..i + 1] == Eager(data)[..i] + [data[i * Piece..Min(i * Piece + Piece, |data|)]]
  {
    EagerPiece(data, i);
    assert Eager(data)[..i + 1] == Eager(data)[..i] + [Eager(data)[i]];
  }

  /** The eager cutting has `i` pieces once `i` pieces reach the end of the data. */
  lemma EagerCount(data: Bytes, i: nat)
    requires i * Piece >= |data| && (i == 0 || (i - 1) * Piece < |data|)
    ensures |Eager(data)| == i
  {
    if |data| > 0 {
      NumChunksOf(|data|, Piece, i);
    }
  }

  // ----------------------------------------------- reading up to the end marker

  /** A read that ends a transfer marked with a trailing NUL: a short one, or one
      whose last byte is the NUL. */
  predicate EndsTransfer(piece: Bytes)
  {
    |piece| < Piece || piece[|piece| - 1] == Nul
  }

  /** Index of the first read that ends the transfer, `|received|` if there is none. */
  function FirstEnd(received: seq<Bytes>): (q: nat)
    ensures q <= |received|
    ensures forall p :: 0 <= p < q ==> !EndsTransfer(received[p])
    ensures q < |received| ==> EndsTransfer(received[q])
  {
    if received == [] || EndsTransfer(received[0]) then 0 else 1 + FirstEnd(received[1..])
  }

  /** The end-marker reading of a transfer: every read up to the one that ends it,
      without the marker itself. */
  function UntilMarker(received: seq<Bytes>): Option<Bytes>
  {
    var q := FirstEnd(received);
    if q == |received| then None
    else
      Some(DropMarker(Concat(received[..q + 1])))
  }

  /** What was read, without the NUL that ends it when it ends with one. */
  function DropMarker(file: Bytes): Bytes
  {
    if file != [] && file[|file| - 1] == Nul then file[..|file| - 1] else file
  }

  lemma {:induction false} FirstEndAt(received: seq<Bytes>, q: nat)
    requires q < |received| && EndsTransfer(received[q])
    requires forall p :: 0 <= p < q ==> !EndsTransfer(received[p])
    ensures FirstEnd(received) == q
  {
    if q > 0 {
      FirstEndAt(received[1..], q - 1);
    }
  }

  /** Read eagerly, NUL-free content followed by one NUL ends the transfer only at
      its last read. */
  lemma EagerEndsLast(content: Bytes)
    requires Nul !in content
    ensures |Eager(content + [Nul])| >= 1
    ensures FirstEnd(Eager(content + [Nul])) == |Eager(content + [Nul])| - 1
  {
    var s := content + [Nul];
    var received := Eager(s);
    var k := |received|;
    SplitShape(s, Piece);
    forall p | 0 <= p < k - 1 ensures !EndsTransfer(received[p]) {
      MulMono(p + 1, k - 1, Piece);
      MulSucc(p, Piece);
      EagerPiece(s, p);
      var last := p * Piece + Piece - 1;
      assert received[p][|received[p]| - 1] == s[last];
      assert s[last] == content[last];
    }
    MulSucc(k - 1, Piece);
    EagerPiece(s, k - 1);
    assert received[k - 1][|received[k - 1]| - 1] == s[|s| - 1] == Nul;
    FirstEndAt(received, k - 1);
  }

  /** The first read that ends the transfer decides what the reader returns. */
  lemma UntilMarkerAt(received: seq<Bytes>, q: nat)
    requires q < |received| && EndsTransfer(received[q])
    requires forall p :: 0 <= p < q ==> !EndsTransfer(received[p])
    ensures UntilMarker(received) == Some(DropMarker(Concat(received[..q + 1])))
  {
    FirstEndAt(received, q);
  }

  /** Content without NUL bytes, followed by one NUL and read eagerly, comes back
      exactly, whatever its length. */
  lemma UntilMarkerEager(content: Bytes)
    requires Nul !in content
    ensures UntilMarker(Eager(content + [Nul])) == Some(content)
  {
    var s := content + [Nul];
    var received := Eager(s);
    var k := |received|;
    EagerEndsLast(content);
    UntilMarkerAt(received, k - 1);
    EagerConcat(s);
    assert received[..k] == received;
    assert s[..|s| - 1] == content;
  }

  // ------------------------------------------------------------ NUL-ended fields

  /** The bytes before the first NUL, and what follows that NUL; `None` when the stream
      holds no NUL (the byte-by-byte reader is still waiting). */
  function NulField(stream: Bytes): (r: Option<(Bytes, Bytes)>)
    ensures r.Some? ==> Nul !in r.value.0 && stream == r.value.0 + [Nul] + r.value.1
    ensures r.None? <==> Nul !in stream
  {
    if stream == [] then None
    else if stream[0] == Nul then Some(([], stream[1..]))
    else match NulField(stream[1..])
      case None => None
      case Some((field, rest)) => Some(([stream[0]] + field, rest))
  }

  /** A field written as its bytes and one NUL is read back exactly, whatever follows. */
  lemma {:induction false} NulFieldFraming(field: Bytes, rest: Bytes)
    requires Nul !in field
    ensures NulField(field + [Nul] + rest) == Some((field, rest))
  {
    var s := field + [Nul] + rest;
    if field == [] {
      assert s[1..] == rest;
    } else {
      assert s[1..] == field[1..] + [Nul] + rest;
      assert s[0] == field[0] && field[0] != Nul;
      assert Nul !in field[1..] by {
        assert forall b :: b in field[1..] ==> b in field;
      }
      NulFieldFraming(field[1..], rest);
      assert [field[0]] + field[1..] == field;
    }
  }
}
