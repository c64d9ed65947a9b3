/** Byte strings: the Python 2 `str` values every peer reads, writes and sends. */
module ByteStrings {

  newtype byte = b: int | 0 <= b < 256

  type Bytes = seq<byte>

  // Text constants are written as displays of their ASCII codes, with the text
  // in a comment beside them.

  const Nul: byte := 0
  const Slash: byte := 47

  function Min(a: int, b: int): int { if a <= b then a else b }

  /** What `recvfrom(bufsize)` / `recv(bufsize)` hands back of a longer datagram:
      its first `bufsize` bytes, the rest being discarded. */
  function Take(p: Bytes, bufsize: nat): (r: Bytes)
    ensures |r| == Min(|p|, bufsize) && r == p[..|r|]
  {
    if |p| <= bufsize then p else p[..bufsize]
  }

  /** Python's slice `s[lo:hi]` for non-negative bounds: both ends are clamped to `len(s)`. */
  function Slice(s: Bytes, lo: nat, hi: nat): (r: Bytes)
    ensures |r| == if lo <= hi && lo <= |s| then Min(hi, |s|) - lo else 0
  {
    var b := Min(hi, |s|);
    if lo <= b then s[lo..b] else []
  }

  /** `os.path.basename`: everything after the last `/` of the path. */
  function Basename(path: Bytes): (r: Bytes)
    ensures Slash !in r
    ensures |r| <= |path| && r == path[|path| - |r|..]
    ensures |r| < |path| ==> path[|path| - |r| - 1] == Slash
  {
    if path == [] then []
    else if path[|path| - 1] == Slash then []
    else Basename(path[..|path| - 1]) + [path[|path| - 1]]
  }
}
