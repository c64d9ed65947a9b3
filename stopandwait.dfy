/** The stop-and-wait transfer over datagrams, as the state machines both UDP peers
    run: the sender (`send_file`) and the receiver (`receive_file`). A peer's socket
    is replaced by a script of what arrives, and a peer's run is the trace of what
    it sent and received together with how it ended. */
module StopAndWait {
  import opened ByteStrings
  import opened Wrappers
  import opened Chunking
  import opened Codec

  /** A UDP address `(host, port)`. */
  datatype Addr = Addr(host: string, port: int)

  /** What a read on the socket sees next: a datagram and where it came from, or a
      second without any datagram. */
  datatype Event = Datagram(payload: Bytes, src: Addr) | Timeout

  /** One step of a peer's socket activity. */
  datatype Io = Send(payload: Bytes, dst: Addr) | Recv(payload: Bytes, src: Addr) | TimedOut

  /** Why a transfer ends early; in the source each is a `sys.exit(1)` or an uncaught
      `socket.timeout`. */
  datatype Failure =
    | EmptyPayload               // the sender's file is empty (after it sent `LEN:0`)
    | LenRejected(why: LenError) // the receiver refuses the `LEN:` datagram
    | NoData                     // the receiver times out on the first chunk
    | Interrupted(chunk: nat)    // the receiver times out on a later chunk
    | AckTimeout(chunk: nat)     // the sender times out waiting for the ACK of a chunk
    | FinTimeout                 // the sender times out waiting for FIN
    | ResponseTimeout            // the client sender times out waiting for the server's reply
    | FileUnreadable             // the file to send cannot be opened

  /** How a peer's run ends. `Delivered(closed)`: the sender got a datagram after the
      last ACK, and `closed` says whether it was `FIN` (only then is the socket closed).
      `Saved(file)`: the receiver writes `file`. `Stalled`: the script ended while the
      peer was still waiting. */
  datatype Outcome = Delivered(closed: bool) | Saved(file: Bytes) | Aborted(why: Failure) | Stalled

  datatype Run = Run(trace: seq<Io>, outcome: Outcome)

  /** Which program runs the peer: the two differ in small ways, noted where they do. */
  datatype Side = Client | Server

  /** `recvfrom(1024)` for control messages, `recvfrom(1000)` for chunks. */
  const ControlBuf: nat := 1024
  const ChunkBuf: nat := 1000

  const Uploaded: Bytes := [70, 105, 108, 101, 32, 117, 112, 108, 111, 97, 100, 101, 100, 46]  // File uploaded.

  function Prepend(t: seq<Io>, r: Run): Run
  {
    Run(t + r.trace, r.outcome)
  }

  // ---------------------------------------------------------------- sender

  /** The sender: `LEN:<n>` first, even for an empty file, then one chunk per ACK. */
  function SendRun(side: Side, data: Bytes, dst: Addr, script: seq<Event>): (r: Run)
    ensures |r.trace| >= 1 && r.trace[0] == Send(LenMessage(|data|), dst)
    ensures |data| == 0 ==> |r.trace| == 1 && r.outcome == Aborted(EmptyPayload)
  {
    var len := [Send(LenMessage(|data|), dst)];
    if |data| == 0 then Run(len, Aborted(EmptyPayload))
    else Prepend(len, AckLoop(side, Split(data, ChunkSize), 0, dst, script))
  }

  /** Chunk `i` goes to `dst`; then one read with the 1 s deadline, and whatever
      datagram arrives counts as its ACK. The server takes the ACK's source as the
      address for the next chunk; the client keeps sending to the same address. */
  function AckLoop(side: Side, chunks: seq<Bytes>, i: nat, dst: Addr, script: seq<Event>): Run
    requires i <= |chunks|
    decreases |chunks| - i
  {
    if i == |chunks| then FinWait(side, script)
    else
      var out := Send(chunks[i], dst);
      if script == [] then Run([out], Stalled)
      else match script[0]
        case Timeout => Run([out, TimedOut], Aborted(AckTimeout(i)))
        case Datagram(p, src) =>
          Prepend([out, Recv(Take(p, ControlBuf), src)],
                  AckLoop(side, chunks, i + 1, if side == Server then src else dst, script[1..]))
  }

  /** After the last ACK: one more read, still under the 1 s deadline. `FIN` closes the
      socket (the client first reads the server's reply); anything else is reported
      and the sender returns with the socket open. */
  function FinWait(side: Side, script: seq<Event>): Run
  {
    if script == [] then Run([], Stalled)
    else match script[0]
      case Timeout => Run([TimedOut], Aborted(FinTimeout))
      case Datagram(p, src) =>
        var fin := Take(p, ControlBuf);
        if fin != Fin then Run([Recv(fin, src)], Delivered(false))
        else if side == Server then Run([Recv(fin, src)], Delivered(true))
        else if |script| == 1 then Run([Recv(fin, src)], Stalled)
        else match script[1]
          case Timeout => Run([Recv(fin, src), TimedOut], Aborted(ResponseTimeout))
          case Datagram(q, src') => Run([Recv(fin, src), Recv(Take(q, ControlBuf), src')], Delivered(true))
  }

  // -------------------------------------------------------------- receiver

  /** Index of the first datagram: a read without deadline lets seconds of silence pass. */
  function FirstDatagram(script: seq<Event>): (j: nat)
    ensures j <= |script|
    ensures forall m :: 0 <= m < j ==> script[m].Timeout?
    ensures j < |script| ==> script[j].Datagram?
  {
    if script == [] || script[0].Datagram? then 0 else 1 + FirstDatagram(script[1..])
  }

  lemma FirstDatagramUnique(script: seq<Event>, j: nat)
    requires j <= |script|
    requires forall m :: 0 <= m < j ==> script[m].Timeout?
    requires j < |script| ==> script[j].Datagram?
    ensures j == FirstDatagram(script)
  {
  }

  /** Chunk reads for a declared length `n`: one read unconditionally, then
      `range(1, num_chunks)` more. */
  function Reads(n: int): nat
  {
    var k := NumChunks(n, ChunkSize);
    if k <= 1 then 1 else k
  }

  /** The receiver: wait (no deadline) for `LEN:<n>`, check it, then read the chunks. */
  function ReceiveRun(side: Side, script: seq<Event>): (r: Run)
    ensures FirstDatagram(script) == |script| ==> r == Run([], Stalled)
    ensures var j := FirstDatagram(script);
      j < |script| ==> |r.trace| >= 1 && r.trace[0] == Recv(Take(script[j].payload, ControlBuf), script[j].src)
  {
    var j := FirstDatagram(script);
    if j == |script| then Run([], Stalled)
    else
      var p := Take(script[j].payload, ControlBuf);
      var src := script[j].src;
      match ParseLenMessage(p)
        case Err(e) => Run([Recv(p, src)], Aborted(LenRejected(e)))
        case Ok(n) => Prepend([Recv(p, src)], ChunkLoop(side, Reads(n), 0, src, [], script[j + 1..]))
  }

  /** Read chunk `i` under the 1 s deadline, keep its first 1000 bytes, and ACK it to
      the address it came from. After the last one, FIN goes to the latest address
      (the server also sends `File uploaded.`) and the chunks are written in order. */
  function ChunkLoop(side: Side, total: nat, i: nat, addr: Addr, chunks: seq<Bytes>, script: seq<Event>): Run
    requires i <= total
    decreases total - i
  {
    if i == total then Run(FinSends(side, addr), Saved(Concat(chunks)))
    else if script == [] then Run([], Stalled)
    else match script[0]
      case Timeout => Run([TimedOut], Aborted(if i == 0 then NoData else Interrupted(i)))
      case Datagram(p, src) =>
        var c := Take(p, ChunkBuf);
        Prepend([Recv(c, src), Send(Ack, src)], ChunkLoop(side, total, i + 1, src, chunks + [c], script[1..]))
  }

  /** A run prefixed twice is the run prefixed with both traces in order. */
  lemma PrependTwice(t: seq<Io>, u: seq<Io>, r: Run)
    ensures Prepend(t, Prepend(u, r)) == Prepend(t + u, r)
  {
    assert t + (u + r.trace) == (t + u) + r.trace;
  }

  /** A chunk read in the loop: its first `ChunkBuf` bytes are kept and ACKed to its
      sender, and the loop goes on with the next read. */
  lemma ChunkLoopRecv(side: Side, total: nat, i: nat, addr: Addr, chunks: seq<Bytes>,
                      script: seq<Event>, p: Bytes, src: Addr)
    requires i < total && script != [] && script[0] == Datagram(p, src)
    ensures var c := Take(p, ChunkBuf);
      ChunkLoop(side, total, i, addr, chunks, script)
        == Prepend([Recv(c, src), Send(Ack, src)], ChunkLoop(side, total, i + 1, src, chunks + [c], script[1..]))
  {
  }

  /** An ACK read in the loop: the next chunk goes to the address the side's rule picks. */
  lemma AckLoopRecv(side: Side, chunks: seq<Bytes>, i: nat, dst: Addr, script: seq<Event>, p: Bytes, src: Addr)
    requires i < |chunks| && script != [] && script[0] == Datagram(p, src)
    ensures AckLoop(side, chunks, i, dst, script)
      == Prepend([Send(chunks[i], dst), Recv(Take(p, ControlBuf), src)],
                 AckLoop(side, chunks, i + 1, if side == Server then src else dst, script[1..]))
  {
  }

  function FinSends(side: Side, addr: Addr): seq<Io>
  {
    [Send(Fin, addr)] + if side == Server then [Send(Uploaded, addr)] else []
  }
}
