/** The client of the datagram variant: its two transfer loops. */
module ClientUdp {
  import opened ByteStrings
  import opened Chunking
  import opened Codec
  import opened Wrappers
  import opened StopAndWait

  /** `send_file`: upload `data` to the server at `server`, one chunk per ACK. */
  method SendFile(data: Bytes, server: Addr, script: seq<Event>) returns (trace: seq<Io>, outcome: Outcome)
    ensures Run(trace, outcome) == SendRun(Client, data, server, script)
  {
    trace := [Send(LenMessage(|data|), server)];
    if |data| == 0 {
      outcome := Aborted(EmptyPayload);
      return;
    }
    var chunks := Split(data, ChunkSize);
    var i := 0;
    while i < |chunks|
      invariant i <= |chunks| && i <= |script|
      invariant SendRun(Client, data, server, script) == Prepend(trace, AckLoop(Client, chunks, i, server, script[i..]))
    {
      if i == |script| {
        trace := trace + [Send(chunks[i], server)];
        outcome := Stalled;
        return;
      }
      match script[i] {
        case Timeout =>
          trace := trace + [Send(chunks[i], server), TimedOut];
          outcome := Aborted(AckTimeout(i));
          return;
        case Datagram(ack, src) =>
          AckLoopRecv(Client, chunks, i, server, script[i..], ack, src);
          assert script[i..][1..] == script[i + 1..];
          PrependTwice(trace, [Send(chunks[i], server), Recv(Take(ack, ControlBuf), src)],
                       AckLoop(Client, chunks, i + 1, server, script[i + 1..]));
          trace := trace + [Send(chunks[i], server), Recv(Take(ack, ControlBuf), src)];
      }
      i := i + 1;
    }
    assert SendRun(Client, data, server, script) == Prepend(trace, FinWait(Client, script[i..]));
    // the 1 s deadline set before the loop still holds for the FIN read
    if i == |script| {
      outcome := Stalled;
      return;
    }
    match script[i] {
      case Timeout =>
        trace := trace + [TimedOut];
        outcome := Aborted(FinTimeout);
      case Datagram(p, src) =>
        var fin := Take(p, ControlBuf);
        trace := trace + [Recv(fin, src)];
        if fin == Fin {
          if i + 1 == |script| {
            outcome := Stalled;
          } else {
            match script[i + 1] {
              case Timeout =>
                trace := trace + [TimedOut];
                outcome := Aborted(ResponseTimeout);
              case Datagram(response, src') =>
                trace := trace + [Recv(Take(response, ControlBuf), src')];
                outcome := Delivered(true);
            }
          }
        } else {
          outcome := Delivered(false);
        }
    }
  }

  /** `receive_file`: download into `fileName` what the server sends. */
  method ReceiveFile(script: seq<Event>) returns (trace: seq<Io>, outcome: Outcome)
    ensures Run(trace, outcome) == ReceiveRun(Client, script)
  {
    // the LEN read has no deadline: seconds of silence pass unseen
    var j := 0;
    while j < |script| && script[j].Timeout?
      invariant j <= |script|
      invariant forall m :: 0 <= m < j ==> script[m].Timeout?
    {
      j := j + 1;
    }
    assert j == FirstDatagram(script) by { FirstDatagramUnique(script, j); }
    if j == |script| {
      trace, outcome := [], Stalled;
      return;
    }
    var lenMsg := Take(script[j].payload, ControlBuf);
    var addr := script[j].src;
    trace := [Recv(lenMsg, addr)];
    var n;
    match ParseLenMessage(lenMsg) {
      case Err(e) =>
        outcome := Aborted(LenRejected(e));
        return;
      case Ok(v) =>
        n := v;
    }
    var more;
    more, outcome := ReadChunks(n, addr, script[j + 1..]);
    trace := trace + more;
  }

  /** The chunk phase of `receive_file` once `LEN:<n>` is accepted: the first chunk
      whatever `n` is, then `range(1, num_chunks)` more, each ACKed to its sender,
      then `FIN` to the latest sender. */
  method ReadChunks(n: int, server: Addr, script: seq<Event>) returns (trace: seq<Io>, outcome: Outcome)
    ensures Run(trace, outcome) == ChunkLoop(Client, Reads(n), 0, server, [], script)
  {
    var numChunks := NumChunks(n, ChunkSize);
    var chunks: seq<Bytes> := [];
    var addr := server;
    trace := [];
    // the first chunk is read whatever the declared length
    if script == [] {
      outcome := Stalled;
      return;
    }
    match script[0] {
      case Timeout =>
        trace := [TimedOut];
        outcome := Aborted(NoData);
        return;
      case Datagram(p, src) =>
        var c := Take(p, ChunkBuf);
        ChunkLoopRecv(Client, Reads(n), 0, addr, chunks, script, p, src);
        assert chunks + [c] == [c];
        chunks := [c];
        addr := src;
        trace := [Recv(c, src), Send(Ack, src)];
    }
    var i := 1;
    while i < numChunks
      invariant 1 <= i <= Reads(n) && i <= |script|
      invariant ChunkLoop(Client, Reads(n), 0, server, [], script) == Prepend(trace, ChunkLoop(Client, Reads(n), i, addr, chunks, script[i..]))
    {
      if i == |script| {
        outcome := Stalled;
        return;
      }
      match script[i] {
        case Timeout =>
          trace := trace + [TimedOut];
          outcome := Aborted(Interrupted(i));
          return;
        case Datagram(p, src) =>
          var c := Take(p, ChunkBuf);
          ChunkLoopRecv(Client, Reads(n), i, addr, chunks, script[i..], p, src);
          assert script[i..][1..] == script[i + 1..];
          PrependTwice(trace, [Recv(c, src), Send(Ack, src)], ChunkLoop(Client, Reads(n), i + 1, src, chunks + [c], script[i + 1..]));
          chunks := chunks + [c];
          addr := src;
          trace := trace + [Recv(c, src), Send(Ack, src)];
      }
      i := i + 1;
    }
    trace := trace + [Send(Fin, addr)];
    outcome := Saved(Concat(chunks));
  }
}
