/** The server of the datagram variant: its two transfer loops, the reply to `get`,
    and the naming part of `anon`. */
module ServerUdp {
  import opened ByteStrings
  import opened Chunking
  import opened Codec
  import opened Wrappers
  import opened StopAndWait
  import Anonymize

  /** `receive_file`: take an upload, ACK each chunk to where it came from, then send
      `FIN` and `File uploaded.` and write the file. */
  method ReceiveFile(script: seq<Event>) returns (trace: seq<Io>, outcome: Outcome)
    ensures Run(trace, outcome) == ReceiveRun(Server, script)
  {
    // the server's socket has no deadline while it waits for LEN
    var j := 0;
    while j < |script| && script[j].Timeout?
      invariant j <= |script|
      invariant forall m :: 0 <= m < j ==> script[m].Timeout?
    {
      j := j + 1;
    }
    FirstDatagramUnique(script, j);
    if j == |script| {
      trace, outcome := [], Stalled;
      return;
    }
    var lenMsg := Take(script[j].payload, ControlBuf);
    var clientAddress := script[j].src;
    trace := [Recv(lenMsg, clientAddress)];
    var n;
    match ParseLenMessage(lenMsg) {
      case Err(e) =>
        outcome := Aborted(LenRejected(e));
        return;
      case Ok(v) =>
        n := v;
    }
    var more;
    more, outcome := ReadChunks(n, clientAddress, script[j + 1..]);
    trace := trace + more;
  }

  /** The chunk phase of `receive_file` once `LEN:<n>` is accepted: the first chunk
      whatever `n` is, then `range(1, num_chunks)` more, each ACKed to its sender,
      then `FIN` and `File uploaded.` to the latest sender. */
  method ReadChunks(n: int, client: Addr, script: seq<Event>) returns (trace: seq<Io>, outcome: Outcome)
    ensures Run(trace, outcome) == ChunkLoop(Server, Reads(n), 0, client, [], script)
  {
    var numChunks := NumChunks(n, ChunkSize);
    var chunks: seq<Bytes> := [];
    var clientAddress := client;
    trace := [];
    if script == [] {
      outcome := Stalled;
      return;
    }
    match script[0] {
      case Timeout =>
        trace := [TimedOut];
        outcome := Aborted(NoData);
        return;
      case Datagram(p, src) =>
        var c := Take(p, ChunkBuf);
        ChunkLoopRecv(Server, Reads(n), 0, clientAddress, chunks, script, p, src);
        assert chunks + [c] == [c];
        chunks := [c];
        clientAddress := src;
        trace := [Recv(c, src), Send(Ack, src)];
    }
    var i := 1;
    while i < numChunks
      invariant 1 <= i <= Reads(n) && i <= |script|
      invariant ChunkLoop(Server, Reads(n), 0, client, [], script) == Prepend(trace, ChunkLoop(Server, Reads(n), i, clientAddress, chunks, script[i..]))
    {
      if i == |script| {
        outcome := Stalled;
        return;
      }
      match script[i] {
        case Timeout =>
          trace := trace + [TimedOut];
          outcome := Aborted(Interrupted(i));
          return;
        case Datagram(p, src) =>
          var c := Take(p, ChunkBuf);
          ChunkLoopRecv(Server, Reads(n), i, clientAddress, chunks, script[i..], p, src);
          assert script[i..][1..] == script[i + 1..];
          PrependTwice(trace, [Recv(c, src), Send(Ack, src)], ChunkLoop(Server, Reads(n), i + 1, src, chunks + [c], script[i + 1..]));
          chunks := chunks + [c];
          clientAddress := src;
          trace := trace + [Recv(c, src), Send(Ack, src)];
      }
      i := i + 1;
    }
    trace := trace + [Send(Fin, clientAddress), Send(Uploaded, clientAddress)];
    outcome := Saved(Concat(chunks));
  }

  /** `send_file`: serve a download, taking the address for each next chunk from the
      ACK just received. */
  method SendFile(data: Bytes, client: Addr, script: seq<Event>) returns (trace: seq<Io>, outcome: Outcome)
    ensures Run(trace, outcome) == SendRun(Server, data, client, script)
  {
    var clientAddress := client;
    trace := [Send(LenMessage(|data|), clientAddress)];
    if |data| == 0 {
      outcome := Aborted(EmptyPayload);
      return;
    }
    var chunks := Split(data, ChunkSize);
    var i := 0;
    while i < |chunks|
      invariant i <= |chunks| && i <= |script|
      invariant SendRun(Server, data, client, script) == Prepend(trace, AckLoop(Server, chunks, i, clientAddress, script[i..]))
    {
      if i == |script| {
        trace := trace + [Send(chunks[i], clientAddress)];
        outcome := Stalled;
        return;
      }
      match script[i] {
        case Timeout =>
          trace := trace + [Send(chunks[i], clientAddress), TimedOut];
          outcome := Aborted(AckTimeout(i));
          return;
        case Datagram(ack, src) =>
          AckLoopRecv(Server, chunks, i, clientAddress, script[i..], ack, src);
          assert script[i..][1..] == script[i + 1..];
          PrependTwice(trace, [Send(chunks[i], clientAddress), Recv(Take(ack, ControlBuf), src)],
                       AckLoop(Server, chunks, i + 1, src, script[i + 1..]));
          trace := trace + [Send(chunks[i], clientAddress), Recv(Take(ack, ControlBuf), src)];
          clientAddress := src;
      }
      i := i + 1;
    }
    assert SendRun(Server, data, client, script) == Prepend(trace, FinWait(Server, script[i..]));
    if i == |script| {
      outcome := Stalled;
      return;
    }
    match script[i] {
      case Timeout =>
        trace := trace + [TimedOut];
        outcome := Aborted(FinTimeout);
      case Datagram(p, src) =>
        var fin := Take(p, ControlBuf);
        trace := trace + [Recv(fin, src)];
        outcome := Delivered(fin == Fin);
    }
  }

  const TrueReply: Bytes := [84, 114, 117, 101]  // True
  const FalseReply: Bytes := [70, 97, 108, 115, 101]  // False

  /** `str(fileExists)`. */
  function ExistsReply(fileExists: bool): Bytes
  {
    if fileExists then TrueReply else FalseReply
  }

  /** The `get` branch of `main`: reply `True` or `False`, then call `send_file` either
      way; for a missing file its `open` fails and the server exits. */
  function ServeGet(fileExists: bool, data: Bytes, client: Addr, script: seq<Event>): (r: Run)
    ensures |r.trace| >= 1 && r.trace[0] == Send(ExistsReply(fileExists), client)
    ensures r.trace[0].payload == TrueReply <==> fileExists
    ensures !fileExists ==> r == Run([Send(FalseReply, client)], Aborted(FileUnreadable))
    ensures fileExists ==> r.trace[1..] == SendRun(Server, data, client, script).trace
    ensures fileExists ==> r.outcome == SendRun(Server, data, client, script).outcome
  {
    var reply := [Send(ExistsReply(fileExists), client)];
    if fileExists then Prepend(reply, SendRun(Server, data, client, script))
    else Run(reply, Aborted(FileUnreadable))
  }

  /** The pure part of `anon`: the reply and the output name use the base name of the
      path the client sent. */
  function Anon(filePath: Bytes, keyword: Bytes, text: Bytes): (r: Anonymize.Report)
    ensures var name := Basename(filePath);
      |r.outName| == (if |name| >= 4 then |name| - 4 else 0) + |Anonymize.AnonSuffix|
    ensures Slash !in r.outName
    ensures var k := |r.outName| - |Anonymize.AnonSuffix|;
      r.outName[..k] == Basename(filePath)[..k] && r.outName[k..] == Anonymize.AnonSuffix
    ensures r.outText == Anonymize.Anonymized(text, keyword)
    ensures r.reply == Anonymize.Reply(Basename(filePath), r.outName)
  {
    var name := Basename(filePath);
    SlashNotInSuffix();
    Anonymize.AnonFileNameAvoids(name, Slash);
    Anonymize.Anon(name, keyword, text)
  }

  lemma SlashNotInSuffix()
    ensures Slash !in Anonymize.AnonSuffix
  {
  }

  /** For `dir/<stem>.txt` the output is `<stem>_anon.txt` in the working directory,
      the reply names `<stem>.txt` and `<stem>_anon.txt`, and the text keeps its length. */
  lemma AnonOfTxtPath(dir: Bytes, stem: Bytes, keyword: Bytes, text: Bytes)
    requires Slash !in stem
    ensures var r := Anon(dir + [Slash] + stem + Anonymize.TxtSuffix, keyword, text);
      && r.outName == stem + Anonymize.AnonSuffix
      && r.reply == Anonymize.ReplyHead + stem + Anonymize.TxtSuffix + Anonymize.ReplyMiddle + stem + Anonymize.AnonSuffix
      && |r.outText| == |text|
  {
    var name := stem + Anonymize.TxtSuffix;
    assert dir + [Slash] + stem + Anonymize.TxtSuffix == dir + [Slash] + name;
    BasenameAfterSlash(dir, name);
    Anonymize.AnonOfTxt(stem, keyword, text);
  }

  lemma {:induction false} BasenameAfterSlash(dir: Bytes, name: Bytes)
    requires Slash !in name
    ensures Basename(dir + [Slash] + name) == name
  {
    var path := dir + [Slash] + name;
    if name != [] {
      var init := name[..|name| - 1];
      assert Slash !in init by { assert forall b :: b in init ==> b in name; }
      assert path[..|path| - 1] == dir + [Slash] + init;
      assert path[|path| - 1] == name[|name| - 1] != Slash;
      BasenameAfterSlash(dir, init);
      assert init + [name[|name| - 1]] == name;
    }
  }
}
