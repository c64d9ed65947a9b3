/** What the stop-and-wait state machines promise: the sender never has two chunks
    unacknowledged, a timeout stops it after exactly the chunk that timed out, the
    receiver refuses a bad `LEN:` before any chunk, ACKs every chunk to where it
    came from, and over a channel that loses nothing a sender and a receiver move
    the file exactly. */
module StopAndWaitLaws {
  import opened ByteStrings
  import opened Chunking
  import opened Codec
  import opened Wrappers
  import opened StopAndWait

  // ------------------------------------------------------- trace vocabulary

  /** The payloads a trace sends, in order. */
  function SentPayloads(t: seq<Io>): seq<Bytes>
  {
    if t == [] then [] else (if t[0].Send? then [t[0].payload] else []) + SentPayloads(t[1..])
  }

  /** The payloads a trace receives, in order. */
  function RecvPayloads(t: seq<Io>): seq<Bytes>
  {
    if t == [] then [] else (if t[0].Recv? then [t[0].payload] else []) + RecvPayloads(t[1..])
  }

  /** What the peer at `src` sees of a trace over a channel that loses nothing: each
      datagram sent, in order, coming from `src`. */
  function Deliver(t: seq<Io>, src: Addr): seq<Event>
  {
    if t == [] then [] else (if t[0].Send? then [Datagram(t[0].payload, src)] else []) + Deliver(t[1..], src)
  }

  /** Every datagram of the trace is sent to `a`. */
  predicate SendsTo(t: seq<Io>, a: Addr)
  {
    forall j :: 0 <= j < |t| && t[j].Send? ==> t[j].dst == a
  }

  lemma SendsToAppend(a: seq<Io>, b: seq<Io>, dst: Addr)
    requires SendsTo(a, dst) && SendsTo(b, dst)
    ensures SendsTo(a + b, dst)
  {
    forall j | 0 <= j < |a + b| && (a + b)[j].Send? ensures (a + b)[j].dst == dst {
      if j >= |a| { assert (a + b)[j] == b[j - |a|]; }
    }
  }

  /** The payloads as datagrams from `src`. */
  function Datagrams(ps: seq<Bytes>, src: Addr): seq<Event>
  {
    seq(|ps|, i requires 0 <= i < |ps| => Datagram(ps[i], src))
  }

  function Repeat(p: Bytes, n: nat): seq<Bytes>
  {
    seq(n, _ => p)
  }

  /** Index of the first second of silence in the script, `|script|` if there is none. */
  function FirstTimeout(script: seq<Event>): (m: nat)
    ensures m <= |script|
    ensures forall q :: 0 <= q < m ==> script[q].Datagram?
    ensures m < |script| ==> script[m].Timeout?
  {
    if script == [] || script[0].Timeout? then 0 else 1 + FirstTimeout(script[1..])
  }

  lemma SentPayloadsAppend(a: seq<Io>, b: seq<Io>)
    ensures SentPayloads(a + b) == SentPayloads(a) + SentPayloads(b)
  {
    if a != [] {
      assert (a + b)[0] == a[0] && (a + b)[1..] == a[1..] + b;
      SentPayloadsAppend(a[1..], b);
      var h := if a[0].Send? then [a[0].payload] else [];
      assert SentPayloads(a + b) == h + (SentPayloads(a[1..]) + SentPayloads(b));
      assert h + (SentPayloads(a[1..]) + SentPayloads(b)) == (h + SentPayloads(a[1..])) + SentPayloads(b);
    } else {
      assert a + b == b;
    }
  }

  lemma RecvPayloadsAppend(a: seq<Io>, b: seq<Io>)
    ensures RecvPayloads(a + b) == RecvPayloads(a) + RecvPayloads(b)
  {
    if a != [] {
      assert (a + b)[0] == a[0] && (a + b)[1..] == a[1..] + b;
      RecvPayloadsAppend(a[1..], b);
      var h := if a[0].Recv? then [a[0].payload] else [];
      assert RecvPayloads(a + b) == h + (RecvPayloads(a[1..]) + RecvPayloads(b));
      assert h + (RecvPayloads(a[1..]) + RecvPayloads(b)) == (h + RecvPayloads(a[1..])) + RecvPayloads(b);
    } else {
      assert a + b == b;
    }
  }

  lemma DeliverAppend(a: seq<Io>, b: seq<Io>, src: Addr)
    ensures Deliver(a + b, src) == Deliver(a, src) + Deliver(b, src)
  {
    if a != [] {
      assert (a + b)[0] == a[0] && (a + b)[1..] == a[1..] + b;
      DeliverAppend(a[1..], b, src);
      var h := if a[0].Send? then [Datagram(a[0].payload, src)] else [];
      assert Deliver(a + b, src) == h + (Deliver(a[1..], src) + Deliver(b, src));
      assert h + (Deliver(a[1..], src) + Deliver(b, src)) == (h + Deliver(a[1..], src)) + Deliver(b, src);
    } else {
      assert a + b == b;
    }
  }

  // ---------------------------------------------------------------- sender

  /** Relearning rule of the sender: the client keeps its address, the server takes
      the source of the datagram just received. */
  function NextDst(side: Side, dst: Addr, src: Addr): Addr
  {
    if side == Server then src else dst
  }

  /** One chunk acknowledged: the loop sends it, reads the ACK, and goes on. */
  lemma AckLoopStep(side: Side, chunks: seq<Bytes>, i: nat, dst: Addr, script: seq<Event>)
    requires i < |chunks| && script != [] && script[0].Datagram?
    ensures AckLoop(side, chunks, i, dst, script).trace ==
      [Send(chunks[i], dst), Recv(Take(script[0].payload, ControlBuf), script[0].src)]
      + AckLoop(side, chunks, i + 1, NextDst(side, dst, script[0].src), script[1..]).trace
  {
  }

  /** A chunk not acknowledged: the loop sends it and stops. */
  lemma AckLoopStop(side: Side, chunks: seq<Bytes>, i: nat, dst: Addr, script: seq<Event>)
    requires i < |chunks| && (script == [] || script[0].Timeout?)
    ensures var t := AckLoop(side, chunks, i, dst, script).trace;
      t[0] == Send(chunks[i], dst) && (t == [t[0]] || t == [t[0], TimedOut])
      && SentPayloads(t) == [chunks[i]]
  {
    var t := AckLoop(side, chunks, i, dst, script).trace;
    if |t| == 2 {
      assert t[1..] == [TimedOut] && t[1..][1..] == [];
      assert SentPayloads(t[1..]) == [];
    } else {
      assert t[1..] == [];
    }
  }

  /** Stop-and-wait inside the ACK loop: every send after the first comes right after
      a receive. */
  lemma {:induction false} AckLoopAlternates(side: Side, chunks: seq<Bytes>, i: nat, dst: Addr, script: seq<Event>)
    requires i <= |chunks|
    ensures var t := AckLoop(side, chunks, i, dst, script).trace;
      forall j :: 0 < j < |t| && t[j].Send? ==> t[j - 1].Recv?
    decreases |chunks| - i
  {
    var t := AckLoop(side, chunks, i, dst, script).trace;
    if i == |chunks| {
      FinWaitSendsNothing(side, script);
    } else if script != [] && script[0].Datagram? {
      var next := NextDst(side, dst, script[0].src);
      var rest := AckLoop(side, chunks, i + 1, next, script[1..]).trace;
      AckLoopStep(side, chunks, i, dst, script);
      AckLoopAlternates(side, chunks, i + 1, next, script[1..]);
      forall j | 0 < j < |t| && t[j].Send? ensures t[j - 1].Recv? {
        if j > 2 { assert t[j] == rest[j - 2] && t[j - 1] == rest[j - 3]; }
      }
    } else {
      AckLoopStop(side, chunks, i, dst, script);
    }
  }

  /** The ACK loop against an independent account of the script: it stops at the
      first second of silence among the ACKs it still needs, aborting on that chunk,
      or runs out of script and stalls, or gets every ACK and goes on to the FIN wait. */
  lemma {:induction false} AckLoopOutcome(side: Side, chunks: seq<Bytes>, i: nat, dst: Addr, script: seq<Event>)
    requires i <= |chunks|
    ensures var r := |chunks| - i;
      var m := FirstTimeout(script);
      AckLoop(side, chunks, i, dst, script).outcome ==
        if m < r && m < |script| then Aborted(AckTimeout(i + m))
        else if |script| < r then Stalled
        else FinWait(side, script[r..]).outcome
    decreases |chunks| - i
  {
    if i == |chunks| {
      assert script[0..] == script;
    } else if script != [] && script[0].Datagram? {
      var next := NextDst(side, dst, script[0].src);
      AckLoopStep(side, chunks, i, dst, script);
      AckLoopOutcome(side, chunks, i + 1, next, script[1..]);
      assert FirstTimeout(script) == FirstTimeout(script[1..]) + 1;
      if |chunks| - i <= |script| {
        assert script[1..][|chunks| - i - 1..] == script[|chunks| - i..];
      }
    } else {
      AckLoopStop(side, chunks, i, dst, script);
    }
  }

  /** Whatever happens, the ACK loop has sent the chunks from `i` on, in order, up to
      and including the one whose ACK never came. */
  lemma {:induction false} AckLoopSent(side: Side, chunks: seq<Bytes>, i: nat, dst: Addr, script: seq<Event>)
    requires i <= |chunks|
    ensures var n := Min(FirstTimeout(script) + 1, |chunks| - i);
      SentPayloads(AckLoop(side, chunks, i, dst, script).trace) == chunks[i..i + n]
    decreases |chunks| - i
  {
    if i == |chunks| {
      FinWaitSendsNothing(side, script);
    } else if script != [] && script[0].Datagram? {
      var next := NextDst(side, dst, script[0].src);
      var head := [Send(chunks[i], dst), Recv(Take(script[0].payload, ControlBuf), script[0].src)];
      var rest := AckLoop(side, chunks, i + 1, next, script[1..]).trace;
      AckLoopStep(side, chunks, i, dst, script);
      AckLoopSent(side, chunks, i + 1, next, script[1..]);
      SentThenRead(chunks[i], dst, Take(script[0].payload, ControlBuf), script[0].src);
      var ft := FirstTimeout(script[1..]);
      assert FirstTimeout(script) == ft + 1;
      var m := Min(ft + 1, |chunks| - i - 1);
      SentCons(head, rest, chunks, i, m);
      assert Min(FirstTimeout(script) + 1, |chunks| - i) == m + 1;
    } else {
      AckLoopStop(side, chunks, i, dst, script);
      assert FirstTimeout(script) == 0;
      assert chunks[i..i + 1] == [chunks[i]];
    }
  }

  /** A send followed by a read sends one payload. */
  lemma SentThenRead(c: Bytes, dst: Addr, p: Bytes, src: Addr)
    ensures SentPayloads([Send(c, dst), Recv(p, src)]) == [c]
  {
    var t := [Send(c, dst), Recv(p, src)];
    assert t[1..] == [Recv(p, src)] && t[1..][1..] == [];
    assert SentPayloads(t[1..]) == [] + SentPayloads(t[1..][1..]);
    assert SentPayloads(t) == [c] + SentPayloads(t[1..]);
  }

  /** A step that sends chunk `i`, followed by a trace that sends the `n` chunks
      after it, sends the `n + 1` chunks from `i`. */
  lemma SentCons(head: seq<Io>, rest: seq<Io>, chunks: seq<Bytes>, i: nat, n: nat)
    requires i + 1 + n <= |chunks|
    requires SentPayloads(head) == [chunks[i]] && SentPayloads(rest) == chunks[i + 1..i + 1 + n]
    ensures SentPayloads(head + rest) == chunks[i..i + 1 + n]
  {
    SentPayloadsAppend(head, rest);
    assert chunks[i..i + 1 + n] == [chunks[i]] + chunks[i + 1..i + 1 + n];
  }

  /** Once every ACK has come, what remains of the loop's trace is the FIN wait's. */
  lemma {:induction false} AckLoopThenFin(side: Side, chunks: seq<Bytes>, i: nat, dst: Addr, script: seq<Event>)
    requires i <= |chunks| && |chunks| - i <= |script|
    requires forall q :: 0 <= q < |chunks| - i ==> script[q].Datagram?
    ensures var t := AckLoop(side, chunks, i, dst, script).trace;
      var r := |chunks| - i;
      |t| >= 2 * r && t[2 * r..] == FinWait(side, script[r..]).trace
    decreases |chunks| - i
  {
    if i == |chunks| {
      assert script[0..] == script;
    } else {
      var next := NextDst(side, dst, script[0].src);
      AckLoopStep(side, chunks, i, dst, script);
      AckLoopThenFin(side, chunks, i + 1, next, script[1..]);
      assert script[1..][|chunks| - i - 1..] == script[|chunks| - i..];
    }
  }

  /** Where the ACK loop sends: the first chunk to `dst`; then the client keeps sending
      to `dst`, while the server sends each chunk to the source of the ACK before it. */
  lemma {:induction false} AckLoopDestinations(side: Side, chunks: seq<Bytes>, i: nat, dst: Addr, script: seq<Event>)
    requires i <= |chunks|
    ensures var t := AckLoop(side, chunks, i, dst, script).trace;
      && (|t| > 0 && t[0].Send? ==> t[0].dst == dst)
      && (side == Client ==> SendsTo(t, dst))
      && (side == Server ==> forall j :: 0 < j < |t| && t[j].Send? ==> t[j - 1].Recv? && t[j].dst == t[j - 1].src)
    decreases |chunks| - i
  {
    var t := AckLoop(side, chunks, i, dst, script).trace;
    if i == |chunks| {
      FinWaitSendsNothing(side, script);
    } else if script != [] && script[0].Datagram? {
      var next := NextDst(side, dst, script[0].src);
      var rest := AckLoop(side, chunks, i + 1, next, script[1..]).trace;
      AckLoopStep(side, chunks, i, dst, script);
      AckLoopDestinations(side, chunks, i + 1, next, script[1..]);
      if side == Server {
        forall j | 0 < j < |t| && t[j].Send? ensures t[j - 1].Recv? && t[j].dst == t[j - 1].src {
          if j > 2 { assert t[j] == rest[j - 2] && t[j - 1] == rest[j - 3]; }
        }
      } else {
        forall j | 0 <= j < |t| && t[j].Send? ensures t[j].dst == dst {
          if j >= 2 { assert t[j] == rest[j - 2]; }
        }
      }
    } else {
      AckLoopStop(side, chunks, i, dst, script);
    }
  }

  lemma FinWaitSendsNothing(side: Side, script: seq<Event>)
    ensures var t := FinWait(side, script).trace;
      SentPayloads(t) == [] && forall j :: 0 <= j < |t| ==> !t[j].Send?
  {
    var t := FinWait(side, script).trace;
    assert |t| <= 2;
    if |t| == 1 {
      assert SentPayloads(t[1..]) == [];
    } else if |t| == 2 {
      assert !t[0].Send? && !t[1].Send?;
      assert SentPayloads(t[1..][1..]) == [];
      assert SentPayloads(t[1..]) == [];
    }
  }

  /** The sender's first datagram is `LEN:<n>`, for an empty file too, which then ends
      the run with nothing else sent. After it, each chunk goes out only once the
      datagram answering the previous chunk has been received, and the
      destinations follow each program's rule. */
  lemma SendPacing(side: Side, data: Bytes, dst: Addr, script: seq<Event>)
    ensures var t := SendRun(side, data, dst, script).trace;
      && |t| >= 1 && t[0] == Send(LenMessage(|data|), dst)
      && (|data| == 0 ==> SendRun(side, data, dst, script) == Run([t[0]], Aborted(EmptyPayload)))
      && (forall j :: 1 < j < |t| && t[j].Send? ==> t[j - 1].Recv?)
      && (side == Client ==> SendsTo(t, dst))
      && (side == Server ==> forall j :: 1 < j < |t| && t[j].Send? ==> t[j].dst == t[j - 1].src)
  {
    var t := SendRun(side, data, dst, script).trace;
    var head := [Send(LenMessage(|data|), dst)];
    if |data| > 0 {
      var chunks := Split(data, ChunkSize);
      var rest := AckLoop(side, chunks, 0, dst, script).trace;
      AckLoopAlternates(side, chunks, 0, dst, script);
      AckLoopDestinations(side, chunks, 0, dst, script);
      assert t == head + rest;
      forall j | 1 < j < |t| && t[j].Send? ensures t[j - 1].Recv? {
        assert t[j] == rest[j - 1] && t[j - 1] == rest[j - 2];
      }
      if side == Server {
        forall j | 1 < j < |t| && t[j].Send? ensures t[j].dst == t[j - 1].src {
          assert t[j] == rest[j - 1] && t[j - 1] == rest[j - 2];
        }
      }
    }
  }

  /** How the sender ends, against the first second of silence `m` in the script and
      the chunk count `k`: a timeout among the first `k` reads aborts on that chunk;
      otherwise all `k` chunks go out and the run ends with the read that follows. */
  lemma SendOutcome(side: Side, data: Bytes, dst: Addr, script: seq<Event>)
    requires |data| > 0
    ensures var k := NumChunks(|data|, ChunkSize);
      var m := FirstTimeout(script);
      SendRun(side, data, dst, script).outcome ==
        if m < k && m < |script| then Aborted(AckTimeout(m))
        else if |script| < k then Stalled
        else FinWait(side, script[k..]).outcome
  {
    var chunks := Split(data, ChunkSize);
    assert |chunks| == NumChunks(|data|, ChunkSize);
    SendStarts(side, data, dst, script);
    AckPhaseOutcome(side, chunks, dst, script);
  }

  /** How the ACK loop ends when it starts from the first chunk. */
  lemma AckPhaseOutcome(side: Side, chunks: seq<Bytes>, dst: Addr, script: seq<Event>)
    ensures var k := |chunks|;
      var m := FirstTimeout(script);
      AckLoop(side, chunks, 0, dst, script).outcome ==
        if m < k && m < |script| then Aborted(AckTimeout(m))
        else if |script| < k then Stalled
        else FinWait(side, script[k..]).outcome
  {
    AckLoopOutcome(side, chunks, 0, dst, script);
  }

  /** A sender with data goes from `LEN:` to the ACK loop over its chunks. */
  lemma SendStarts(side: Side, data: Bytes, dst: Addr, script: seq<Event>)
    requires |data| > 0
    ensures SendRun(side, data, dst, script) ==
      Prepend([Send(LenMessage(|data|), dst)], AckLoop(side, Split(data, ChunkSize), 0, dst, script))
  {
  }

  /** The sender sends `LEN:<n>` and then the chunks in order, up to and including
      the one whose ACK never came. */
  lemma SendSent(side: Side, data: Bytes, dst: Addr, script: seq<Event>)
    requires |data| > 0
    ensures var k := NumChunks(|data|, ChunkSize);
      SentPayloads(SendRun(side, data, dst, script).trace) ==
        [LenMessage(|data|)] + Split(data, ChunkSize)[..Min(FirstTimeout(script) + 1, k)]
  {
    var chunks := Split(data, ChunkSize);
    var head := [Send(LenMessage(|data|), dst)];
    var rest := AckLoop(side, chunks, 0, dst, script);
    AckLoopSent(side, chunks, 0, dst, script);
    SentPayloadsAppend(head, rest.trace);
    assert chunks[0..Min(FirstTimeout(script) + 1, |chunks|)] == chunks[..Min(FirstTimeout(script) + 1, |chunks|)];
  }

  /** A sender that returns normally got all `k` ACKs and one more datagram; it closes
      the socket exactly when that datagram reads `FIN`. */
  lemma SendDelivered(side: Side, data: Bytes, dst: Addr, script: seq<Event>)
    ensures var run := SendRun(side, data, dst, script);
      var k := NumChunks(|data|, ChunkSize);
      run.outcome.Delivered? ==>
        && |data| > 0 && k < |script| && (forall q :: 0 <= q <= k ==> script[q].Datagram?)
        && (run.outcome.closed <==> Take(script[k].payload, ControlBuf) == Fin)
  {
    if |data| > 0 {
      SendOutcome(side, data, dst, script);
      var k := NumChunks(|data|, ChunkSize);
      var run := SendRun(side, data, dst, script);
      if run.outcome.Delivered? {
        assert FirstTimeout(script) >= k;
        assert script[k..][0] == script[k];
      }
    }
  }

  /** A timeout while waiting for ACK `i` aborts with exactly `i + 1` chunks sent. */
  lemma SendAbortsOnMissingAck(side: Side, data: Bytes, dst: Addr, script: seq<Event>, i: nat)
    requires |data| > 0 && i < NumChunks(|data|, ChunkSize) && i < |script|
    requires script[i].Timeout? && forall q :: 0 <= q < i ==> script[q].Datagram?
    ensures var run := SendRun(side, data, dst, script);
      run.outcome == Aborted(AckTimeout(i))
      && SentPayloads(run.trace) == [LenMessage(|data|)] + Split(data, ChunkSize)[..i + 1]
  {
    SendOutcome(side, data, dst, script);
    SendSent(side, data, dst, script);
    var m := FirstTimeout(script);
    if m < i {
    } else if m > i {
    }
  }

  /** 2500 bytes whose second ACK never comes: `LEN:2500`, the first two chunks, abort. */
  lemma LostSecondAck(data: Bytes, dst: Addr, ack: Bytes, src: Addr)
    requires |data| == 2500
    ensures var run := SendRun(Client, data, dst, [Datagram(ack, src), Timeout]);
      run.outcome == Aborted(AckTimeout(1))
      && SentPayloads(run.trace) == [LenMessage(2500), data[..1000], data[1000..2000]]
  {
    SplitOf2500(data);
    SendAbortsOnMissingAck(Client, data, dst, [Datagram(ack, src), Timeout], 1);
    var chunks := Split(data, ChunkSize);
    assert chunks[0] == Slice(data, 0, 1000) == data[..1000];
    assert chunks[1] == Slice(data, 1000, 2000) == data[1000..2000];
    assert chunks[..2] == [chunks[0], chunks[1]];
  }

  // -------------------------------------------------------------- receiver

  /** What the receiver keeps of a datagram read as a chunk. */
  function Chunk(e: Event): Bytes
  {
    if e.Datagram? then Take(e.payload, ChunkBuf) else []
  }

  function Chunks(es: seq<Event>): seq<Bytes>
  {
    seq(|es|, q requires 0 <= q < |es| => Chunk(es[q]))
  }

  predicate AllDatagrams(es: seq<Event>)
  {
    forall q :: 0 <= q < |es| ==> es[q].Datagram?
  }

  /** The receiver's side of chunks that all arrive: each read, then its `ACK` to the
      address the chunk came from. */
  function AckTrace(es: seq<Event>): seq<Io>
    requires AllDatagrams(es)
  {
    if es == [] then [] else [Recv(Chunk(es[0]), es[0].src), Send(Ack, es[0].src)] + AckTrace(es[1..])
  }

  /** Where the receiver sends `FIN`: the source of the latest datagram. */
  function LastSrc(addr: Addr, es: seq<Event>): Addr
    requires AllDatagrams(es)
  {
    if es == [] then addr else es[|es| - 1].src
  }

  function FinPayloads(side: Side): seq<Bytes>
  {
    [Fin] + if side == Server then [Uploaded] else []
  }

  lemma ChunkLoopStep(side: Side, total: nat, i: nat, addr: Addr, chunks: seq<Bytes>, script: seq<Event>)
    requires i < total && script != [] && script[0].Datagram?
    ensures ChunkLoop(side, total, i, addr, chunks, script) ==
      Prepend([Recv(Chunk(script[0]), script[0].src), Send(Ack, script[0].src)],
              ChunkLoop(side, total, i + 1, script[0].src, chunks + [Chunk(script[0])], script[1..]))
  {
  }

  /** The chunk loop stops at the first second of silence among the reads it still
      has to make, or runs out of script; a timeout on the very first chunk is
      reported as no data at all. */
  lemma {:induction false} ChunkLoopOutcome(side: Side, total: nat, i: nat, addr: Addr, chunks: seq<Bytes>, script: seq<Event>)
    requires i <= total
    ensures var r := total - i;
      var m := FirstTimeout(script);
      var run := ChunkLoop(side, total, i, addr, chunks, script);
      && (m < r && m < |script| ==> run == Run(run.trace, Aborted(if i + m == 0 then NoData else Interrupted(i + m))))
      && (m >= |script| && |script| < r ==> run.outcome == Stalled)
      && (r <= |script| && r <= m ==> run.outcome.Saved?)
    decreases total - i
  {
    if i < total && script != [] && script[0].Datagram? {
      ChunkLoopStep(side, total, i, addr, chunks, script);
      ChunkLoopOutcome(side, total, i + 1, script[0].src, chunks + [Chunk(script[0])], script[1..]);
      assert FirstTimeout(script) == FirstTimeout(script[1..]) + 1;
    }
  }

  /** When every chunk still to be read arrives, the loop ACKs each one to where it came
      from, sends `FIN` (and the server's `File uploaded.`) to the latest address, and
      saves the chunks received so far followed by the new ones, in arrival order. */
  lemma {:induction false} ChunkLoopAllArrive(side: Side, total: nat, i: nat, addr: Addr, chunks: seq<Bytes>, script: seq<Event>)
    requires i <= total && total - i <= |script| && AllDatagrams(script[..total - i])
    ensures var es := script[..total - i];
      ChunkLoop(side, total, i, addr, chunks, script) ==
        Run(AckTrace(es) + FinSends(side, LastSrc(addr, es)), Saved(Concat(chunks + Chunks(es))))
    decreases total - i
  {
    var es := script[..total - i];
    if i == total {
      assert chunks + Chunks(es) == chunks;
    } else {
      var c := Chunk(script[0]);
      var src := script[0].src;
      var es' := script[1..][..total - i - 1];
      assert es[0] == script[0] && es[1..] == es';
      assert AllDatagrams(es');
      ChunkLoopStep(side, total, i, addr, chunks, script);
      ChunkLoopAllArrive(side, total, i + 1, src, chunks + [c], script[1..]);
      AllArriveStep(side, addr, chunks, es);
    }
  }

  /** One chunk that arrived, put before the rest: its read and `ACK` come first, the
      closing sends still go to the last source, and its chunk is saved first. */
  lemma AllArriveStep(side: Side, addr: Addr, chunks: seq<Bytes>, es: seq<Event>)
    requires AllDatagrams(es) && es != []
    ensures AllDatagrams(es[1..])
    ensures var c := Chunk(es[0]);
      var src := es[0].src;
      var fin := FinSends(side, LastSrc(addr, es));
      && LastSrc(src, es[1..]) == LastSrc(addr, es)
      && [Recv(c, src), Send(Ack, src)] + (AckTrace(es[1..]) + fin) == AckTrace(es) + fin
      && chunks + [c] + Chunks(es[1..]) == chunks + Chunks(es)
  {
    var c := Chunk(es[0]);
    var src := es[0].src;
    var head := [Recv(c, src), Send(Ack, src)];
    assert AllDatagrams(es[1..]);
    assert AckTrace(es) == head + AckTrace(es[1..]);
    ChunksCons(es);
  }

  lemma ChunksCons(es: seq<Event>)
    requires es != []
    ensures Chunks(es) == [Chunk(es[0])] + Chunks(es[1..])
  {
    assert forall q :: 0 < q < |es| ==> es[q] == es[1..][q - 1];
  }

  /** Reading the trace of chunks that all arrived: the chunks received, in order,
      exactly one `ACK` per chunk, each sent to the source of the chunk just before it. */
  lemma {:induction false} AckTraceShape(es: seq<Event>)
    requires AllDatagrams(es)
    ensures var t := AckTrace(es);
      && |t| == 2 * |es|
      && RecvPayloads(t) == Chunks(es)
      && SentPayloads(t) == Repeat(Ack, |es|)
      && forall j :: 0 <= j < |t| && t[j].Send? ==> j % 2 == 1 && t[j - 1].Recv? && t[j].dst == t[j - 1].src
  {
    if es != [] {
      var t := AckTrace(es);
      var head := [Recv(Chunk(es[0]), es[0].src), Send(Ack, es[0].src)];
      var rest := AckTrace(es[1..]);
      assert AllDatagrams(es[1..]);
      AckTraceShape(es[1..]);
      RecvPayloadsAppend(head, rest);
      SentPayloadsAppend(head, rest);
      ReadThenAck(Chunk(es[0]), es[0].src);
      assert Chunks(es) == [Chunk(es[0])] + Chunks(es[1..]);
      assert Repeat(Ack, |es|) == [Ack] + Repeat(Ack, |es| - 1);
      AnswersPrepend(head, rest);
    }
  }

  /** A chunk read and its `ACK`: one payload received, one `ACK` sent. */
  lemma ReadThenAck(c: Bytes, src: Addr)
    ensures RecvPayloads([Recv(c, src), Send(Ack, src)]) == [c]
    ensures SentPayloads([Recv(c, src), Send(Ack, src)]) == [Ack]
  {
    var t := [Recv(c, src), Send(Ack, src)];
    assert t[1..] == [Send(Ack, src)] && t[1..][1..] == [];
    assert RecvPayloads(t[1..]) == [] + RecvPayloads(t[1..][1..]);
    assert SentPayloads(t[1..]) == [Ack] + SentPayloads(t[1..][1..]);
    assert RecvPayloads(t) == [c] + RecvPayloads(t[1..]);
    assert SentPayloads(t) == [] + SentPayloads(t[1..]);
  }

  /** A read answered at its source, put before a trace whose sends all answer the
      read just before them at odd positions, keeps that shape. */
  lemma AnswersPrepend(head: seq<Io>, rest: seq<Io>)
    requires |head| == 2 && head[0].Recv? && head[1].Send? && head[1].dst == head[0].src
    requires forall j :: 0 <= j < |rest| && rest[j].Send? ==> j % 2 == 1 && rest[j - 1].Recv? && rest[j].dst == rest[j - 1].src
    ensures var t := head + rest;
      forall j :: 0 <= j < |t| && t[j].Send? ==> j % 2 == 1 && t[j - 1].Recv? && t[j].dst == t[j - 1].src
  {
    var t := head + rest;
    forall j | 0 <= j < |t| && t[j].Send? ensures j % 2 == 1 && t[j - 1].Recv? && t[j].dst == t[j - 1].src {
      if j >= 2 { assert t[j] == rest[j - 2] && t[j - 1] == rest[j - 3]; }
    }
  }

  /** The receiver refuses a `LEN:` datagram without the prefix, without an integer,
      or declaring zero bytes, having read it and nothing else, and sending nothing. */
  lemma ReceiveRejectsBadLen(side: Side, script: seq<Event>, e: LenError)
    ensures var j := FirstDatagram(script);
      var run := ReceiveRun(side, script);
      run.outcome == Aborted(LenRejected(e)) <==>
        j < |script| && ParseLenMessage(Take(script[j].payload, ControlBuf)) == Err(e)
    ensures var run := ReceiveRun(side, script);
      run.outcome.Aborted? && run.outcome.why.LenRejected? ==> |run.trace| == 1 && run.trace[0].Recv?
  {
    var j := FirstDatagram(script);
    if j < |script| {
      var p := Take(script[j].payload, ControlBuf);
      if ParseLenMessage(p).Ok? {
        var n := ParseLenMessage(p).value;
        ChunkLoopOutcome(side, Reads(n), 0, script[j].src, [], script[j + 1..]);
      }
    }
  }

  /** How the receiver ends once it accepted `LEN:<n>`: it reads one chunk, and
      `num_chunks - 1` more when there are more; the first second of silence among
      them aborts it, and when they all arrive it saves them, never checking the
      total against `n`. */
  lemma ReceiveOutcome(side: Side, script: seq<Event>)
    requires FirstDatagram(script) < |script|
    requires ParseLenMessage(Take(script[FirstDatagram(script)].payload, ControlBuf)).Ok?
    ensures var j := FirstDatagram(script);
      var n := ParseLenMessage(Take(script[j].payload, ControlBuf)).value;
      var rest := script[j + 1..];
      var k := Reads(n);
      var m := FirstTimeout(rest);
      var out := ReceiveRun(side, script).outcome;
      && k >= 1 && (NumChunks(n, ChunkSize) >= 1 ==> k == NumChunks(n, ChunkSize))
      && (m < k && m < |rest| ==> out == Aborted(if m == 0 then NoData else Interrupted(m)))
      && (m >= |rest| && |rest| < k ==> out == Stalled)
      && (k <= |rest| && k <= m ==> out == Saved(Concat(Chunks(rest[..k]))))
  {
    var j := FirstDatagram(script);
    var n := ParseLenMessage(Take(script[j].payload, ControlBuf)).value;
    var rest := script[j + 1..];
    var k := Reads(n);
    var src := script[j].src;
    ReceiveAccepted(side, script);
    ChunkPhaseOutcome(side, k, src, rest);
    assert ReceiveRun(side, script).outcome == ChunkLoop(side, k, 0, src, [], rest).outcome;
  }

  /** How the chunk reads after an accepted `LEN:` end, `k` reads being due. */
  lemma ChunkPhaseOutcome(side: Side, k: nat, src: Addr, rest: seq<Event>)
    ensures var m := FirstTimeout(rest);
      var out := ChunkLoop(side, k, 0, src, [], rest).outcome;
      && (m < k && m < |rest| ==> out == Aborted(if m == 0 then NoData else Interrupted(m)))
      && (m >= |rest| && |rest| < k ==> out == Stalled)
      && (k <= |rest| && k <= m ==> out == Saved(Concat(Chunks(rest[..k]))))
  {
    ChunkLoopOutcome(side, k, 0, src, [], rest);
    if k <= |rest| && k <= FirstTimeout(rest) {
      ChunkLoopAllArrive(side, k, 0, src, [], rest);
      assert [] + Chunks(rest[..k]) == Chunks(rest[..k]);
    }
  }

  /** The receiver got a `LEN:` datagram it accepts. */
  predicate Accepted(script: seq<Event>)
  {
    FirstDatagram(script) < |script| && ParseLenMessage(LenRead(script)).Ok?
  }

  /** The `LEN:` read: the first datagram, cut to the control buffer. */
  function LenRead(script: seq<Event>): Bytes
    requires FirstDatagram(script) < |script|
  {
    Take(script[FirstDatagram(script)].payload, ControlBuf)
  }

  /** Chunk reads an accepted `LEN:` calls for. */
  function DeclaredReads(script: seq<Event>): nat
    requires Accepted(script)
  {
    Reads(ParseLenMessage(LenRead(script)).value)
  }

  /** What the script holds after the `LEN:` datagram. */
  function AfterLen(script: seq<Event>): seq<Event>
    requires FirstDatagram(script) < |script|
  {
    script[FirstDatagram(script) + 1..]
  }

  lemma ReceiveAccepted(side: Side, script: seq<Event>)
    requires Accepted(script)
    ensures var src := script[FirstDatagram(script)].src;
      ReceiveRun(side, script) ==
        Prepend([Recv(LenRead(script), src)], ChunkLoop(side, DeclaredReads(script), 0, src, [], AfterLen(script)))
  {
  }

  /** A receiver that saves a file accepted `LEN:<n>` and then received all its chunk
      reads, and its trace is the `LEN:` read, the ACKed chunks, and the closing sends. */
  lemma ReceiveSavedTrace(side: Side, script: seq<Event>)
    requires ReceiveRun(side, script).outcome.Saved?
    ensures Accepted(script)
    ensures var k := DeclaredReads(script);
      && k <= |AfterLen(script)|
      && AllDatagrams(AfterLen(script)[..k])
      && var es := AfterLen(script)[..k];
      && var src := script[FirstDatagram(script)].src;
      && ReceiveRun(side, script) ==
           Run([Recv(LenRead(script), src)] + AckTrace(es) + FinSends(side, LastSrc(src, es)),
               Saved(Concat(Chunks(es))))
  {
    SavedAccepted(side, script);
    var src := script[FirstDatagram(script)].src;
    var k := DeclaredReads(script);
    var rest := AfterLen(script);
    ReceiveAccepted(side, script);
    ChunkPhaseSaved(side, k, src, rest);
    var es := rest[..k];
    var len := [Recv(LenRead(script), src)];
    assert len + (AckTrace(es) + FinSends(side, LastSrc(src, es))) == len + AckTrace(es) + FinSends(side, LastSrc(src, es));
  }

  /** Only a run that accepted its `LEN:` datagram can save. */
  lemma SavedAccepted(side: Side, script: seq<Event>)
    requires ReceiveRun(side, script).outcome.Saved?
    ensures Accepted(script)
  {
  }

  /** A chunk phase that saves got all `k` reads, and its trace ACKs each of them
      before the closing sends. */
  lemma ChunkPhaseSaved(side: Side, k: nat, src: Addr, rest: seq<Event>)
    requires ChunkLoop(side, k, 0, src, [], rest).outcome.Saved?
    ensures k <= |rest| && AllDatagrams(rest[..k])
    ensures var es := rest[..k];
      ChunkLoop(side, k, 0, src, [], rest) ==
        Run(AckTrace(es) + FinSends(side, LastSrc(src, es)), Saved(Concat(Chunks(es))))
  {
    ChunkLoopOutcome(side, k, 0, src, [], rest);
    ChunkLoopAllArrive(side, k, 0, src, [], rest);
    assert [] + Chunks(rest[..k]) == Chunks(rest[..k]);
  }

  /** The saved file is the chunks received after `LEN:<n>`, concatenated in arrival
      order: `num_chunks` of them (one for `n < 0`), never checked against `n`. */
  lemma ReceiveSavedFile(side: Side, script: seq<Event>)
    requires ReceiveRun(side, script).outcome.Saved?
    ensures Accepted(script)
    ensures var run := ReceiveRun(side, script);
      && |RecvPayloads(run.trace)| == 1 + DeclaredReads(script)
      && run.outcome.file == Concat(RecvPayloads(run.trace)[1..])
  {
    ReceiveSavedTrace(side, script);
    var t := ReceiveRun(side, script).trace;
    var src := script[FirstDatagram(script)].src;
    var es := AfterLen(script)[..DeclaredReads(script)];
    var head := [Recv(LenRead(script), src)];
    var acks := AckTrace(es);
    var fins := FinSends(side, LastSrc(src, es));
    AckTraceShape(es);
    assert t == head + (acks + fins);
    FinSendsReadNothing(side, LastSrc(src, es));
    PayloadsPastLength(t, LenRead(script), src, acks, fins);
  }

  /** The closing `FIN` (and the server's reply) are sends only. */
  lemma FinSendsReadNothing(side: Side, addr: Addr)
    ensures RecvPayloads(FinSends(side, addr)) == []
  {
    var fins := FinSends(side, addr);
    if side == Server {
      assert fins[1..] == [Send(Uploaded, addr)] && fins[1..][1..] == [];
      assert RecvPayloads(fins[1..]) == [];
    } else {
      assert fins[1..] == [];
    }
  }

  /** A trace that reads the length, then runs `acks`, then sends only, received the
      length followed by what `acks` received. */
  lemma PayloadsPastLength(t: seq<Io>, len: Bytes, src: Addr, acks: seq<Io>, fins: seq<Io>)
    requires t == [Recv(len, src)] + (acks + fins) && RecvPayloads(fins) == []
    ensures |RecvPayloads(t)| == 1 + |RecvPayloads(acks)|
    ensures RecvPayloads(t)[0] == len && RecvPayloads(t)[1..] == RecvPayloads(acks)
  {
    RecvPayloadsAppend([Recv(len, src)], acks + fins);
    RecvPayloadsAppend(acks, fins);
    assert RecvPayloads([Recv(len, src)]) == [len];
    assert RecvPayloads(t) == [len] + RecvPayloads(acks);
  }

  /** Every send among entries 1 to `2 * k` of a trace is an `ACK` to the source of
      the read just before it. */
  predicate AcksAnswerReads(t: seq<Io>, k: nat)
  {
    forall q :: 1 <= q <= 2 * k && q < |t| && t[q].Send? ==>
      t[q].payload == Ack && t[q - 1].Recv? && t[q].dst == t[q - 1].src
  }

  /** Entry `2 * k - 1` is a read, and every entry after entry `2 * k` is a send to
      that read's source. */
  predicate ClosesToLastRead(t: seq<Io>, k: nat)
  {
    && 1 <= k && 2 * k <= |t| && t[2 * k - 1].Recv?
    && forall q :: 1 + 2 * k <= q < |t| ==> t[q].Send? && t[q].dst == t[2 * k - 1].src
  }

  /** A receiver that saves a file sent exactly one `ACK` per chunk, each to the source
      of the chunk just read, and then `FIN` (and the server `File uploaded.`), in
      that order, to the source of the last chunk. */
  lemma ReceiveSavedAcks(side: Side, script: seq<Event>)
    requires ReceiveRun(side, script).outcome.Saved?
    ensures Accepted(script)
    ensures var t := ReceiveRun(side, script).trace;
      var k := DeclaredReads(script);
      && SentPayloads(t) == Repeat(Ack, k) + FinPayloads(side)
      && |t| == 1 + 2 * k + |FinPayloads(side)|
      && t[0].Recv? && AcksAnswerReads(t, k) && ClosesToLastRead(t, k)
  {
    ReceiveSavedTrace(side, script);
    var src := script[FirstDatagram(script)].src;
    var es := AfterLen(script)[..DeclaredReads(script)];
    var len := Recv(LenRead(script), src);
    SavedSends(side, len, src, es);
    SavedAddresses(side, len, src, es);
  }

  /** What a receiver's saving trace sends: one `ACK` per chunk, then the closing sends. */
  lemma SavedSends(side: Side, len: Io, src: Addr, es: seq<Event>)
    requires len.Recv? && AllDatagrams(es)
    ensures var t := [len] + AckTrace(es) + FinSends(side, LastSrc(src, es));
      SentPayloads(t) == Repeat(Ack, |es|) + FinPayloads(side)
      && |t| == 1 + 2 * |es| + |FinPayloads(side)|
  {
    var acks := AckTrace(es);
    var fins := FinSends(side, LastSrc(src, es));
    AckTraceShape(es);
    assert [len] + acks + fins == [len] + (acks + fins);
    SentPayloadsAppend([len], acks + fins);
    SentPayloadsAppend(acks, fins);
    assert SentPayloads(fins) == FinPayloads(side) by {
      if side == Server { assert fins[1..][1..] == []; } else { assert fins[1..] == []; }
    }
    assert SentPayloads([len]) == [];
  }

  /** Where a receiver's saving trace sends: each `ACK` to the chunk just read, the
      closing sends to the last chunk's source. */
  lemma SavedAddresses(side: Side, len: Io, src: Addr, es: seq<Event>)
    requires len.Recv? && AllDatagrams(es) && es != []
    ensures var t := [len] + AckTrace(es) + FinSends(side, LastSrc(src, es));
      && |t| == 1 + 2 * |es| + |FinPayloads(side)|
      && t[0].Recv? && AcksAnswerReads(t, |es|) && ClosesToLastRead(t, |es|)
  {
    var acks := AckTrace(es);
    var last := LastSrc(src, es);
    var fins := FinSends(side, last);
    AckTraceShape(es);
    forall j | 0 <= j < |acks| && acks[j].Send? ensures 1 <= j && acks[j].payload == Ack {
      AckTraceSendsAck(es, j);
    }
    AckTraceLast(es);
    assert acks[2 * |es| - 2].Recv? && acks[2 * |es| - 2].src == last;
    FinSendsTo(side, last);
    LenAcksFins(len, acks, fins, |es|);
  }

  /** The closing sends all go to the one address. */
  lemma FinSendsTo(side: Side, addr: Addr)
    ensures |FinSends(side, addr)| == |FinPayloads(side)|
    ensures forall j :: 0 <= j < |FinSends(side, addr)| ==>
      FinSends(side, addr)[j] == Send(FinPayloads(side)[j], addr)
  {
  }

  /** The address facts of a trace made of a read, a read/`ACK` trace of `k` chunks,
      and closing sends to the last chunk's source. */
  lemma LenAcksFins(len: Io, acks: seq<Io>, fins: seq<Io>, k: nat)
    requires len.Recv? && k >= 1 && |acks| == 2 * k
    requires forall j :: 0 <= j < |acks| && acks[j].Send? ==>
      1 <= j && acks[j].payload == Ack && acks[j - 1].Recv? && acks[j].dst == acks[j - 1].src
    requires acks[2 * k - 2].Recv?
    requires forall j :: 0 <= j < |fins| ==> fins[j].Send? && fins[j].dst == acks[2 * k - 2].src
    ensures var t := [len] + acks + fins;
      t[0].Recv? && AcksAnswerReads(t, k) && ClosesToLastRead(t, k)
  {
    var t := [len] + acks + fins;
    forall q | 1 <= q <= 2 * k && q < |t| && t[q].Send?
      ensures t[q].payload == Ack && t[q - 1].Recv? && t[q].dst == t[q - 1].src
    {
      assert t[q] == acks[q - 1];
      if q >= 2 { assert t[q - 1] == acks[q - 2]; }
    }
    assert t[2 * k - 1] == acks[2 * k - 2];
    forall q | 1 + 2 * k <= q < |t| ensures t[q].Send? && t[q].dst == t[2 * k - 1].src {
      assert t[q] == fins[q - 1 - 2 * k];
    }
  }

  /** The sends of an ACK trace are ACKs. */
  lemma {:induction false} AckTraceSendsAck(es: seq<Event>, q: nat)
    requires AllDatagrams(es) && q < |AckTrace(es)|
    ensures |AckTrace(es)| == 2 * |es|
    ensures AckTrace(es)[q].Send? <==> q % 2 == 1
    ensures AckTrace(es)[q].Send? ==>
      AckTrace(es)[q].payload == Ack && AckTrace(es)[q - 1].Recv? && AckTrace(es)[q].dst == AckTrace(es)[q - 1].src
  {
    AckTraceShape(es);
    assert AllDatagrams(es[1..]);
    if q >= 2 {
      AckTraceSendsAck(es[1..], q - 2);
    }
  }

  /** The last read of an ACK trace came from the last datagram's source. */
  lemma {:induction false} AckTraceLast(es: seq<Event>)
    requires AllDatagrams(es) && es != []
    ensures |AckTrace(es)| == 2 * |es|
    ensures AckTrace(es)[2 * |es| - 2] == Recv(Chunk(es[|es| - 1]), es[|es| - 1].src)
  {
    assert AllDatagrams(es[1..]);
    AckTraceShape(es[1..]);
    if |es| > 1 {
      AckTraceLast(es[1..]);
    }
  }

  /** A negative declared length still gets one chunk read and saved. */
  lemma NegativeLengthReadsOne(side: Side, from: Addr, chunk: Bytes)
    ensures ReceiveRun(side, [Datagram(NegativeLen, from), Datagram(chunk, from)]).outcome
      == Saved(Take(chunk, ChunkBuf))
  {
    var script := [Datagram(NegativeLen, from), Datagram(chunk, from)];
    var c := Take(chunk, ChunkBuf);
    assert FirstDatagram(script) == 0;
    NegativeLengthAccepted();
    assert Take(NegativeLen, ControlBuf) == NegativeLen;
    assert Reads(-5) == 1;
    assert Concat([c]) == [] + c;
    assert ChunkLoop(side, 1, 1, from, [c], []).outcome == Saved(c);
    assert script[1..] == [Datagram(chunk, from)] && script[1..][1..] == [];
    assert ChunkLoop(side, 1, 0, from, [], script[1..]).outcome == Saved(c);
  }

  // ------------------------------------------------------ both peers together

  /** The peer at the other end of a transfer. */
  function Other(side: Side): Side
  {
    if side == Client then Server else Client
  }

  /** The sender's side of chunks that are all ACKed: each chunk, then its ACK from `dst`. */
  function SendAckTrace(chunks: seq<Bytes>, dst: Addr): seq<Io>
  {
    if chunks == [] then [] else [Send(chunks[0], dst), Recv(Ack, dst)] + SendAckTrace(chunks[1..], dst)
  }

  /** Over a channel that loses nothing, every chunk from `i` on is ACKed by `dst` and
      the loop reaches the FIN wait with the rest of the script. */
  lemma {:induction false} AckLoopLossless(side: Side, chunks: seq<Bytes>, i: nat, dst: Addr, rest: seq<Event>)
    requires i <= |chunks|
    ensures AckLoop(side, chunks, i, dst, Datagrams(Repeat(Ack, |chunks| - i), dst) + rest)
      == Prepend(SendAckTrace(chunks[i..], dst), FinWait(side, rest))
    decreases |chunks| - i
  {
    var script := Datagrams(Repeat(Ack, |chunks| - i), dst) + rest;
    if i == |chunks| {
      assert script == rest;
      assert chunks[i..] == [];
    } else {
      AckScript(|chunks| - i, dst, rest);
      assert Take(Ack, ControlBuf) == Ack;
      AckLoopRecv(side, chunks, i, dst, script, Ack, dst);
      AckLoopLossless(side, chunks, i + 1, dst, rest);
      assert chunks[i..][1..] == chunks[i + 1..];
      PrependTwice([Send(chunks[i], dst), Recv(Ack, dst)], SendAckTrace(chunks[i + 1..], dst), FinWait(side, rest));
    }
  }

  /** A script of `n` ACKs from `dst` starts with one of them. */
  lemma AckScript(n: nat, dst: Addr, rest: seq<Event>)
    requires n > 0
    ensures var script := Datagrams(Repeat(Ack, n), dst) + rest;
      script != [] && script[0] == Datagram(Ack, dst) && script[1..] == Datagrams(Repeat(Ack, n - 1), dst) + rest
  {
    RepeatCons(Ack, n, dst);
  }

  lemma {:induction false} SendAckTraceDelivers(chunks: seq<Bytes>, dst: Addr, from: Addr)
    ensures Deliver(SendAckTrace(chunks, dst), from) == Datagrams(chunks, from)
    ensures SendsTo(SendAckTrace(chunks, dst), dst)
  {
    if chunks != [] {
      var head := [Send(chunks[0], dst), Recv(Ack, dst)];
      var rest := SendAckTrace(chunks[1..], dst);
      SendAckTraceDelivers(chunks[1..], dst, from);
      DeliverAppend(head, rest, from);
      OneSendDelivers(head, 0, from);
      assert Datagrams(chunks, from) == [Datagram(chunks[0], from)] + Datagrams(chunks[1..], from);
      SendsToAppend(head, rest, dst);
    }
  }

  lemma {:induction false} AckTraceDelivers(es: seq<Event>, from: Addr, to: Addr)
    requires AllDatagrams(es) && forall q :: 0 <= q < |es| ==> es[q].src == from
    ensures Deliver(AckTrace(es), to) == Datagrams(Repeat(Ack, |es|), to)
    ensures SendsTo(AckTrace(es), from)
  {
    if es != [] {
      var head := [Recv(Chunk(es[0]), es[0].src), Send(Ack, es[0].src)];
      var rest := AckTrace(es[1..]);
      assert AllDatagrams(es[1..]);
      AckTraceDelivers(es[1..], from, to);
      DeliverAppend(head, rest, to);
      OneSendDelivers(head, 1, to);
      RepeatCons(Ack, |es|, to);
      SendsToAppend(head, rest, from);
    }
  }

  /** A step of one send and one read delivers just that send. */
  lemma OneSendDelivers(t: seq<Io>, k: nat, to: Addr)
    requires |t| == 2 && k < 2 && t[k].Send? && !t[1 - k].Send?
    ensures Deliver(t, to) == [Datagram(t[k].payload, to)]
    ensures SendsTo(t, t[k].dst)
  {
    assert t[1..] == [t[1]] && t[1..][1..] == [];
    assert Deliver(t[1..], to) == (if t[1].Send? then [Datagram(t[1].payload, to)] else []) + [];
  }

  /** `n` copies of a payload delivered: one, then the other `n - 1`. */
  lemma RepeatCons(p: Bytes, n: nat, to: Addr)
    requires n > 0
    ensures Datagrams(Repeat(p, n), to) == [Datagram(p, to)] + Datagrams(Repeat(p, n - 1), to)
  {
    assert Repeat(p, n) == [p] + Repeat(p, n - 1);
  }

  lemma FinSendsDeliver(side: Side, addr: Addr, to: Addr)
    ensures Deliver(FinSends(side, addr), to) == Datagrams(FinPayloads(side), to)
    ensures SendsTo(FinSends(side, addr), addr)
  {
    var t := FinSends(side, addr);
    if side == Server {
      assert t[1..][1..] == [];
      assert Deliver(t[1..], to) == [Datagram(Uploaded, to)];
      assert Datagrams(FinPayloads(side), to) == [Datagram(Fin, to), Datagram(Uploaded, to)];
    } else {
      assert t[1..] == [];
    }
  }

  lemma {:induction false} DeliverNoSends(t: seq<Io>, src: Addr)
    requires forall j :: 0 <= j < |t| ==> !t[j].Send?
    ensures Deliver(t, src) == []
  {
    if t != [] {
      DeliverNoSends(t[1..], src);
    }
  }

  /** The sender's end of a lossless transfer: it sends `LEN:<n>` and every chunk to
      the receiver, hears every ACK and the closing datagrams, and closes. */
  lemma LosslessSender(sender: Side, data: Bytes, from: Addr, to: Addr)
    requires |data| > 0
    ensures var chunks := Split(data, ChunkSize);
      var toSender := Datagrams(Repeat(Ack, |chunks|), to) + Datagrams(FinPayloads(Other(sender)), to);
      var up := SendRun(sender, data, to, toSender);
      && Deliver(up.trace, from) == [Datagram(LenMessage(|data|), from)] + Datagrams(chunks, from)
      && SendsTo(up.trace, to)
      && up.outcome == Delivered(true)
  {
    var chunks := Split(data, ChunkSize);
    var fins := Datagrams(FinPayloads(Other(sender)), to);
    var toSender := Datagrams(Repeat(Ack, |chunks|), to) + fins;
    var up := SendRun(sender, data, to, toSender);
    var head := [Send(LenMessage(|data|), to)];
    AckLoopLossless(sender, chunks, 0, to, fins);
    assert chunks[0..] == chunks;
    var acked := SendAckTrace(chunks, to);
    var tail := FinWait(sender, fins);
    ControlWordsDistinct();
    assert Take(Fin, ControlBuf) == Fin;
    assert Take(Uploaded, ControlBuf) == Uploaded;
    assert fins[0] == Datagram(Fin, to);
    if sender == Client {
      assert fins[1] == Datagram(Uploaded, to);
    }
    assert tail.outcome == Delivered(true);
    FinWaitSendsNothing(sender, fins);
    DeliverNoSends(tail.trace, from);
    assert up.trace == head + (acked + tail.trace);
    DeliverAppend(head, acked + tail.trace, from);
    DeliverAppend(acked, tail.trace, from);
    SendAckTraceDelivers(chunks, to, from);
    SendsToAppend(acked, tail.trace, to);
    SendsToAppend(head, acked + tail.trace, to);
  }

  /** The receiver's run over a lossless channel: the `LEN:` read, every chunk read
      and ACKed, the closing sends, and the data saved. */
  lemma LosslessReceiveRun(receiver: Side, data: Bytes, from: Addr)
    requires |data| > 0 && |LenMessage(|data|)| <= ControlBuf
    ensures var es := Datagrams(Split(data, ChunkSize), from);
      && AllDatagrams(es)
      && ReceiveRun(receiver, [Datagram(LenMessage(|data|), from)] + es) ==
           Run([Recv(LenMessage(|data|), from)] + AckTrace(es) + FinSends(receiver, from), Saved(data))
  {
    var chunks := Split(data, ChunkSize);
    var k := |chunks|;
    var es := Datagrams(chunks, from);
    var toReceiver := [Datagram(LenMessage(|data|), from)] + es;
    LosslessLenAccepted(data, from);
    ReceiveAccepted(receiver, toReceiver);
    ChunkPhaseAllArrive(receiver, from, es);
    ChunksOfSplit(data, from);
    SplitConcat(data, ChunkSize);
    assert LastSrc(from, es) == from;
    var len := [Recv(LenMessage(|data|), from)];
    assert len + (AckTrace(es) + FinSends(receiver, from)) == len + AckTrace(es) + FinSends(receiver, from);
  }

  /** A chunk phase whose every read is a datagram ACKs each and saves them all. */
  lemma ChunkPhaseAllArrive(side: Side, src: Addr, es: seq<Event>)
    requires AllDatagrams(es)
    ensures ChunkLoop(side, |es|, 0, src, [], es) ==
      Run(AckTrace(es) + FinSends(side, LastSrc(src, es)), Saved(Concat(Chunks(es))))
  {
    assert es[..|es|] == es;
    ChunkLoopAllArrive(side, |es|, 0, src, [], es);
    assert [] + Chunks(es) == Chunks(es);
  }

  /** Over a lossless channel the receiver accepts the sender's `LEN:` datagram and
      reads exactly the chunks that follow it. */
  lemma LosslessLenAccepted(data: Bytes, from: Addr)
    requires |data| > 0 && |LenMessage(|data|)| <= ControlBuf
    ensures var es := Datagrams(Split(data, ChunkSize), from);
      var toReceiver := [Datagram(LenMessage(|data|), from)] + es;
      && AllDatagrams(es)
      && FirstDatagram(toReceiver) == 0
      && toReceiver[0].src == from
      && Accepted(toReceiver)
      && LenRead(toReceiver) == LenMessage(|data|)
      && DeclaredReads(toReceiver) == |Split(data, ChunkSize)|
      && AfterLen(toReceiver) == es
  {
    var es := Datagrams(Split(data, ChunkSize), from);
    var toReceiver := [Datagram(LenMessage(|data|), from)] + es;
    assert FirstDatagram(toReceiver) == 0;
    assert LenRead(toReceiver) == LenMessage(|data|);
    LenRoundTrip(|data|);
    SplitShape(data, ChunkSize);
  }

  /** Chunks of at most 1000 bytes are kept whole by the receiver's reads. */
  lemma ChunksOfSplit(data: Bytes, from: Addr)
    ensures Chunks(Datagrams(Split(data, ChunkSize), from)) == Split(data, ChunkSize)
  {
    var chunks := Split(data, ChunkSize);
    if |data| > 0 {
      SplitShape(data, ChunkSize);
    }
    forall q | 0 <= q < |chunks| ensures Chunks(Datagrams(chunks, from))[q] == chunks[q] {
      assert |chunks[q]| <= ChunkBuf;
    }
  }

  /** The receiver's end of a lossless transfer: it ACKs every chunk to the sender,
      sends the closing datagrams there too, and saves the data. */
  lemma LosslessReceiver(receiver: Side, data: Bytes, from: Addr, to: Addr)
    requires |data| > 0 && |LenMessage(|data|)| <= ControlBuf
    ensures var chunks := Split(data, ChunkSize);
      var toReceiver := [Datagram(LenMessage(|data|), from)] + Datagrams(chunks, from);
      var down := ReceiveRun(receiver, toReceiver);
      && Deliver(down.trace, to) == Datagrams(Repeat(Ack, |chunks|), to) + Datagrams(FinPayloads(receiver), to)
      && SendsTo(down.trace, from)
      && down.outcome == Saved(data)
  {
    var es := Datagrams(Split(data, ChunkSize), from);
    LosslessReceiveRun(receiver, data, from);
    var t := [Recv(LenMessage(|data|), from)] + AckTrace(es) + FinSends(receiver, from);
    LosslessReceiveTrace(receiver, Recv(LenMessage(|data|), from), es, from, to);
  }

  lemma LosslessReceiveTrace(receiver: Side, len: Io, es: seq<Event>, from: Addr, to: Addr)
    requires len.Recv? && AllDatagrams(es) && forall q :: 0 <= q < |es| ==> es[q].src == from
    ensures var t := [len] + AckTrace(es) + FinSends(receiver, from);
      && Deliver(t, to) == Datagrams(Repeat(Ack, |es|), to) + Datagrams(FinPayloads(receiver), to)
      && SendsTo(t, from)
  {
    var acks := AckTrace(es);
    var fins := FinSends(receiver, from);
    var t := [len] + acks + fins;
    assert t == [len] + (acks + fins);
    AckTraceDelivers(es, from, to);
    FinSendsDeliver(receiver, from, to);
    DeliverAppend([len], acks + fins, to);
    DeliverAppend(acks, fins, to);
    assert Deliver([len], to) == [];
    forall j | 0 <= j < |t| && t[j].Send? ensures t[j].dst == from {
      if 1 <= j < 1 + |acks| {
        assert t[j] == acks[j - 1];
      } else if j >= 1 + |acks| {
        assert t[j] == fins[j - 1 - |acks|];
      }
    }
  }

  /** Both peers over a channel that loses nothing, uploading or downloading: what
      each sends is exactly what the other's script holds, the receiver saves the
      sender's data, `num_chunks` chunks go one way and `num_chunks` ACKs and one
      `FIN` (with the server's `File uploaded.`) the other, and the sender closes. */
  lemma Lossless(sender: Side, data: Bytes, from: Addr, to: Addr)
    requires |data| > 0 && |LenMessage(|data|)| <= ControlBuf
    ensures var chunks := Split(data, ChunkSize);
      var toReceiver := [Datagram(LenMessage(|data|), from)] + Datagrams(chunks, from);
      var toSender := Datagrams(Repeat(Ack, |chunks|), to) + Datagrams(FinPayloads(Other(sender)), to);
      var up := SendRun(sender, data, to, toSender);
      var down := ReceiveRun(Other(sender), toReceiver);
      && |chunks| == NumChunks(|data|, ChunkSize)
      && Deliver(up.trace, from) == toReceiver
      && Deliver(down.trace, to) == toSender
      && up.outcome == Delivered(true)
      && down.outcome == Saved(data)
      && SendsTo(up.trace, to) && SendsTo(down.trace, from)
  {
    LosslessSender(sender, data, from, to);
    LosslessReceiver(Other(sender), data, from, to);
  }
}
