/** The server of the stream variant: its command loop, the NUL-ended field reader,
    its two file loops, and the pure part of `anon`. */
module ServerTcp {
  import opened ByteStrings
  import opened Chunking
  import opened Wrappers
  import opened TcpStream
  import opened Commands
  import StopAndWait
  import Anonymize

  /** The reader of `put`'s file name and `keyword`'s keyword: `recv(1)` one byte at a
      time, stopping at the first NUL, which is consumed and not kept. */
  method ReadField(stream: Bytes) returns (r: Option<(Bytes, Bytes)>)
    ensures r == NulField(stream)
  {
    var raw: Bytes := [];
    var i := 0;
    while i < |stream| && stream[i] != Nul
      invariant i <= |stream| && raw == stream[..i] && Nul !in raw
    {
      raw := raw + [stream[i]];
      i := i + 1;
    }
    if i == |stream| {
      // no NUL has arrived: the reader is still waiting
      r := None;
    } else {
      assert stream == raw + [Nul] + stream[i + 1..];
      NulFieldFraming(raw, stream[i + 1..]);
      r := Some((raw, stream[i + 1..]));
    }
  }

  /** `receive_file`: write every read, the short last one included, stop after the
      first read shorter than 1024 bytes, then answer `File uploaded.`. */
  method ReceiveFile(received: seq<Bytes>) returns (written: Option<Bytes>, sent: seq<Bytes>)
    ensures written == UntilShort(received)
    ensures sent == if written.Some? then [StopAndWait.Uploaded] else []
  {
    var file: Bytes := [];
    var i := 0;
    while i < |received|
      invariant i <= |received| && file == Concat(received[..i])
      invariant forall p :: 0 <= p < i ==> |received[p]| >= Piece
    {
      var data := received[i];
      ConcatPrefixStep(received, i);
      file := file + data;
      if |data| < Piece {
        FirstShortAt(received, i);
        written, sent := Some(file), [StopAndWait.Uploaded];
        return;
      }
      i := i + 1;
    }
    FirstShortNone(received);
    written, sent := None, [];
  }

  /** `receive_file` for a client that ends its upload with a NUL, as `send_file`
      below does: stop at the read that ends with the NUL (or is short), and do not
      keep that NUL. */
  method ReceiveFileUntilMarker(received: seq<Bytes>) returns (written: Option<Bytes>, sent: seq<Bytes>)
    ensures written == UntilMarker(received)
    ensures sent == if written.Some? then [StopAndWait.Uploaded] else []
  {
    var file: Bytes := [];
    var i := 0;
    while i < |received|
      invariant i <= |received| && file == Concat(received[..i])
      invariant forall p :: 0 <= p < i ==> !EndsTransfer(received[p])
    {
      var data := received[i];
      ConcatPrefixStep(received, i);
      file := file + data;
      if EndsTransfer(data) {
        UntilMarkerAt(received, i);
        if file != [] && file[|file| - 1] == Nul {
          file := file[..|file| - 1];
        }
        written, sent := Some(file), [StopAndWait.Uploaded];
        return;
      }
      i := i + 1;
    }
    written, sent := None, [];
  }

  /** `send_file`: the file in `fp.read(1024)` pieces, then one NUL byte of its own. */
  method SendFile(data: Bytes) returns (sent: seq<Bytes>)
    ensures sent == Eager(data) + [[Nul]]
    ensures Concat(sent) == data + [Nul]
    ensures forall q :: 0 <= q < |sent| ==> 0 < |sent[q]| <= Piece
  {
    sent := [];
    var i := 0;
    while i * Piece < |data|
      invariant i == 0 || (i - 1) * Piece < |data|
      invariant i <= |Eager(data)| && sent == Eager(data)[..i]
      decreases |Eager(data)| - i
    {
      EagerStep(data, i);
      sent := sent + [data[i * Piece..Min(i * Piece + Piece, |data|)]];
      i := i + 1;
    }
    EagerCount(data, i);
    assert sent == Eager(data);
    EagerSizes(data);
    EagerConcat(data);
    ConcatAppend(Eager(data), [Nul]);
    sent := sent + [[Nul]];
  }

  /** The pure part of `anon`: the name the client sent is used as it is, for the reply
      and for deriving the output name (a directory in it stays in the output name). */
  function Anon(fileName: Bytes, keyword: Bytes, text: Bytes): (r: Anonymize.Report)
    ensures |r.outName| == (if |fileName| >= 4 then |fileName| - 4 else 0) + |Anonymize.AnonSuffix|
    ensures var k := |r.outName| - |Anonymize.AnonSuffix|;
      && r.outName[..k] == fileName[..k] && r.outName[k..] == Anonymize.AnonSuffix
    ensures r.outText == Anonymize.Anonymized(text, keyword)
    ensures r.reply == Anonymize.Reply(fileName, r.outName)
  {
    Anonymize.Anon(fileName, keyword, text)
  }

  /** How a turn of the command loop ends. */
  datatype Next = Continue | Stop | Waiting

  /** One turn: what the server sends, its files afterwards, and what comes next. */
  datatype Turn = Turn(sent: seq<Bytes>, files: map<Bytes, Bytes>, next: Next)

  /** One turn of `main`'s loop, given the command read and the stream after it, read
      eagerly where the server reads 1024 bytes at a time. Files the server cannot
      open make it exit; a read that never completes leaves it `Waiting`. An upload
      waiting for its short read has already truncated the named file and written the
      full reads so far. */
  function Serve(files: map<Bytes, Bytes>, command: Bytes, stream: Bytes): (t: Turn)
    ensures Dispatch(command) == Ignore ==> t == Turn([], files, Continue)
    ensures Dispatch(command) == Action.Exit ==> t == Turn([], files, Stop)
    ensures t.next == Continue && Dispatch(command) != Ignore ==> |t.sent| >= 1
    ensures t.next == Stop ==> t.files == files
    ensures t.next == Waiting && t.files != files ==>
      Dispatch(command) == ReceiveUpload && NulField(stream).Some?
      && t.files == files[NulField(stream).value.0 := NulField(stream).value.1]
  {
    match Dispatch(command)
      case Ignore => Turn([], files, Continue)
      case Exit => Turn([], files, Stop)
      case ReceiveUpload =>
        (match NulField(stream)
          case None => Turn([], files, Waiting)
          case Some((name, rest)) =>
            match UntilShort(Eager(rest))
              case None => EagerConcat(rest); Turn([], files[name := Concat(Eager(rest))], Waiting)
              case Some(file) => Turn([StopAndWait.Uploaded], files[name := file], Continue))
      case ServeDownload =>
        if stream == [] then Turn([], files, Waiting)
        else
          var name := Take(stream, Piece);
          if name !in files then Turn([], files, Stop)
          else Turn(Eager(files[name]) + [[Nul]], files, Continue)
      case AnonymizeFile =>
        match NulField(stream)
          case None => Turn([], files, Waiting)
          case Some((keyword, rest)) =>
            if rest == [] then Turn([], files, Waiting)
            else
              var name := Take(rest, Piece);
              if name !in files then Turn([], files, Stop)
              else
                var r := Anon(name, keyword, files[name]);
                Turn([r.reply], files[r.outName := r.outText], Continue)
  }
}
