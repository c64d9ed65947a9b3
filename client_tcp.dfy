/** The client of the stream variant: its two file loops and what it writes to the
    stream for each command. */
module ClientTcp {
  import opened ByteStrings
  import opened Chunking
  import opened Wrappers
  import opened TcpStream
  import opened Commands

  /** `send_file`: the file in `fp.read(1024)` pieces, and nothing after them. */
  method SendFile(data: Bytes) returns (sent: seq<Bytes>)
    ensures sent == Eager(data)
    ensures Concat(sent) == data
    ensures forall q :: 0 <= q < |sent| ==> 0 < |sent[q]| <= Piece
  {
    sent := [];
    var i := 0;
    while i * Piece < |data|
      invariant i == 0 || (i - 1) * Piece < |data|
      invariant i <= |Eager(data)| && sent == Eager(data)[..i]
      decreases |Eager(data)| - i
    {
      EagerStep(data, i);
      sent := sent + [data[i * Piece..Min(i * Piece + Piece, |data|)]];
      i := i + 1;
    }
    EagerCount(data, i);
    EagerSizes(data);
    EagerConcat(data);
  }

  /** `receive_file`: write every read, the short last one included, and stop after
      the first read shorter than 1024 bytes. */
  method ReceiveFile(received: seq<Bytes>) returns (written: Option<Bytes>)
    ensures written == UntilShort(received)
  {
    var file: Bytes := [];
    var i := 0;
    while i < |received|
      invariant i <= |received| && file == Concat(received[..i])
      invariant forall p :: 0 <= p < i ==> |received[p]| >= Piece
    {
      var data := received[i];
      ConcatPrefixStep(received, i);
      file := file + data;
      if |data| < Piece {
        FirstShortAt(received, i);
        return Some(file);
      }
      i := i + 1;
    }
    FirstShortNone(received);
    return None;
  }

  /** `receive_file` as the server's `send_file` calls for: stop at the read that ends
      with the server's NUL (or is short), and do not keep that NUL. */
  method ReceiveFileUntilMarker(received: seq<Bytes>) returns (written: Option<Bytes>)
    ensures written == UntilMarker(received)
  {
    var file: Bytes := [];
    var i := 0;
    while i < |received|
      invariant i <= |received| && file == Concat(received[..i])
      invariant forall p :: 0 <= p < i ==> !EndsTransfer(received[p])
    {
      var data := received[i];
      ConcatPrefixStep(received, i);
      file := file + data;
      if EndsTransfer(data) {
        UntilMarkerAt(received, i);
        if file != [] && file[|file| - 1] == Nul {
          file := file[..|file| - 1];
        }
        return Some(file);
      }
      i := i + 1;
    }
    return None;
  }

  /** How one command of `main`'s loop ends for the client. */
  datatype Result =
    | Rejected(command: Command)          // wrong token count or unknown word: exit
    | Unreadable(path: Bytes)             // `send_file` cannot open the file: exit
    | Answered(response: Bytes)           // the server's reply to `put` or `keyword`
    | Downloaded(name: Bytes, file: Bytes) // `get`: the file written under `name`
    | Downloading(name: Bytes, file: Bytes) // `get` still reading: `name` holds what it wrote so far
    | Quitting
    | Waiting                             // the reply to `put` or `keyword` has not come

  /** The `send` calls of one command, in order, and how the command ends. */
  datatype Turn = Turn(sent: seq<Bytes>, result: Result)

  /** One turn of `main`'s loop for a command line as `ParseCommand` reads it:
      `local` is the file at the `put` path if it can be read, and `received` what
      successive `recv(1024)` calls return. */
  function HandleCommand(command: Command, local: Option<Bytes>, received: seq<Bytes>): (t: Turn)
    ensures t.result.Rejected? <==> command.Usage? || command.Invalid?
    ensures t.result.Rejected? ==> t.sent == []
    ensures command.Get? ==> t.result.Downloaded? || t.result.Downloading?
    ensures command.Get? && t.result.Downloaded? ==>
      t.result.name == Basename(command.path) && Some(t.result.file) == UntilShort(received)
    ensures command.Get? && t.result.Downloading? ==>
      && t.result.name == Basename(command.path) && t.result.file == Concat(received)
      && forall p :: 0 <= p < |received| ==> |received[p]| >= Piece
  {
    match command
      case Usage(_) => Turn([], Rejected(command))
      case Invalid(_) => Turn([], Rejected(command))
      case Put(path) =>
        var header := [PutWord, Basename(path), [Nul]];
        (match local
          case None => Turn(header, Unreadable(path))
          case Some(data) =>
            Turn(header + Eager(data), if received == [] then Waiting else Answered(received[0])))
      case Get(path) =>
        (match UntilShort(received)
          case None => Turn([GetWord, path], Downloading(Basename(path), Concat(received)))
          case Some(file) => Turn([GetWord, path], Downloaded(Basename(path), file)))
      case Keyword(word, path) =>
        Turn([KeywordWord, word, [Nul], path], if received == [] then Waiting else Answered(received[0]))
      case Quit => Turn([QuitWord], Quitting)
  }
}
