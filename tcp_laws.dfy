/** The two stream programs together: what the client writes for each command is
    what the server's readers take apart, provided the server's first `recv(1024)`
    returns exactly the command word and the rest is read as eagerly as the socket
    allows. */
module TcpLaws {
  import opened ByteStrings
  import opened Chunking
  import opened Wrappers
  import opened TcpStream
  import opened Commands
  import opened ClientTcp
  import ServerTcp
  import StopAndWait
  import Anonymize

  /** `put` writes the command word, the base name of the path, one NUL, and the file. */
  lemma PutFraming(line: Bytes, path: Bytes, data: Bytes, received: seq<Bytes>)
    requires ParseCommand(line) == Put(path)
    ensures Concat(HandleCommand(ParseCommand(line), Some(data), received).sent) == PutWord + Basename(path) + [Nul] + data
  {
    var header := [PutWord, Basename(path), [Nul]];
    ConcatOfAppend(header, Eager(data));
    EagerConcat(data);
    ConcatThree(PutWord, Basename(path), [Nul]);
  }

  /** `keyword` writes the command word, the keyword, one NUL, and the file name. */
  lemma KeywordFraming(line: Bytes, word: Bytes, path: Bytes, received: seq<Bytes>)
    requires ParseCommand(line) == Keyword(word, path)
    ensures Concat(HandleCommand(ParseCommand(line), None, received).sent) == KeywordWord + word + [Nul] + path
  {
    var sent := [KeywordWord, word, [Nul], path];
    assert sent == [KeywordWord, word, [Nul]] + [path];
    ConcatAppend([KeywordWord, word, [Nul]], path);
    ConcatThree(KeywordWord, word, [Nul]);
  }

  /** `get` writes the command word and the path; `quit` only the command word. */
  lemma GetAndQuitFraming(line: Bytes, received: seq<Bytes>)
    ensures ParseCommand(line).Get? ==>
      Concat(HandleCommand(ParseCommand(line), None, received).sent) == GetWord + ParseCommand(line).path
    ensures ParseCommand(line).Quit? ==> Concat(HandleCommand(ParseCommand(line), None, received).sent) == QuitWord
  {
    if ParseCommand(line).Get? {
      ConcatAppend([GetWord], ParseCommand(line).path);
      ConcatAppend([], GetWord);
    } else if ParseCommand(line).Quit? {
      ConcatAppend([], QuitWord);
    }
  }

  lemma ConcatThree(a: Bytes, b: Bytes, c: Bytes)
    ensures Concat([a, b, c]) == a + b + c
  {
    assert [a, b, c] == [a, b] + [c];
    ConcatAppend([a, b], c);
    assert [a, b] == [a] + [b];
    ConcatAppend([a], b);
    assert [a] == [] + [a];
    ConcatAppend([], a);
  }

  lemma {:induction false} ConcatOfAppend(xs: seq<Bytes>, ys: seq<Bytes>)
    ensures Concat(xs + ys) == Concat(xs) + Concat(ys)
    decreases |ys|
  {
    if ys == [] {
      assert xs + ys == xs;
    } else {
      var init := ys[..|ys| - 1];
      assert xs + ys == (xs + init) + [ys[|ys| - 1]];
      ConcatAppend(xs + init, ys[|ys| - 1]);
      ConcatOfAppend(xs, init);
      assert ys == init + [ys[|ys| - 1]];
      ConcatAppend(init, ys[|ys| - 1]);
    }
  }

  /** The server's side of `put`: the name up to the NUL, then the file up to the first
      short read, saved under that name and answered with `File uploaded.`. A file
      whose size is a multiple of 1024, the empty file included, never produces a
      short read: the server keeps waiting for data, and the client for the answer,
      while the name already holds every byte sent. */
  lemma PutServed(files: map<Bytes, Bytes>, name: Bytes, data: Bytes)
    requires Nul !in name
    ensures ServerTcp.Serve(files, PutWord, name + [Nul] + data) ==
      if |data| % Piece != 0 then ServerTcp.Turn([StopAndWait.Uploaded], files[name := data], ServerTcp.Continue)
      else ServerTcp.Turn([], files[name := data], ServerTcp.Waiting)
  {
    WordsDistinct();
    NulFieldFraming(name, data);
    UntilShortEager(data);
    EagerConcat(data);
  }

  /** A whole upload: the client writes `put` followed by what the server's `put`
      branch reads, and a file that is not a whole number of pieces is saved on the
      server under the path's base name. */
  lemma Upload(line: Bytes, path: Bytes, data: Bytes, files: map<Bytes, Bytes>, received: seq<Bytes>)
    requires ParseCommand(line) == Put(path) && Nul !in path
    ensures var rest := Basename(path) + [Nul] + data;
      && Concat(HandleCommand(ParseCommand(line), Some(data), received).sent) == PutWord + rest
      && ServerTcp.Serve(files, PutWord, rest) ==
           if |data| % Piece != 0
           then ServerTcp.Turn([StopAndWait.Uploaded], files[Basename(path) := data], ServerTcp.Continue)
           else ServerTcp.Turn([], files[Basename(path) := data], ServerTcp.Waiting)
  {
    var name := Basename(path);
    PutFraming(line, path, data, received);
    Regroup(PutWord, name, [Nul], data);
    BasenameKeepsOut(path, Nul);
    PutServed(files, name, data);
  }

  lemma Regroup(a: Bytes, b: Bytes, c: Bytes, d: Bytes)
    ensures a + b + c + d == a + (b + c + d)
  {
  }

  lemma BasenameKeepsOut(path: Bytes, b: byte)
    requires b !in path
    ensures b !in Basename(path)
  {
  }

  /** An empty file, or one of 1024 bytes, never finishes uploading, though the server
      has already written it under the name. */
  lemma PutStallsOnWholePieces(files: map<Bytes, Bytes>, name: Bytes, data: Bytes)
    requires Nul !in name && (|data| == 0 || |data| == 1024)
    ensures var t := ServerTcp.Serve(files, PutWord, name + [Nul] + data);
      t.next == ServerTcp.Waiting && t.files == files[name := data]
  {
    PutServed(files, name, data);
    assert |data| % Piece == 0;
  }

  /** With the end marker the server's `send_file` already writes, an upload of text
      without NUL bytes comes through whole, whatever its size. */
  lemma UploadWithMarker(data: Bytes)
    requires Nul !in data
    ensures Concat(Eager(data) + [[Nul]]) == data + [Nul]
    ensures UntilMarker(Eager(data + [Nul])) == Some(data)
  {
    EagerConcat(data);
    ConcatAppend(Eager(data), [Nul]);
    UntilMarkerEager(data);
  }

  /** The server's side of `get`: a path it can open is sent in pieces followed by a
      NUL; any other path makes it exit. */
  lemma GetServed(files: map<Bytes, Bytes>, path: Bytes)
    requires 0 < |path| <= Piece
    ensures ServerTcp.Serve(files, GetWord, path) ==
      if path in files then ServerTcp.Turn(Eager(files[path]) + [[Nul]], files, ServerTcp.Continue)
      else ServerTcp.Turn([], files, ServerTcp.Stop)
  {
    WordsDistinct();
  }

  /** A whole download as the client is written: the server's pieces and its NUL, read
      eagerly, are saved under the base name with the NUL as the file's last byte;
      and when the file and its NUL fill whole pieces the client waits for ever, with
      the file and its NUL already written under the base name. */
  lemma Download(path: Bytes, files: map<Bytes, Bytes>)
    requires 0 < |path| <= Piece && path in files
    ensures var content := files[path];
      var served := ServerTcp.Serve(files, GetWord, path);
      && Concat(served.sent) == content + [Nul]
      && HandleCommand(Get(path), None, Eager(Concat(served.sent))).result ==
           if (|content| + 1) % Piece != 0 then Downloaded(Basename(path), content + [Nul])
           else Downloading(Basename(path), content + [Nul])
  {
    GetServedStream(files, path);
    GetDownload(path, files[path] + [Nul]);
  }

  /** The server's answer to `get` of a stored file is the file and one NUL on the stream. */
  lemma GetServedStream(files: map<Bytes, Bytes>, path: Bytes)
    requires 0 < |path| <= Piece && path in files
    ensures Concat(ServerTcp.Serve(files, GetWord, path).sent) == files[path] + [Nul]
  {
    var content := files[path];
    GetServed(files, path);
    EagerConcat(content);
    ConcatAppend(Eager(content), [Nul]);
  }

  /** The client's `get` over a stream read eagerly: it saves the whole stream when its
      length is not a multiple of 1024, and otherwise has written it all and waits. */
  lemma GetDownload(path: Bytes, stream: Bytes)
    ensures HandleCommand(Get(path), None, Eager(stream)).result ==
      if |stream| % Piece != 0 then Downloaded(Basename(path), stream)
      else Downloading(Basename(path), stream)
  {
    UntilShortEager(stream);
    EagerConcat(stream);
  }

  const Hello: Bytes := [104, 101, 108, 108, 111]  // hello

  /** `hello` is downloaded as `hello` followed by a NUL byte. */
  lemma DownloadKeepsMarker(path: Bytes, files: map<Bytes, Bytes>)
    requires 0 < |path| <= Piece && path in files && files[path] == Hello
    ensures var served := ServerTcp.Serve(files, GetWord, path);
      HandleCommand(Get(path), None, Eager(Concat(served.sent))).result
        == Downloaded(Basename(path), Hello + [Nul])
  {
    Download(path, files);
    HelloRead(path);
  }

  /** The six bytes `hello` and NUL come in one short read and are saved whole. */
  lemma HelloRead(path: Bytes)
    ensures HandleCommand(Get(path), None, Eager(Hello + [Nul])).result == Downloaded(Basename(path), Hello + [Nul])
  {
    var s := Hello + [Nul];
    assert |s| % Piece == 6;
    GetDownload(path, s);
  }

  /** Read up to the end marker, a download of text without NUL bytes is saved exactly,
      whatever its size. */
  lemma DownloadWithMarker(files: map<Bytes, Bytes>, path: Bytes)
    requires 0 < |path| <= Piece && path in files && Nul !in files[path]
    ensures UntilMarker(Eager(Concat(ServerTcp.Serve(files, GetWord, path).sent))) == Some(files[path])
  {
    GetServed(files, path);
    UploadWithMarker(files[path]);
  }

  /** The server's side of `keyword`: the keyword up to the NUL, the file name in the
      next read; the anonymised text is saved under the derived name, and the reply
      names both files. */
  lemma KeywordServed(files: map<Bytes, Bytes>, word: Bytes, path: Bytes)
    requires Nul !in word && 0 < |path| <= Piece && path in files
    ensures var r := Anonymize.Anon(path, word, files[path]);
      ServerTcp.Serve(files, KeywordWord, word + [Nul] + path) ==
        ServerTcp.Turn([r.reply], files[Anonymize.AnonFileName(path) := Anonymize.Anonymized(files[path], word)],
                       ServerTcp.Continue)
  {
    WordsDistinct();
    NulFieldFraming(word, path);
  }
}
