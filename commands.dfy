/** The command line the clients read (`put <file>`, `get <file>`, `keyword <word>
    <file>`, `quit`) and the servers' dispatch on the command word. */
module Commands {
  import opened ByteStrings

  const Space: byte := 32

  const PutWord: Bytes := [112, 117, 116]  // put
  const GetWord: Bytes := [103, 101, 116]  // get
  const KeywordWord: Bytes := [107, 101, 121, 119, 111, 114, 100]  // keyword
  const QuitWord: Bytes := [113, 117, 105, 116]  // quit

  /** `s.split(sep)` with an explicit separator: every separator cuts, so two in a row
      give an empty token, and there is always at least one token. */
  function SplitOn(s: Bytes, sep: byte): (tokens: seq<Bytes>)
    ensures |tokens| >= 1
    ensures forall t :: t in tokens ==> sep !in t
  {
    if s == [] then [[]]
    else
      var rest := SplitOn(s[1..], sep);
      if s[0] == sep then [[]] + rest else [[s[0]] + rest[0]] + rest[1..]
  }

  /** `sep.join(tokens)`. */
  function Join(tokens: seq<Bytes>, sep: byte): Bytes
    requires |tokens| >= 1
  {
    if |tokens| == 1 then tokens[0] else tokens[0] + [sep] + Join(tokens[1..], sep)
  }

  /** Joining the tokens gives the line back. */
  lemma {:induction false} JoinSplit(s: Bytes, sep: byte)
    ensures Join(SplitOn(s, sep), sep) == s
  {
    if s != [] {
      var rest := SplitOn(s[1..], sep);
      JoinSplit(s[1..], sep);
      if s[0] != sep {
        if |rest| > 1 {
          assert rest == [rest[0]] + rest[1..];
          assert ([[s[0]] + rest[0]] + rest[1..])[1..] == rest[1..];
        }
      } else {
        assert ([[]] + rest)[1..] == rest;
      }
    }
  }

  /** Splitting a join of separator-free tokens gives the tokens back. */
  lemma {:induction false} SplitJoin(tokens: seq<Bytes>, sep: byte)
    requires |tokens| >= 1
    requires forall j :: 0 <= j < |tokens| ==> sep !in tokens[j]
    ensures SplitOn(Join(tokens, sep), sep) == tokens
    decreases |tokens|, |tokens[0]|
  {
    var t := tokens[0];
    if t == [] {
      if |tokens| > 1 {
        var s := Join(tokens, sep);
        assert s == [sep] + Join(tokens[1..], sep);
        assert s[1..] == Join(tokens[1..], sep);
        SplitJoin(tokens[1..], sep);
        assert tokens == [[]] + tokens[1..];
      }
    } else {
      var tokens' := [t[1..]] + tokens[1..];
      assert forall j :: 0 <= j < |tokens'| ==> sep !in tokens'[j] by {
        forall j | 0 <= j < |tokens'| ensures sep !in tokens'[j] {
          if j == 0 { assert forall b :: b in t[1..] ==> b in t; } else { assert tokens'[j] == tokens[j]; }
        }
      }
      SplitJoin(tokens', sep);
      var s := Join(tokens, sep);
      assert s[0] == t[0] && t[0] != sep;
      if |tokens| == 1 {
        assert s[1..] == Join(tokens', sep);
      } else {
        assert s[1..] == Join(tokens', sep) by {
          assert tokens'[1..] == tokens[1..];
          assert s == t + [sep] + Join(tokens[1..], sep);
        }
      }
      assert [t[0]] + t[1..] == t;
      assert tokens == [t] + tokens'[1..];
    }
  }

  /** A client command line, after the token-count checks. */
  datatype Command =
    | Put(path: Bytes)
    | Get(path: Bytes)
    | Keyword(word: Bytes, path: Bytes)
    | Quit
    | Usage(word: Bytes)    // a known command with the wrong number of tokens: the client exits
    | Invalid(word: Bytes)  // an unknown first token: the client exits

  /** The clients' `userInput.split(" ")` and the checks on `command[0]` and `len(command)`. */
  function ParseCommand(line: Bytes): (c: Command)
    ensures var head := SplitOn(line, Space)[0];
      && (c.Invalid? <==> head !in {PutWord, GetWord, KeywordWord, QuitWord})
      && (c.Quit? <==> head == QuitWord)
      && (c.Usage? ==> head in {PutWord, GetWord, KeywordWord})
  {
    WordsDistinct();
    var tokens := SplitOn(line, Space);
    var head := tokens[0];
    if head == PutWord then (if |tokens| != 2 then Usage(head) else Put(tokens[1]))
    else if head == GetWord then (if |tokens| != 2 then Usage(head) else Get(tokens[1]))
    else if head == KeywordWord then (if |tokens| != 3 then Usage(head) else Keyword(tokens[1], tokens[2]))
    else if head == QuitWord then Quit
    else Invalid(head)
  }

  lemma WordsDistinct()
    ensures PutWord != GetWord && PutWord != KeywordWord && PutWord != QuitWord
    ensures GetWord != KeywordWord && GetWord != QuitWord && KeywordWord != QuitWord
  {
    assert PutWord[0] != GetWord[0];
  }

  /** `put` is accepted exactly for `put <path>` with one space and a space-free path. */
  lemma ParsePut(line: Bytes, path: Bytes)
    ensures ParseCommand(line) == Put(path) <==> line == PutWord + [Space] + path && Space !in path
  {
    WordsDistinct();
    if ParseCommand(line) == Put(path) {
      var tokens := SplitOn(line, Space);
      JoinSplit(line, Space);
      assert tokens == [PutWord, path];
      assert Join(tokens[1..], Space) == path;
      assert path in tokens;
    }
    if line == PutWord + [Space] + path && Space !in path {
      SplitJoin([PutWord, path], Space);
      assert Join([PutWord, path], Space) == line;
    }
  }

  /** `get` is accepted exactly for `get <path>` with one space and a space-free path. */
  lemma ParseGet(line: Bytes, path: Bytes)
    ensures ParseCommand(line) == Get(path) <==> line == GetWord + [Space] + path && Space !in path
  {
    WordsDistinct();
    if ParseCommand(line) == Get(path) {
      var tokens := SplitOn(line, Space);
      JoinSplit(line, Space);
      assert tokens == [GetWord, path];
      assert Join(tokens[1..], Space) == path;
      assert path in tokens;
    }
    if line == GetWord + [Space] + path && Space !in path {
      SplitJoin([GetWord, path], Space);
      assert Join([GetWord, path], Space) == line;
    }
  }

  /** `keyword` is accepted exactly for `keyword <word> <path>`, three space-free tokens. */
  lemma ParseKeyword(line: Bytes, word: Bytes, path: Bytes)
    ensures ParseCommand(line) == Keyword(word, path) <==>
            line == KeywordWord + [Space] + word + [Space] + path && Space !in word && Space !in path
  {
    WordsDistinct();
    if ParseCommand(line) == Keyword(word, path) {
      var tokens := SplitOn(line, Space);
      JoinSplit(line, Space);
      assert tokens == [KeywordWord, word, path];
      JoinThree(KeywordWord, word, path, Space);
      assert word in tokens && path in tokens;
    }
    if line == KeywordWord + [Space] + word + [Space] + path && Space !in word && Space !in path {
      SplitJoin([KeywordWord, word, path], Space);
      JoinThree(KeywordWord, word, path, Space);
    }
  }

  lemma JoinThree(a: Bytes, b: Bytes, c: Bytes, sep: byte)
    ensures Join([a, b, c], sep) == a + [sep] + b + [sep] + c
  {
    assert [a, b, c][1..] == [b, c] && [b, c][1..] == [c];
    assert Join([b, c], sep) == b + [sep] + c;
    assert Join([a, b, c], sep) == a + [sep] + (b + [sep] + c);
  }

  /** The first token is everything before the first space. */
  lemma {:induction false} SplitHead(head: Bytes, rest: Bytes, sep: byte)
    requires sep !in head
    ensures SplitOn(head + [sep] + rest, sep)[0] == head
  {
    if head != [] {
      var s := head + [sep] + rest;
      assert s[1..] == head[1..] + [sep] + rest;
      assert sep !in head[1..] by { assert forall b :: b in head[1..] ==> b in head; }
      SplitHead(head[1..], rest, sep);
      assert [head[0]] + head[1..] == head;
    }
  }

  /** A line without the separator is one token. */
  lemma {:induction false} SplitWhole(s: Bytes, sep: byte)
    requires sep !in s
    ensures SplitOn(s, sep) == [s]
  {
    if s != [] {
      assert sep !in s[1..] by { assert forall b :: b in s[1..] ==> b in s; }
      SplitWhole(s[1..], sep);
      assert [s[0]] + s[1..] == s;
    }
  }

  /** `quit` does not count its tokens: `quit` alone or followed by a space and
      anything at all ends the client. */
  lemma ParseQuit(line: Bytes)
    ensures ParseCommand(line) == Quit <==>
            line == QuitWord || (|line| > |QuitWord| && line[..|QuitWord| + 1] == QuitWord + [Space])
  {
    WordsDistinct();
    assert Space !in QuitWord;
    var tokens := SplitOn(line, Space);
    if ParseCommand(line) == Quit {
      JoinSplit(line, Space);
      if |tokens| > 1 {
        assert line == QuitWord + [Space] + Join(tokens[1..], Space);
        assert line[..|QuitWord| + 1] == QuitWord + [Space];
      }
    }
    if line == QuitWord {
      SplitWhole(line, Space);
    } else if |line| > |QuitWord| && line[..|QuitWord| + 1] == QuitWord + [Space] {
      assert line == QuitWord + [Space] + line[|QuitWord| + 1..];
      SplitHead(QuitWord, line[|QuitWord| + 1..], Space);
    }
  }

  /** Any first token other than the four command words is rejected, whatever follows. */
  lemma ParseUnknown(head: Bytes, rest: Bytes)
    requires Space !in head && head !in {PutWord, GetWord, KeywordWord, QuitWord}
    ensures ParseCommand(head) == Invalid(head)
    ensures ParseCommand(head + [Space] + rest) == Invalid(head)
  {
    SplitWhole(head, Space);
    SplitHead(head, rest, Space);
  }

  /** What the servers' main loops do with a command word. */
  datatype Action = ReceiveUpload | ServeDownload | AnonymizeFile | Exit | Ignore

  /** Only the exact words `put`, `get`, `keyword` and `quit` do something; anything
      else is passed over and the loop waits for the next command. */
  function Dispatch(command: Bytes): (a: Action)
    ensures a == Ignore <==> command !in {PutWord, GetWord, KeywordWord, QuitWord}
    ensures command == PutWord ==> a == ReceiveUpload
    ensures command == GetWord ==> a == ServeDownload
    ensures command == KeywordWord ==> a == AnonymizeFile
    ensures command == QuitWord ==> a == Exit
  {
    WordsDistinct();
    if command == PutWord then ReceiveUpload
    else if command == GetWord then ServeDownload
    else if command == KeywordWord then AnonymizeFile
    else if command == QuitWord then Exit
    else Ignore
  }
}
