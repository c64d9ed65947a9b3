# A verified model of the anonymizer file-transfer core

The anonymizer is a pair of client/server programs, one pair over UDP and one
over TCP. They move files with `put` and `get`, and they ask the server to
replace a keyword in a text file with `X`s (`keyword`). This project models
the parts of the four programs that decide what goes over the wire and what
ends up in a file. It proves what those parts guarantee.

- **Stop-and-wait transfer over UDP** (`stopandwait.dfy`, `client_udp.dfy`,
  `server_udp.dfy`, `stopandwait_laws.dfy`).
  - Each peer's `send_file` and `receive_file` is an imperative method that
    loops over a script of arrivals (a datagram with its source address, or
    one second of silence). It returns the trace of what it sent and received
    and how it ended: delivered, saved, aborted or stalled.
  - Each method is proved equal to a recursive specification (`SendRun`,
    `ReceiveRun`). The protocol laws are lemmas about that specification:
    - the `LEN:` message comes first;
    - chunks and ACKs alternate;
    - a missing ACK aborts with exactly the chunks sent so far;
    - a bad `LEN:` is rejected before any chunk is read;
    - one ACK goes to the latest address for each chunk, then `FIN`;
    - the saved file is the concatenation of the chunks.
  - The headline lemma `StopAndWaitLaws.Lossless` joins either sender to the
    other side's receiver over a channel without loss. The receiver saves
    exactly the sender's bytes in `ceil(n/1000)` chunks, with as many ACKs and
    one `FIN`, and the sender closes.
- **Chunking and the `LEN:` codec** (`chunking.dfy`, `codec.dfy`): the chunk
  count, the slicing, reassembly, and `str`/`int` on the declared length.
- **Command lines and dispatch** (`commands.dfy`): the clients' `split(" ")`
  and token-count checks, and the servers' dispatch on the command word.
- **The anonymiser** (`anonymize.dfy`): `replace(keyword, 'X' * len(keyword))`,
  the `<stem>_anon.txt` output name, and the reply.
- **The TCP variant** (`tcp_stream.dfy`, `server_tcp.dfy`, `client_tcp.dfy`,
  `tcp_laws.dfy`).
  - Successive sends append to one byte stream. A reader sees that stream as
    a sequence of `recv` results.
  - The send loops, the receive loops that stop at the first short read, and
    the NUL-ended field reader are methods proved against specification
    functions.
  - One turn of each program's command loop is a function. Lemmas compose the
    client's bytes with the server's turn for `put`, `get` and `keyword`.

Byte strings are `seq<byte>`. Addresses are values. The file system is a map
from names to contents, or the file's bytes passed in. Each `sys.exit` is an
`Aborted` outcome (UDP) or a `Stop`/`Rejected` result (TCP).

The sender sets a 1-second timeout before its ACK loop (`settimeout(1)` at
client_udp.py:74 and server_udp.py:168) and never clears it. The timeout still
applies to the `FIN` read (client_udp.py:87, server_udp.py:181) and to the UDP
client's read of the server's reply (client_udp.py:92). Silence there raises an
uncaught `socket.timeout`, which ends the sender (`FinTimeout`,
`ResponseTimeout`).

## Model

| member | source | states |
|---|---|---|
| ByteStrings.Take | client_udp.py:81 | `recvfrom(n)` keeps the first `min(len, n)` bytes of a datagram and drops the rest |
| ByteStrings.Slice | client_udp.py:71 | Python's clamped slice `s[lo:hi]` has `min(hi, len) - lo` bytes when `lo <= hi` and `lo <= len`, else none |
| ByteStrings.Basename | client_tcp.py:120 | the base name is the longest suffix of the path without `/`; the byte before it, if any, is `/` |
| Chunking.NumChunks | client_udp.py:68 | for n > 0 the count k is the ceiling: k >= 1 and (k-1)·size < n <= k·size; for n <= 0 it is at most 0 (Python's floor division) |
| Chunking.Split | client_udp.py:71 | the comprehension yields NumChunks pieces for non-empty data and none for empty data |
| Chunking.SplitShape | client_udp.py:65-71 | every chunk but the last has exactly 1000 bytes, and the last has the remaining 1..1000 bytes |
| Chunking.SplitOf2500 | client_udp.py:65-71 | 2500 bytes travel as 1000, 1000 and 500 bytes |
| Chunking.ConcatSplitPrefix | client_udp.py:71 | the first i chunks concatenate to the first min(1000·i, n) bytes |
| Chunking.SplitConcat | server_udp.py:165 | concatenating the chunks in order gives the data back |
| Chunking.NumChunksOf | server_udp.py:162 | NumChunks is the unique k with (k-1)·size < n <= k·size |
| Chunking.SplitUnique | server_udp.py:165 | any cutting into full pieces plus a non-empty last piece is exactly the slicing comprehension |
| Codec.Decimal | client_udp.py:58 | `str(n)` gives at least one decimal digit, with no leading zero |
| Codec.DecimalRoundTrip | client_udp.py:58 | reading back the digits `str(n)` wrote gives n |
| Codec.ParseLenMessage | client_udp.py:128-142 | rejects exactly a missing `LEN:` prefix, a non-integer suffix, or a zero; any other integer, including a negative one, is accepted |
| Codec.LenRoundTrip | server_udp.py:54-68 | the receiver accepts the sender's `LEN:<n>` as n, and rejects it with ZeroLength when n = 0 |
| Codec.NegativeLengthAccepted | server_udp.py:56-61 | `LEN:-5` passes the check as -5 |
| Codec.ControlWordsDistinct | client_udp.py:88 | `ACK` and `FIN` differ and are 3 bytes each |
| Commands.SplitOn | client_udp.py:210 | `split(" ")` gives at least one token, and no token contains a space |
| Commands.JoinSplit | client_udp.py:210 | joining the tokens with spaces gives the line back |
| Commands.SplitJoin | client_tcp.py:108 | splitting a space-join of space-free tokens gives those tokens |
| Commands.ParsePut | client_udp.py:213-222 | `put` is accepted with path p if and only if the line is `put p` with p free of spaces |
| Commands.ParseGet | client_tcp.py:133-140 | `get` is accepted with path p if and only if the line is `get p` with p free of spaces |
| Commands.ParseKeyword | client_tcp.py:147-155 | `keyword` is accepted with (w, p) if and only if the line is `keyword w p` with three space-free tokens |
| Commands.ParseQuit | client_udp.py:274-280 | `quit` is recognised if and only if the line is `quit` or starts with `quit `; extra tokens are not checked |
| Commands.ParseUnknown | client_udp.py:282-285 | any other first token is rejected, whatever follows it |
| Commands.ParseCommand | client_udp.py:210-285 | the line is rejected if and only if its first token is not `put`, `get`, `keyword` or `quit`; it means quit if and only if that token is `quit`; a usage error comes only from `put`, `get` or `keyword` (the exact accepted forms are `ParsePut` to `ParseUnknown`) |
| Commands.Dispatch | server_tcp.py:149-190 | `put` receives an upload, `get` serves a download, `keyword` anonymises a file, `quit` exits; any other word does nothing (ignored, loop continues), and only such a word does |
| Anonymize.Anonymized | server_udp.py:214 | the result has the text's length, and each byte is unchanged or an `X` |
| Anonymize.AnonChangesOnlyKeyword | server_udp.py:214 | a byte changes only inside an occurrence of the keyword |
| Anonymize.AnonWithoutKeyword | server_tcp.py:108 | a text without the keyword (or with an empty keyword) is returned unchanged |
| Anonymize.AnonLeavesNoKeyword | server_tcp.py:108 | when the keyword is non-empty and has no `X`, no occurrence remains |
| Anonymize.AnonStepAt | server_udp.py:214 | after one step of the left-to-right scan (a replaced occurrence, or one kept byte), every later output byte is the anonymised rest's |
| Anonymize.AnonAfterKeyword | server_tcp.py:108 | past a replaced occurrence at the start, the output holds the keyword at s if and only if the anonymised rest holds it at s less the keyword's length |
| Anonymize.AnonAfterByte | server_tcp.py:108 | past a first byte that starts no occurrence, the output holds the keyword at s if and only if the anonymised rest holds it at s - 1 |
| Anonymize.XsAtStart | server_tcp.py:108 | no occurrence of an `X`-free keyword starts inside a replaced occurrence |
| Anonymize.NoMatchAtStart | server_tcp.py:108 | when the text does not start with an `X`-free keyword, neither does the output |
| Anonymize.MatchStarts | server_udp.py:214 | the starts of the occurrences the left-to-right scan replaces: each is an occurrence, and each starts at or past the end of the one before |
| Anonymize.MatchStartsComplete | server_tcp.py:108 | every occurrence of the keyword is either taken by the scan or starts inside a taken one |
| Anonymize.AnonMasks | server_udp.py:214 | byte by byte, the output is `X` inside a taken occurrence and the input byte everywhere else |
| Anonymize.AnonMasksOccurrence | server_tcp.py:108 | an occurrence that no earlier occurrence overlaps becomes exactly len(keyword) `X` bytes |
| Anonymize.AnonLeftToRight | server_udp.py:214 | occurrences are taken left to right without overlap: `aaa` with `aa` becomes `XXa` |
| Anonymize.AnonFileName | server_udp.py:220-221 | the output name is the name less its last four bytes (all of a shorter name), followed by `_anon.txt` |
| Anonymize.AnonFileNameAvoids | server_udp.py:220-221 | a byte found neither in the name nor in `_anon.txt` is not in the output name (so a base name gives a slash-free output name) |
| Anonymize.AnonNameOfTxt | server_tcp.py:114-115 | `<stem>.txt` gives `<stem>_anon.txt` |
| Anonymize.AnonOfTxt | server_tcp.py:104-129 | `<stem>.txt` is written to `<stem>_anon.txt` with the anonymised text, and the reply names both files |
| ServerUdp.Anon | server_udp.py:190-235 | the output name has no `/`, ends in `_anon.txt` and is the base name less its last four bytes before it; the output text is the anonymised text; the reply names the base name and the output name (`AnonOfTxtPath` gives the usual case) |
| ServerTcp.Anon | server_tcp.py:89-129 | the output name keeps the given name (directory included) less its last four bytes, then `_anon.txt`; the output text is the anonymised text; the reply names the given name and the output name (`KeywordServed` gives what the server writes) |
| ServerUdp.AnonOfTxtPath | server_udp.py:207-232 | for `dir/<stem>.txt` the output is `<stem>_anon.txt`; the reply names `<stem>.txt` and `<stem>_anon.txt`; the text keeps its length |
| ServerUdp.BasenameAfterSlash | server_udp.py:208 | the base name of `dir/name` is `name` when `name` has no `/` |
| StopAndWait.FirstDatagram | server_udp.py:51 | the `LEN:` read has no deadline: silences before the first datagram pass, and that datagram is the one read |
| ClientUdp.SendFile | client_udp.py:30-97 | the client's sender loop produces exactly the run `SendRun(Client, …)` prescribes for the script |
| ClientUdp.ReceiveFile | client_udp.py:100-191 | the client's receiver loop produces exactly the run `ReceiveRun(Client, …)` prescribes |
| ClientUdp.ReadChunks | client_udp.py:144-180 | the chunk reads after an accepted `LEN:`: first chunk, then the `range(1, num_chunks)` loop, each read ACKed to its source, then `FIN`; exactly the run `ChunkLoop(Client, …)` prescribes |
| ServerUdp.ReceiveFile | server_udp.py:30-121 | the server's receiver loop produces exactly the run `ReceiveRun(Server, …)` prescribes |
| ServerUdp.ReadChunks | server_udp.py:70-110 | the same chunk reads on the server, each ACKed to the address it came from, then `FIN` and `File uploaded.` to the latest address; exactly `ChunkLoop(Server, …)` |
| ServerUdp.SendFile | server_udp.py:124-187 | the server's sender loop, re-learning the address from each reply, produces exactly `SendRun(Server, …)` |
| ServerUdp.ServeGet | server_udp.py:263-273 | the first send is `True` or `False` to the client, and it reads `True` exactly when the file exists; then `send_file` runs with its whole trace and outcome, and a missing file ends the server |
| StopAndWaitLaws.AckLoopAlternates | client_udp.py:77-84 | in the ACK loop every send after the first follows a receive: no chunk goes out before something arrived after the previous one |
| StopAndWaitLaws.AckLoopOutcome | client_udp.py:77-97 | the loop aborts at the first silence among the remaining chunks' reads; it stalls if the script runs out; otherwise it ends as the FIN wait does |
| StopAndWaitLaws.AckLoopSent | client_udp.py:77-84 | the chunks sent are the remaining ones up to and including the one whose ACK timed out |
| StopAndWaitLaws.AckLoopThenFin | client_udp.py:86-97 | when every ACK arrives, the trace is two steps per chunk followed by the FIN wait |
| StopAndWaitLaws.AckLoopDestinations | server_udp.py:170-178 | the client sends every chunk to the same address; the server sends each next chunk to the source of the reply just received |
| StopAndWaitLaws.FinWaitSendsNothing | client_udp.py:86-97 | after the last ACK the sender only reads |
| StopAndWait.SendRun | client_udp.py:30-97 | the first step sends `LEN:<n>` to the peer; an empty file aborts right after it (`SendPacing` and `SendOutcome` give the rest) |
| StopAndWait.ReceiveRun | server_udp.py:30-121 | with no datagram in the script nothing is read and the run stalls; otherwise its first step reads the first datagram, cut to the control buffer (`ReceiveOutcome` gives the rest) |
| StopAndWaitLaws.SendPacing | client_udp.py:56-84 | `LEN:<n>` is always sent first; an empty file aborts right after it; later sends follow receives; addressing as above |
| StopAndWaitLaws.SendOutcome | client_udp.py:60-97 | over all scripts: AckTimeout(m) at the first silence m < ceil(n/1000); stalled when the script ends; otherwise the FIN wait's outcome |
| StopAndWaitLaws.SendStarts | client_udp.py:56-84 | a sender with data sends `LEN:<n>` and goes on to the ACK loop over its 1000-byte chunks |
| StopAndWaitLaws.AckPhaseOutcome | client_udp.py:77-97 | from the first chunk, the ACK loop aborts at the first silence among its reads, stalls on a short script, and otherwise ends as the FIN wait does |
| StopAndWaitLaws.SendSent | client_udp.py:65-84 | what goes out is `LEN:<n>` followed by the first min(m+1, ceil(n/1000)) chunks, where m is the first silence |
| StopAndWaitLaws.SendDelivered | client_udp.py:86-97 | a delivered outcome means non-empty data and a datagram for every ACK and for the FIN read; the socket is closed if and only if that last datagram reads `FIN` |
| StopAndWaitLaws.SendAbortsOnMissingAck | server_udp.py:170-178 | a silence while waiting for ACK i aborts with exactly i+1 chunks sent |
| StopAndWaitLaws.LostSecondAck | client_udp.py:77-84 | for 2500 bytes, one ACK then silence sends `LEN:2500` and the first two 1000-byte chunks, then aborts |
| StopAndWaitLaws.ChunkLoopOutcome | client_udp.py:165-173 | the receiver's loop aborts at the first silence (NoData for the first chunk), stalls on a short script, and saves otherwise |
| StopAndWaitLaws.ChunkLoopAllArrive | server_udp.py:90-116 | when all chunks arrive, the run is one receive and one ACK per chunk, then the closing sends to the last address, and the file is the chunks in arrival order |
| StopAndWaitLaws.ChunkPhaseAllArrive | server_udp.py:90-116 | a chunk phase whose every read is a datagram ACKs each chunk, sends the closing messages to the last source, and saves the chunks' concatenation |
| StopAndWaitLaws.AckTraceShape | client_udp.py:165-176 | the receive/ACK trace has two steps per chunk; its receives are the chunks and its sends are all `ACK`, each to the previous datagram's source |
| StopAndWaitLaws.AckTraceSendsAck | server_udp.py:94-102 | position q of the receive/ACK trace is a send exactly when q is odd; it is an `ACK` to the source of the receive before it |
| StopAndWaitLaws.ReceiveRejectsBadLen | server_udp.py:54-68 | the receiver rejects for reason e if and only if the first datagram fails the `LEN:` check with e; it then has read nothing else and sent nothing |
| StopAndWaitLaws.ReceiveOutcome | client_udp.py:147-173 | after an accepted `LEN:<n>` the receiver reads max(1, ceil(n/1000)) chunks; a silence aborts (NoData or Interrupted); a short script stalls; otherwise it saves those chunks' concatenation |
| StopAndWaitLaws.ChunkPhaseOutcome | client_udp.py:152-180 | with k reads due, the chunk phase aborts at the first silence (NoData for the first), stalls on a short script, and otherwise saves the first k chunks concatenated |
| StopAndWaitLaws.ReceiveAccepted | server_udp.py:50-91 | an accepted `LEN:` datagram is followed by the chunk loop for the declared count, starting at its source |
| StopAndWaitLaws.ReceiveSavedTrace | server_udp.py:74-116 | a saved run is: the `LEN:` receive, a receive and an ACK per chunk, then the closing sends, saving the chunks' concatenation |
| StopAndWaitLaws.SavedAccepted | server_udp.py:50-68 | only a receiver that accepted its `LEN:` datagram saves a file |
| StopAndWaitLaws.ChunkPhaseSaved | server_udp.py:79-116 | a chunk phase that saves got all its reads as datagrams, ACKed each, and sends the closing messages to the last source |
| StopAndWaitLaws.ReceiveSavedFile | client_udp.py:182-186 | the saved file is the concatenation of every received chunk in arrival order; nothing checks it against the declared length |
| StopAndWaitLaws.ReceiveSavedAcks | client_udp.py:155-180 | the receiver sends exactly one `ACK` per chunk and then `FIN` (the server adds `File uploaded.`); each ACK goes to the source of the chunk just read, and the closing sends go to the last chunk's source |
| StopAndWaitLaws.NegativeLengthReadsOne | server_udp.py:74-91 | `LEN:-5` is accepted, one chunk is still read, and it is saved |
| StopAndWaitLaws.AckLoopLossless | client_udp.py:77-84 | with an ACK for each chunk, the loop sends every chunk and moves on to the FIN wait |
| StopAndWaitLaws.LosslessSender | client_udp.py:30-97 | a sender answered by ACKs and the closing messages delivers `LEN:<n>` and every chunk, all to the receiver, and ends with the socket closed |
| StopAndWaitLaws.LosslessLenAccepted | server_udp.py:50-75 | the receiver accepts the sender's `LEN:<n>` and expects exactly as many chunks as the sender cut |
| StopAndWaitLaws.ChunksOfSplit | server_udp.py:95 | the sender's chunks fit the receiver's 1000-byte reads whole |
| StopAndWaitLaws.LosslessReceiveRun | server_udp.py:30-121 | fed the sender's datagrams, the receiver runs to the end and saves exactly the sender's data |
| StopAndWaitLaws.LosslessReceiver | server_udp.py:88-110 | that receiver sends exactly one ACK per chunk and the closing messages, all to the sender, and saves the data |
| StopAndWaitLaws.LosslessReceiveTrace | client_udp.py:162-180 | the receiver's sends, delivered, are the ACKs and closing messages the sender reads |
| StopAndWaitLaws.Lossless | client_udp.py:30-191 | either sender with the other side's receiver over a lossless channel: ceil(n/1000) chunks, each side receives exactly what the other sent, the receiver saves the sender's data, and the sender closes |
| TcpStream.FirstShort | server_tcp.py:46-50 | the loop stops at the first read shorter than 1024 bytes; every earlier read is full |
| TcpStream.FirstShortAt | client_tcp.py:75-79 | a short read at q with only full reads before it is where the loop stops |
| TcpStream.FirstShortNone | client_tcp.py:75-79 | with only full reads, the loop has not stopped |
| TcpStream.UntilShortEager | server_tcp.py:46-50 | read eagerly, a stream is written whole when its length is not a multiple of 1024; otherwise the loop waits for a read that never comes |
| TcpStream.EagerShortEnd | server_tcp.py:46-50 | a stream whose length is not a multiple of 1024 is returned whole at its one short read |
| TcpStream.EagerWholePieces | server_tcp.py:46-50 | a stream of whole 1024-byte pieces never gives a short read, so the loop does not return |
| TcpStream.EagerLast | client_tcp.py:46-50 | read eagerly, every piece but the last is full, and the last is short exactly when the length is not a multiple of 1024 |
| TcpStream.EagerPiece | client_tcp.py:47 | piece i is bytes 1024·i up to 1024·(i+1) of the data, clamped, as `fp.read(1024)` returns them |
| TcpStream.EagerCount | client_tcp.py:46-49 | the loop makes exactly as many pieces as it takes to reach the end of the data |
| TcpStream.EagerSizes | client_tcp.py:46-50 | every piece has 1 to 1024 bytes |
| TcpStream.EagerConcat | client_tcp.py:46-50 | the pieces concatenate to the data |
| TcpStream.FirstEnd | server_tcp.py:76-81 | the end-marker reader stops at the first read that is short or ends with NUL |
| TcpStream.FirstEndAt | server_tcp.py:76-81 | such a read at q, with none before it, is where that reader stops |
| TcpStream.UntilMarkerEager | server_tcp.py:76-81 | NUL-free content followed by one NUL comes back exactly through the end-marker reader, whatever its length |
| TcpStream.NulField | server_tcp.py:156-163 | the field has no NUL, and the stream is the field, one NUL and the rest; there is no field exactly when no NUL has arrived |
| TcpStream.NulFieldFraming | client_tcp.py:123-125 | a NUL-free field written with one NUL is read back exactly, whatever follows |
| ServerTcp.ReadField | server_tcp.py:156-163 | the byte-by-byte loop returns the bytes before the first NUL and consumes that NUL (NulField) |
| ServerTcp.ReceiveFile | server_tcp.py:30-55 | writes every read up to and including the first short one, then sends `File uploaded.`; it sends nothing while no short read has come |
| ServerTcp.ReceiveFileUntilMarker | server_tcp.py:46-50 | the corrected upload reader: stops at a short or NUL-ended read and drops the NUL |
| ServerTcp.SendFile | server_tcp.py:60-86 | sends the file in non-empty pieces of at most 1024 bytes, then exactly one NUL; the stream is the data followed by NUL |
| ServerTcp.Serve | server_tcp.py:149-190 | an unknown word changes nothing and continues; `quit` stops; every continuing command sends something; an exit changes no file; a waiting turn changes a file only for an upload whose name has arrived, and that name then holds every byte read after the NUL, because `receive_file` truncates the file before its first read (server_tcp.py:45) |
| ClientTcp.SendFile | client_tcp.py:30-53 | sends non-empty pieces of at most 1024 bytes whose concatenation is the file, with no terminator |
| ClientTcp.ReceiveFile | client_tcp.py:56-85 | writes every read up to and including the first short one |
| ClientTcp.ReceiveFileUntilMarker | client_tcp.py:75-79 | the corrected download reader: stops at a short or NUL-ended read and drops the NUL |
| ClientTcp.HandleCommand | client_tcp.py:104-175 | the client exits without sending anything if and only if the command is malformed or unknown; `get` saves under the base name of the path what the short-read loop collected; a `get` whose loop has not ended has already written every read, all of them full, under that name (client_tcp.py:74) |
| TcpLaws.PutFraming | client_tcp.py:119-126 | `put` puts `put`, the base name, one NUL and the file's bytes on the stream |
| TcpLaws.KeywordFraming | client_tcp.py:157-161 | `keyword` puts `keyword`, the keyword, one NUL and the file name on the stream |
| TcpLaws.GetAndQuitFraming | client_tcp.py:140-172 | `get` puts `get` and the path on the stream; `quit` puts `quit` |
| TcpLaws.PutServed | server_tcp.py:154-167 | a server reading `name`, NUL and the data stores the data under `name` and answers `File uploaded.` exactly when the data's length is not a multiple of 1024; otherwise it waits, with the data already written under `name` |
| TcpLaws.Upload | client_tcp.py:111-131 | what the client writes for `put` is what the server reads, and the server stores the file under its base name, answering only under the same length condition and otherwise waiting with the file written |
| TcpLaws.PutStallsOnWholePieces | server_tcp.py:46-50 | an empty upload, or one of exactly 1024 bytes, leaves the server waiting, with the data already written under the name |
| TcpLaws.UploadWithMarker | server_tcp.py:76-81 | with a trailing NUL on uploads, as the server's own `send_file` writes, a NUL-free file arrives exactly |
| TcpLaws.GetServed | server_tcp.py:169-172 | `get name` sends the file's pieces and one NUL when the file exists, and ends the server when it does not |
| TcpLaws.GetServedStream | server_tcp.py:169-172 | for a stored file, the bytes the server puts on the stream are the file followed by one NUL |
| TcpLaws.Download | client_tcp.py:133-145 | the server's stream is content + NUL; the client saves content + NUL under the base name when (length + 1) is not a multiple of 1024, and otherwise waits with content + NUL already written there |
| TcpLaws.GetDownload | client_tcp.py:75-79 | the client's `get`, reading a stream eagerly, saves the whole stream under the base name exactly when its length is not a multiple of 1024, and otherwise waits with the whole stream already written there |
| TcpLaws.DownloadKeepsMarker | client_tcp.py:75-79 | downloading a file holding `hello` saves `hello` followed by a NUL |
| TcpLaws.DownloadWithMarker | server_tcp.py:76-81 | the end-marker reader gets a NUL-free file back exactly from the server's stream |
| TcpLaws.KeywordServed | server_tcp.py:174-186 | `keyword w NUL name` writes the anonymised text to the derived name and answers with the reply naming both files |

## Left out

- Sockets are not modelled: creation, `bind`, `listen`, `accept`, `connect`, `settimeout` and `close`. A UDP socket is a script of arrivals, and one `Timeout` stands for one second without a datagram. A TCP connection is the byte stream after the command word.
- The file system: `open`, `read`, `write` and `os.path.isfile` become file contents passed in and contents returned, or a map from names to contents (TCP server). An `IOError` while writing the received file is not modelled.
- `validate_args` in all four programs is left out: it reads `sys.argv` and parses the port.
- `int()` is modelled as an optional sign and decimal digits. Surrounding whitespace, which Python 2 `int()` also takes, is not.
- Text encoding: the model covers ASCII file contents, file names and keywords only. It treats every `encode()` and `decode()` as the identity. In Python 2, `encode()` on a byte string first decodes it with the ASCII codec, and `decode()` uses that codec too. Any byte of 0x80 or above raises an uncaught `UnicodeDecodeError`, which ends the program. This happens for: the file being sent (client_udp.py:56, server_udp.py:150), before `LEN:` goes out; the file name (client_udp.py:230, client_tcp.py:124, server_tcp.py:163); the keyword (server_tcp.py:183, server_udp.py:214, server_tcp.py:108); and the reply (server_tcp.py:127, client_tcp.py:166).
- ClientUdp.SendFile: describes the program on ASCII data only; on data with a byte of 0x80 or above, the program exits at `data.encode()` before sending anything, and this is not modelled.
- ServerUdp.SendFile: describes the program on ASCII data only; on data with a byte of 0x80 or above, the program exits at `data.encode()` before sending anything, and this is not modelled.
- StopAndWaitLaws.SendOutcome: describes the program on ASCII data only; on data with a byte of 0x80 or above, the program exits at `data.encode()` before sending anything, and this is not modelled.
- StopAndWaitLaws.Lossless: describes the program on ASCII data only; on data with a byte of 0x80 or above, the program exits at `data.encode()` before sending anything, and this is not modelled.
- Printed messages, `raw_input`, and exit codes are left out. Each `sys.exit` is an outcome or result of its own.
- Reads that never return (a silent peer, or a stream that stops before a NUL or a short read) are `Stalled`, `Waiting` or (the TCP client's `get`) `Downloading` at the end of a finite script. A TCP receive loop that is still reading has already written what it read: the server's files map and the `Downloading` result hold it.
- TCP segmentation is fixed by one assumption: after the command word, each 1024-byte `recv` returns as much as has been sent, up to 1024 bytes (`Eager`). The command word itself is assumed to arrive alone in its `recv(1024)`. Coalesced or split reads, which the real stream allows, are not modelled.
- The UDP programs' `main` loops are modelled only in part. Their token checks are `Commands.ParseCommand`, the server's dispatch is `Commands.Dispatch`, and the `get` reply is `ServerUdp.ServeGet`. The datagrams the UDP client sends for each command (`put` and the base name, `get` and the path, the three `keyword` datagrams, `quit`) and its test of the `True` reply are not modelled as a function. Nor is the UDP server's reading of the file name before `receive_file`.
- `ServerUdp.Anon` and `ServerTcp.Anon` model only the pure part of `anon`: the output text, its name and the reply. Reading and writing the files is left out.
- ServerTcp.Serve: its contract covers dispatch and what changes. The outcome of each command is stated by the `TcpLaws` lemmas (`PutServed`, `GetServed`, `KeywordServed`), not by its own ensures.
- ClientTcp.HandleCommand: the `put` and `keyword` framing is stated by `TcpLaws.PutFraming` and `TcpLaws.KeywordFraming`, not by its own ensures.

## Findings

| source | as written | input that shows it | evidently intended | confidence | as-written member | corrected member |
|---|---|---|---|---|---|---|
| client_tcp.py:75-79 | the download loop writes every read, including the NUL byte the server's `send_file` (server_tcp.py:76-81) appends as an end marker, and stops only at a short read | `get` of a file holding `hello`: the saved file is `hello` followed by a NUL byte; a 1023-byte file arrives as one full read, and the client waits for ever | stop at the server's NUL marker and do not write it | not executed | TcpLaws.DownloadKeepsMarker | TcpLaws.DownloadWithMarker |
| server_tcp.py:46-50 | the upload loop ends only at a read shorter than 1024 bytes, and the client's `send_file` (client_tcp.py:46-50) sends no terminator | `put` of an empty file, or of a file of exactly 1024 bytes: no short read comes, and the server never answers | the client ends the upload with a NUL, as the server's own `send_file` does, and the server stops at it | not executed | TcpLaws.PutStallsOnWholePieces | TcpLaws.UploadWithMarker |

The command-loop functions `ServerTcp.Serve` and `ClientTcp.HandleCommand`
use the short-read readers as written, so that they stay faithful to the
programs. The corrected readers, `ClientTcp.ReceiveFileUntilMarker` and
`ServerTcp.ReceiveFileUntilMarker`, are proved against `TcpStream.UntilMarker`.
`TcpStream.UntilMarkerEager` shows that they return any NUL-free file exactly,
whatever its length.
