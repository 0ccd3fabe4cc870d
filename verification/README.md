# Verified model of the shell and the web server

Two programs of this repository are modelled and proved: the shell of `Project1` (how a typed line is
recognised, split, explained and run) and the web server of `Project6` (entity tags, the hand-off of
connections to worker threads, logging, request lines, URL decoding, byte ranges).

`dafny verify dfyconfig.toml` checks everything. One module per file:

| file | what it models |
|---|---|
| `CStrings.dfy`, `Buffers.dfy` | NUL-terminated text, buffers that hold it, `strpbrk` |
| `LineGrammar.dfy` | the line grammar and the counting recogniser `is_valid_line` |
| `LineSplitter.dfy` | `construct_split_commands`, the normal form of a line |
| `Blanks.dfy` | words, squeezing and trimming of blanks |
| `CommandExplainer.dfy` | `construct_command_explained`, in place on one buffer |
| `CommandRest.dfy` | `construct_command_explained_with_the_rest` |
| `WrittenCommand.dfy` | writing one command down, words and redirections in any order, and reading it back |
| `WholeLine.dfy` | the same for whole lines |
| `Descriptors.dfy` | the descriptor table, `control_command` |
| `Executor.dfy` | `control_split_commands` |
| `EtagHash.dfy`, `EtagTag.dfy` | the hash, the alphabet and the printing of entity tags |
| `Handoff.dfy` | listeners, one-shot epoll and workers, any interleaving |
| `Logger.dfy` | log records under one mutex per virtual host, any interleaving |
| `LineReader.dfy` | `read_line` and the header loop of `http_parse` |
| `UrlDecoder.dfy` | `url_decode` |
| `ByteRange.dfy` | `split_range` and the range decision of `send_file_gio` |

Loops and buffers of the source are methods with loops and arrays, each proved against a specification
function; the theorems about those functions are lemmas. A text is a `string` without NUL. The outcome of
calls into the system (does `open`, `fork` or `pipe` succeed, what status does a command return) is a
parameter, so every theorem holds for all outcomes.

## Where the code does less than it seems to promise

Each of these is a theorem that says exactly when the code does what is expected.

- The assertion at the end of the explainer stops the shell for `./ name` (a lone `./` followed by more
  words), and only then: `ConstructCommandExplained`, `SlotsSuffice`.
- A written command comes back whole exactly when its words precede its redirections, it has at most one
  input and one output, and no output sign is glued to the input name: `ExplainShow`. Otherwise every word
  after the first sign and every repeated redirection is dropped without notice (`cat <in -n` loses `-n`),
  and `<in>out` is one input name: `ExplainSees`.
- A command without a word stops the shell when its turn comes, after the commands before it have run:
  `ControlLine`.
- Rebuilding a command from no remaining argument writes one byte past an empty allocation:
  `ConstructWithTheRest`. Rebuilding from arguments that begin with `./` does not give the same arguments:
  `TailRebuilt`.
- Every command that redirects inside the shell leaves a saved copy of the descriptor open, or the output
  file if its input cannot be opened; this is all a line leaves behind: `Invoke`, `Run`.
- The tag of a string is that of a file with the same bytes for all texts of a length if that length is at
  most 20, and for no longer length: `StringAgrees`.
- Only the first 102 of the 160 hash bits reach an entity tag, so bytes 13 to 19 of every 20 never change
  it: `ServerTag`.
- A request line of exactly `n + 1` bytes is accepted and its terminator written one cell behind the
  buffer. At the end of the stream the last byte is repeated, and a cut-off line of `n` to `n + 2` bytes
  reaches one to three cells behind the buffer. No other stream does: `StaysInBuffer`, `ReadLine`.
- A request line of four words or more, and a field line of colons only, stop the server: `ParseHeader`.
- A suffix range `bytes=-a` is served as `bytes=a-`: `OpenRangeRead`, `OpenRangeBody`.
- The last byte of a file is never served, and a matching tag gives 416 with the body instead of 304:
  `SendFile`.
- A log file that cannot be opened by `log_write_info` keeps the mutex of its host locked for ever:
  `OpenFailureSticks`, `LocksHeld`, `StuckForever`. Two hosts that share a log file see unfinished records:
  `SharedFileTears`.

## Model

| member | source | states |
|---|---|---|
| LineGrammar.ParseSound | Project1/parser.c:26-88 | whatever the reference parser returns is a well-formed derivation whose text is the line |
| LineGrammar.ParseComplete | Project1/parser.c:26-88 | the grammar is unambiguous: every well-formed derivation is recovered from its text |
| LineGrammar.Scan | Project1/parser.c:40-86 | the counter loop computes the number of segments of the derivation, or a negative code exactly when there is none |
| LineGrammar.IsValidLine | Project1/parser.c:26-88 | for every line, non-negative iff the line is empty or derivable, and then the segment count of every derivation |
| LineGrammar.FurtherBad | Project1/parser.c:61-72 | after a mixed or too long operator run no continuation makes the line derivable |
| LineGrammar.FurtherSegment | Project1/parser.c:73-80 | text after a run of equal operator characters continues the line unless the run is a single ampersand |
| LineSplitter.ReadLinkage | Project1/parser.c:136-154 | reads exactly the linkage written there, one bar being a pipe, two an or, an ampersand an and, a semicolon anyway, and stops where the next segment begins; the failure branch is dead |
| LineSplitter.FillCommands | Project1/parser.c:122-155 | fills every slot of the two arrays with the segments and linkages of the derivation, and stops before the closing semicolon or nothing |
| LineSplitter.ConstructSplitCommands | Project1/parser.c:96-159 | refused iff not derivable; otherwise the commands and linkages of the only derivation, leaving nothing or one semicolon; the line is those commands with the characters of each linkage between them |
| LineSplitter.WrittenSplit | Project1/parser.c:122-155 | conversely, operator-free commands with the characters of any linkages between them, and perhaps a closing semicolon, are split into exactly these |
| LineSplitter.NormalForm | Project1/parser.c:122-155 | printing the split line is collapsing semicolon runs and dropping the closing one; that form splits the same and is a fixed point |
| LineSplitter.SplitPrint | Project1/parser.c:122-155 | splitting undoes printing for any operator-free commands and any linkages |
| Blanks.Compacted | Project1/parser.c:210-219 | squeezing blanks and trimming is joining the words by single blanks |
| Blanks.CompactTwice | Project1/parser.c:210-219 | compaction is idempotent |
| Blanks.WordsOfHead | Project1/parser.c:224-248 | cutting a text before its first stop character commutes with splitting it into words |
| CommandExplainer.SqueezeInPlace | Project1/parser.c:210-217 | the in-place loop, write index never past the read index, leaves the squeezed text |
| CommandExplainer.Compact | Project1/parser.c:205-221 | the buffer then holds the words of the input joined by single blanks |
| Buffers.TrimInPlace | Project1/parser.c:219 | the buffer then holds its text without trailing blanks |
| Buffers.Find | Project1/parser.c:235-236 | the first stop character or the end of the text held from a position on |
| CommandExplainer.CutInput | Project1/parser.c:229-246 | overwrites the input sign by NUL and reads the name after it |
| CommandExplainer.CutOutput | Project1/parser.c:247-270 | overwrites the output sign by NUL and reads the overwrite or append name, seeing an input sign already cut |
| CommandExplainer.CutRedirections | Project1/parser.c:224-271 | the three names, and what the buffer still holds: the text before the first sign |
| CommandExplainer.SlotsSuffice | Project1/parser.c:275-282 | arguments plus terminator equal the slots allocated, one less exactly for a command that begins with dot, slash and blank |
| CommandExplainer.FillArguments | Project1/parser.c:302-313 | the tokenising loop appends exactly the words, within the allocated slots |
| CommandExplainer.Tokenise | Project1/parser.c:274-315 | argument slots hold the tokens then NULL; slots written never exceed slots allocated; equal iff no detached prefix |
| CommandExplainer.TokensUnwords | Project1/parser.c:291-313 | the tokens of joined words are the words with a leading dot-slash split off |
| CommandExplainer.CommandText | Project1/parser.c:271-272 | the trimmed cut command is the words before the first redirection, joined by blanks |
| CommandExplainer.ConstructCommandExplained | Project1/parser.c:191-319 | for every text the specified arguments and file names; the final assertion fails iff the first command word is a lone dot-slash and more follow |
| CommandExplainer.ExplainSigns | Project1/parser.c:224-270 | an input file iff the text has a less-than sign, an output file iff it has a greater-than sign, appended to iff the first of these is followed at once by another |
| CommandRest.ParamsPlain | Project1/parser.c:302-314 | every argument of any built command is a word free of blanks, redirection signs and NUL |
| CommandRest.ExplainPlain | Project1/parser.c:191-319 | joined plain words explain to those words without redirections |
| CommandRest.JoinRest | Project1/parser.c:375-381 | the copying loops leave the remaining arguments joined by single blanks |
| CommandRest.ConstructWithTheRest | Project1/parser.c:367-387 | cells written equal cells allocated iff an argument remains; the result is the explanation of the joined rest |
| CommandRest.TailRebuilt | Project1/parser.c:362-387 | for every built command and non-empty tail of its arguments: exactly that tail comes back iff it does not begin with dot-slash or is just that |
| WrittenCommand.InputSeen | Project1/parser.c:229-246 | the first input of a written command is what the explainer reads, and exactly that name iff nothing is glued to it |
| WrittenCommand.OutputSeen | Project1/parser.c:247-270 | the first output is what the explainer reads, in its mode, and exactly that name iff nothing it still sees is glued to it |
| WrittenCommand.ExplainSees | Project1/parser.c:191-319 | for every arrangement of words and redirections: the words before the first sign, the first input and the first output, and nothing of the later ones |
| WrittenCommand.ExplainShow | Project1/parser.c:191-319 | for every arrangement and spacing: all words, inputs and outputs come back iff words come first, each redirection kind occurs at most once and no output sign is glued to the input name (or the assertion fails) |
| WholeLine.ReadCommands | Project1/controller.c:166-174 | splits the line and explains every command |
| WholeLine.RoundTrip | Project1/parser.c:96-319 | any written commands, joined as any derivation joins them: the linkages come back, and each command under exactly the condition above |
| WholeLine.PrintRoundTrip | Project1/parser.c:96-319 | the same for the printed line |
| Descriptors.FindCommandNameIndex | Project1/controller.c:78-86 | the index of the name, or the last index for every unknown name |
| Descriptors.NeedsFork | Project1/controller.c:88-93 | a process of its own is needed iff the name is none of the nine in-shell built-ins |
| Descriptors.Process.OpenFiles | Project1/controller.c:109-120 | succeeds iff all needed opens do; nothing that was open changes; exactly the needed files are new, or after a failure exactly the output file opened before it |
| Descriptors.Process.Redirect | Project1/controller.c:122-124 | saves a standard descriptor in a new one and redirects it |
| Descriptors.Process.Restore | Project1/controller.c:137-152 | puts the saved description back and closes the file |
| Descriptors.RedirectBoth | Project1/controller.c:122-152 | what the command sees on descriptors 0 and 1, and that undoing both redirections leaves only the saved copies |
| Descriptors.Process.Invoke | Project1/controller.c:104-155 | on every path, failed opens included, all descriptors refer to what they did before, and exactly the saved copies, or the output file opened before a failure, are new |
| Descriptors.Process.ControlCommand | Project1/controller.c:95-163 | the status of the command, or -1 iff its fork fails, or for one run in the shell an open; named files as its standard descriptors, truncated or appended to, else what it was given; nothing open before changes, a command with its own process leaves nothing, one run in the shell exactly its saved copies or the file of a failed redirection |
| Executor.EnterCommand | Project1/controller.c:187-211 | one round: the write end of the previous pipe is closed, every close hits the intended end, and only the read end for the next command and the leftovers of this one stay open |
| Executor.Run | Project1/controller.c:176-212 | for every line and every outcome of the calls: records, skips, statuses and connections as specified; the run ends early only at a command without a word; otherwise no pipe end is left open and the table gains exactly the leftovers of the commands entered |
| Executor.AllReturned | Project1/controller.c:182-199 | in the log of every run a command is skipped iff an and follows a failure or an or a success, and otherwise returns its own status, or -1 iff it could not be started |
| Executor.PipesConnect | Project1/controller.c:181-212 | in the log of every run a command reads a pipe iff it names no input file and its left neighbour was entered, linked by a bar and got a pipe; the shell then holds no write end of it |
| Executor.RefinesTree | Project1/controller.c:176-212 | the loop enters the same commands in the same order with the same status as evaluating the left-nested tree over the statuses of the environment |
| Executor.ReadOneOutput | Project1/parser.c:247-270 | no command of any line asks for both overwriting and appending |
| Executor.ControlLine | Project1/controller.c:166-223 | from the typed line to the end: refused iff not derivable, aborted iff some command trips the assertion, crashed iff a command without a word is entered, otherwise the run above |
| EtagHash.BitValue | Project6/etag_helper.c:42-49 | the bit that mask j selects is the binary digit of value 2^j |
| EtagHash.AddHash | Project6/etag_helper.c:42-49 | XORs the bits of a chunk into the hash and leaves the others |
| EtagHash.HashFile | Project6/etag_helper.c:102-109 | hash bit 8c+j is the parity of bit j over the positions congruent to c modulo 20 |
| EtagHash.ColumnIsParity | Project6/etag_helper.c:42-49 | the running parity is the parity of the set of positions that count |
| EtagHash.Linear | Project6/etag_helper.c:42-49 | the hash is linear over XOR of files of one length |
| EtagHash.FlipOne | Project6/etag_helper.c:42-49 | flipping one file bit flips exactly one, known, hash bit |
| EtagHash.Permuted | Project6/etag_helper.c:106-109 | the order of full chunks does not matter |
| EtagHash.HashString | Project6/etag_helper.c:79-84 | the string version hashes the beginning of its input once per chunk of its length |
| EtagHash.StringBitIs | Project6/etag_helper.c:79-84 | closed form: hash bit 8c+j of a text is bit j of its byte c iff its length has an odd number of positions congruent to c, and bytes after the first twenty never matter |
| EtagHash.LongDisagrees | Project6/etag_helper.c:79-84 | for every length above 20 a text without NUL whose first hash bit differs from that of the file |
| EtagTag.FloorLog2 | Project6/etag_helper.c:28-30 | the largest power of two not above the class size |
| EtagTag.FillAlphabet | Project6/etag_helper.c:31-36 | distinct members of the class, the smallest ones, in descending order |
| EtagTag.EtagInit | Project6/etag_helper.c:24-37 | an alphabet of exactly 2^po members with 2^po at most the class size and that below 2^(po+1) |
| EtagTag.DigitBits | Project6/etag_helper.c:56-66 | binary digit j of the number of a letter, lowest first, is the j-th hash bit of its group |
| EtagTag.Transform | Project6/etag_helper.c:56-66 | the packing loop ends, stays inside the alphabet, and letter k is the one whose number has bits k*po to k*po+po-1 as its binary digits, lowest first |
| EtagTag.TagsEqual | Project6/etag_helper.c:56-66 | two tags of one size are equal iff the first size*po hash bits are |
| EtagTag.TagPrefix | Project6/etag_helper.c:51-66 | a longer tag extends a shorter one |
| EtagTag.EtagGenerate | Project6/etag_helper.c:91-114 | the buffer holds the quoted tag of the column parities and the terminator |
| EtagTag.SameTag | Project6/etag_helper.c:91-114 | two files share a tag iff their column parities agree in the bits printed |
| EtagTag.EtagGenerateStr | Project6/etag_helper.c:67-87 | the buffer holds the quoted tag of the string hash and the terminator |
| EtagTag.StringAgrees | Project6/etag_helper.c:67-87 | for every tag size and alphabet: all NUL-free texts of a length get the tag of the file with the same bytes iff that length is at most 20 |
| EtagTag.ServerTag | Project6/server.c:208-209 | with 94 graphic characters and 20 cells exactly 102 parities decide the tag; positions 13 to 19 modulo 20 never do |
| Handoff.Keeps | Project6/processor.c:15-60 | every step of every thread keeps the ownership invariant |
| Handoff.SafeHandoff | Project6/server.c:407-424 | in every state of every run: exactly one owner per record, a life of accept, add, take, close, free by one listener and one worker, distinct numbers for unclosed records |
| Handoff.StepsMeanTheirOwn | Project6/server.c:366 | a worker closes its own record's socket, and a listener never finds its number registered |
| Handoff.NeverStuck | Project6/processor.c:15-60 | in every reachable state the owner of a record can take the next step of its life, and any waiting worker can take a registered record and gets that one |
| Handoff.ServesAnother | Project6/server.c:407-424 | every run with an accepting listener and a waiting worker goes on to a whole life of a new connection, after which all else is as before |
| Logger.KeepsLocks | Project6/logger.c:26-83 | every step keeps the lock discipline, whichever hosts share a log |
| Logger.Keeps | Project6/logger.c:26-83 | with a log per host every step of every logging thread keeps the whole invariant |
| Logger.WholeRecords | Project6/logger.c:26-83 | in every run a log with a free mutex is exactly the whole records closed so far; acquire and release alternate, each pair by one thread |
| Logger.RecordOfCall | Project6/logger.c:26-83 | every close adds the very record its thread was called with to the log of the host it was called for; a failing open marks the host of an info call and nothing for an error call |
| Logger.DoneWasCalled | Project6/logger.c:26-83 | every record in a log was given to some earlier call for a host with that log |
| Logger.CallCompletes | Project6/logger.c:26-83 | every run goes on to a whole call of either kind by an idle thread for a host with a free mutex: its record is added and the mutex free again |
| Logger.LocksHeld | Project6/logger.c:64-67 | in every run, shared logs or not: a mutex is stuck iff an info call failed to open its log; otherwise no thread holds two and exactly the threads inside hold one |
| Logger.StuckForever | Project6/logger.c:64-82 | a stuck mutex is never acquired or released again, and its own log never grows by a record |
| Logger.OpenFailureSticks | Project6/logger.c:64-67 | for every host a run of three steps that leaves its mutex stuck |
| Logger.SharedFileTears | Project6/logger.c:64-76 | for any two hosts that share a file some run shows an unfinished record under a free mutex |
| LineReader.Shift | Project6/http_helper.c:21-35 | the three-character register: all bytes but the last three are in the buffer, no line end passed |
| LineReader.ReadLine | Project6/http_helper.c:17-39 | for every stream: the bytes before CR LF and the stream after it, or the rest with its last byte repeated, or refusal; cells behind the terminator untouched |
| LineReader.LineOf | Project6/http_helper.c:17-39 | a CR LF line of at most n+1 bytes is returned exactly, a longer one refused |
| LineReader.StaysInBuffer | Project6/http_helper.c:29-37 | for every stream the number of cells written behind the buffer of the caller, and exactly when there are none |
| LineReader.ParseFirstLine | Project6/http_helper.c:41-60 | accepted with three words, refused with fewer, aborted with more |
| LineReader.ParseNormalLine | Project6/http_helper.c:91-116 | the token loop: never a third token; the name in lower case and the value, both without surrounding white space |
| LineReader.FieldOrNot | Project6/http_helper.c:91-116 | accepted iff the line is colons, a colon-free name, a colon and a value, name and value not empty; aborted iff it is colons only |
| LineReader.ParseHeader | Project6/http_helper.c:121-141 | the loop over the lines, with both line parsers, computes the specified outcome and leaves the specified stream |
| LineReader.HeaderRead | Project6/http_helper.c:121-141 | header lines, an empty line and a body: exactly those lines, the stream left at the body |
| LineReader.RequestAccepted | Project6/http_helper.c:121-141 | every accepted header is a request line of three words followed by field lines |
| LineReader.RequestRefused | Project6/http_helper.c:121-141 | the first wrong line decides: too long, a request line of fewer than three words or a line that is no field fails the request; a longer request line and a line of colons stop the server |
| LineReader.HeaderSent | Project6/http_helper.c:121-141 | conversely, for every stream accepted: those lines, an empty line and the rest; or just the lines; or a last line cut off, its repeated byte removed |
| UrlDecoder.FromHex | Project6/url.c:18-30 | the byte whose high and low half are written by the two digits, in either case |
| UrlDecoder.UrlDecode | Project6/url.c:12-40 | the output is the decoding, the write position never passes the read position, later cells are untouched |
| UrlDecoder.DecodeEncode | Project6/url.c:12-40 | decoding undoes encoding for every NUL-free text and every choice of escapes that escapes percent and plus |
| UrlDecoder.DecodeFixed | Project6/url.c:12-40 | decoding changes nothing iff there is no plus and no complete escape |
| ByteRange.SplitRange | Project6/http_helper.c:62-73 | the bounds given by the second and third token, with their defaults |
| ByteRange.RangeHeaderRead | Project6/http_helper.c:62-73 | the header bytes=a-b is read as a and b for all a and b |
| ByteRange.OpenRangeRead | Project6/http_helper.c:62-73 | bytes=a- is read as a and the greatest int, and so is bytes=-a |
| ByteRange.SendFile | Project6/server.c:189-246 | without a range all bytes but the last, and 200 unless the tag matches; 416 iff the tag matches, the file has fewer than two bytes or the range is empty or past the end; ranges reach at most the last byte but one; lengths agree |
| ByteRange.OpenRangeBody | Project6/server.c:189-246 | an open range, and a suffix range just the same, is served from a to the last byte but one |
| ByteRange.Tiling | Project6/server.c:189-246 | adjacent ranges tiling all bytes but the last concatenate to exactly that part of the file |

## Left out

- Allocation failures and the destructors: they only add branches for NULL.
- `is_valid_line(NULL)` and the particular negative code of a refused line: callers only look at the sign.
- 32-bit overflow of counters, file sizes of 2 GiB and more, and header bounds that do not fit an `int`.
- The iterator field `it`: its value is a parameter of `ConstructWithTheRest`.
- Executor.ControlLine: says nothing about the descriptor table of a shell that has crashed on a command without a word.
- fork, exec, wait, signals and readline: a command is a status chosen by the environment. A child whose `open` fails returns into the loop of the child process; that second shell is not modelled. `last_child_status_code` is not kept.
- Failure of `close`, `dup`, `dup2`, `epoll_wait` and `epoll_ctl` on valid arguments.
- The built-in commands themselves, and changes they make to the descriptor table.
- Short reads in the middle of a file being hashed.
- Handoff: records are numbered by allocation, so reuse of a freed address is not modelled; what a worker does between taking and closing is one step.
- Logger: text of the records; a record is any list of pieces. An error for a domain that is not a virtual host is a record for the terminal; an info call for one prints nothing and is no step.
- LineReader: NUL bytes in the stream and read errors; the map of fields that the line parsers fill (names and values are read, not kept), and the uninitialised value of a refused field line named range; reading the request body.
- ByteRange.SendFile: a negative send count is taken to send nothing, and sends are complete; header text, MIME types, directory listings and CGI are left out.
- Configuration, uthash, socket setup, timeouts and keep-alive.
