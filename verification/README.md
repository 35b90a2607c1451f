# A model of Rusdis, proved in Dafny

Rusdis is a Redis-like key-value server. This project models what its code does, in four components, and
proves properties of them that no single function shows on its own. Check everything with
`dafny verify dfyconfig.toml`.

- **RESP framing.** `RespSpec` says what `parse` computes, including the quota loop that regroups CRLF
  lines into the children of an array with one flat counter; `Parser` is the same code as loops over
  mutable locals. `QuotaWords` explains why a flat counter can recover nesting: the lines of a value form
  a word on which the counter stays positive before the last line. `Grouping` is about the groups of lines
  it makes and about its wrapping. `RoundTrip` and `Pipeline` turn that into exact laws for `parse` and
  `parse_multi_array`. `Commands`, `CommandParser` and `CommandWords` are the command parser and the
  printer that feeds replication. `ParseOutcomes` and `CommandExact` say what any text and any values are
  read as, well formed or not.
- **The executor.** `Executor` is `execute_multi_commands` as a function of the server's state and of one
  clock reading for each command. `Observations` says what clients see of it, with replies, arithmetic
  and limits written out. `Expiry` compares lazy deletion with a store that never deletes, `Replies` and
  `Framing` say when replies are well framed, `Connection` is the MULTI/EXEC/DISCARD loop while other
  connections act.
- **Replication.** `Stream` is the replica's loop over bytes, with its offset, and `StreamExact` what a
  single SET does to it, safe or not. `Replication` is the whole system as interleaved steps: lock,
  insert, send, unlock, count up, deliver, apply.
- **RDB files.** `RdbSpec` and `RdbReader` are the reader, `RdbLanguage` generates every byte string it
  may accept, `RdbExact` proves that it accepts exactly those. `Data` loads the datasets into databases
  that may share a map.

`Server` holds the in-place code of `src/main.rs`: a class over shared maps whose methods are proved
against the functions above.

## Main results

- A printed value parses back to itself if and only if its strings are single lines, its lengths fit i32
  and, inside an array, no payload looks like a header, except that the last one may announce one line
  (`RoundTrip.RoundTripAlone`); it does so before every following text if and only if no payload looks
  like a header at all (`RoundTrip.RoundTripAnywhere`). The plain law "parsing undoes printing" is false
  of the code because the quota loop also counts payload lines (src/parser.rs:160). The law holds however
  much payloads announce, although the counter wraps.
- Every list of values is read as a command if and only if it denotes it: words in any letter case, numbers
  in decimal that fit, the last PX, every star of a pattern rewritten (`CommandExact.ParseCommandExact`).
- Pipelined arrays come back in order if and only if each survives alone and offers no `*digit` inside
  (`Pipeline.PipelineExact`).
- A replication stream of safe SETs and GETACKs, cut at any frame boundaries, has the effect of running
  its commands, on the store, the offset and the acknowledgements (`Stream.StreamRefines`,
  `Stream.StreamStore`, `Stream.OffsetAccounting`). A single SET has its own effect if and only if it is
  safe (`StreamExact.SetStreamExact`).
- Over every interleaving of any number of clients and replicas, the master's map is what its SETs and
  INCRs make of the starting map, and each replica's map is the starting map plus the prefix of SETs it
  has applied (`Replication.Safety`, `Replication.ReachableReplay`). A replica that has read everything
  agrees with the master on a key if and only if no INCR changed it since its last SET
  (`Replication.ConvergenceExact`).
- A value is read back from its SET until its expiry and not from then on (`Observations.SetThenGet`), and
  the GET that finds it expired removes it (`Observations.GetRemoves`).
- Lazy expiry is invisible to SET and GET (`Expiry.LazyRefines`); INCR and KEYS see it exactly when they
  meet an entry that is expired but not yet removed (`Expiry.IncrExact`, `Expiry.KeysExact`).
- EXEC refines running the queued commands outside a transaction while other connections act between any
  two commands (`Connection.TransactionRefines`, `Connection.ExecIsDirectRun`), and its reply splits into
  the individual replies if and only if no queued command takes one of the branches that break a reply
  (`Replies.ExecReplyExact`).
- The RDB reader accepts a byte string if and only if the generator can produce it
  (`RdbExact.ReadRdbExact`); it rejects every prefix that stops before the final flag
  (`RdbExact.PrefixRejected`) and bounds its output by its input (`RdbExact.OutputBound`).

`Counterexamples` gives inputs on the failing side of these laws.

## Reading the model

- Text is ASCII: a byte index is a character index, and upper-casing is ASCII. The RDB reader turns each
  byte into one character, as the code does.
- Integers have the widths of the source. Arithmetic wraps around as in the release profile that
  README.md:44 of the repository builds; a debug build panics where the model wraps. The places are the
  quota counter (i32), the length of an INFO reply without sections (usize, 64 bits) and the replication
  offset (u64).
- A slice or index out of range is the outcome `Panic`, which ends the task.
- Time is in nanoseconds. A `Clock` gives one reading for each command executed. `horizon` is the last
  instant that the platform's clock type holds.
- `Inert` in the comments means: no CRLF and a quota of 0. The laws state the condition in full instead.
- Replication assumes that replicas are subscribed and counted, that the channel and the connections lose
  nothing, that reads end at frame boundaries, that both sides start from equal maps (the received RDB is
  decoded and dropped, src/main.rs:249), that clients only SET and INCR, and that clock readings plus
  expiries fit the clock type.
- A connection's timeline is its own buffers and the moves of the others, which may be anything. During
  EXEC the others may move before every queued command, because the code locks the map for each command.
- `isPattern` and `isMatch` stand for the regular expression library, and `listing` for the order in which
  a map visits its keys, which may be another one at every instant.
- `Short` asks for fewer than 2^31 - 3 lines, so that counting lines cannot leave i32.

## Model

| member | source | states |
|---|---|---|
| Text.SplitClean | src/parser.rs:100-102 | Every piece of a text split on CRLF is one line. |
| Text.SplitJoin | src/parser.rs:129-131 | Joining the pieces again gives the text back, with one more CRLF at its end. |
| Text.SplitUnlines | src/parser.rs:129-131 | Splitting undoes joining clean lines, whatever text follows them. |
| Decimal.ParseShow | src/command_parser.rs:392 | An unsigned number that fits the type is parsed back from its decimal. |
| Decimal.ParseShowInt | src/parser.rs:94 | A signed number that fits the type is parsed back from its decimal, sign included. |
| Decimal.ParseSignedExact | src/parser.rs:94 | A text is read as a signed number if and only if it is an optional sign, any zeros and the digits of a number that fits. |
| Decimal.ParseUnsignedExact | src/command_parser.rs:392 | A text is read as an unsigned number if and only if it spells one that fits, without a minus sign. |
| RespSpec.RegroupLength | src/parser.rs:151-181 | The quota loop collects at most the declared number of children, and their texts together are no longer than the lines they were made of although CRLF is appended to a possibly unterminated last piece; this is why every recursive call is on a shorter text. |
| QuotaWords.QuotaWord | src/parser.rs:151-173 | Over the lines of a value without header-like payloads the i32 counter starts at 1, stays positive, never exceeds the number of lines still to come, and is 0 exactly after the last line. |
| QuotaWords.RegroupFrame | src/parser.rs:155-173 | Lines on which the counter first reaches 0 at the end become exactly one child, and the loop goes on afresh after them. |
| QuotaWords.RegroupThrough | src/parser.rs:155-173 | Lines that keep the counter positive only extend the child being collected. |
| QuotaWords.RegroupShort | src/parser.rs:155-173 | If the lines announce more than there is, fewer children than declared are collected. |
| Grouping.ClosesExact | src/parser.rs:151-173 | The wrapping counter closes a child on a list of lines if and only if one more than what they announce, less their number, is a multiple of 2^32 at the end of the list and nowhere before. |
| Grouping.GroupsClose | src/parser.rs:155-173 | Whatever the lines, every child that the loop collects closes the counter at its end and not before. |
| ParseOutcomes.QuotaExact | src/parser.rs:184-225 | A header with a readable number announces one line or as many children as it says, and nothing if the number is negative. |
| ParseOutcomes.QuotaNone | src/parser.rs:184-225 | Every other line announces nothing. |
| ParseOutcomes.NoSymbol | src/parser.rs:51-72 | A text without one of the four symbols in front is refused. |
| ParseOutcomes.Unended | src/parser.rs:75-123 | Outside arrays a text without any CRLF is refused. |
| ParseOutcomes.SimpleOutcome | src/parser.rs:75-84 | A simple string is the rest of its line, whatever follows. |
| ParseOutcomes.IntegerOutcome | src/parser.rs:86-97 | An integer line is read as the i32 that it spells, and refused if it spells none. |
| ParseOutcomes.BulkOutcome | src/parser.rs:99-123 | For every header and second line: the declared length cuts a piece off, -1 is null, less is refused, too much panics, no number is refused. |
| ParseOutcomes.ArrayOutcome | src/parser.rs:125-182 | For every header: -1 is null, less is refused, no number is refused, and otherwise the groups of the other lines are read. |
| ParseOutcomes.FirstFailure | src/parser.rs:175-179 | The first child that fails decides the outcome of an array. |
| Parser.ParseValue | src/parser.rs:50-73 | The dispatch on the leading symbol computes `RespSpec.Parse`. |
| Parser.ParseArrayValue | src/parser.rs:125-182 | Header, null array, negative length, quota loop and recursion together compute `RespSpec.ParseArray`. |
| Parser.GroupLines | src/parser.rs:151-173 | The quota loop over mutable `left`, `qoda`, `tmp` and `protocol_vec` collects the children that `Regroup` defines. |
| Parser.ParseEach | src/parser.rs:175-179 | Children are parsed in order and the first failure is the outcome. |
| Parser.ParseMultiArray | src/parser.rs:23-48 | The scan with `first`, `pre` and `res_vec` parses exactly the frames cut at `*digit`, and panics after a stream that ends in `*`. |
| RoundTrip.ParseYieldsClean | src/parser.rs:75-182 | Whatever the input, no string leaf that the parser returns contains CRLF, at any depth. |
| RoundTrip.ParseEncode | src/parser.rs:50-225 | A clean value without header-like payloads, nested to any depth, is parsed back from its encoding followed by any text. |
| RoundTrip.ParseYieldsWidths | src/parser.rs:75-182 | Whatever the input, every length in the value returned fits i32. |
| RoundTrip.GroupLength | src/parser.rs:75-182 | Reading a value takes at least as many lines as printing it. |
| RoundTrip.ShiftedFails | src/parser.rs:151-181 | No list of values is read back from its own lines shifted by one. |
| RoundTrip.ItemsRobust | src/parser.rs:151-181 | Children that came back from exactly their own lines announce nothing; if the last one also took an empty line, its last payload announced one line. |
| RoundTrip.MisplacedSurplus | src/parser.rs:151-181 | Children printed one after the other are not read back from their own lines if any payload but the very last announces a line, or the last announces more than one; there is no bound on what payloads announce, so the wrapping of the counter is covered. |
| RoundTrip.NotRobustFails | src/parser.rs:125-182 | An array with such payloads does not come back. |
| RoundTrip.ComesBackSurvives | src/parser.rs:50-225 | Whatever comes back from its encoding is clean, fits and has no misplaced header-like payload, without any bound on its size. |
| RoundTrip.SurplusFails | src/parser.rs:151-181 | An array with any header-like payload is broken, if not by itself, then by a header that follows it. |
| RoundTrip.RoundTripAlone | src/parser.rs:50-225 | A value parses back from its encoding if and only if it is clean, its declared lengths fit i32 and, in an array, no payload looks like a header except that the last may announce one line. |
| RoundTrip.RoundTripAnywhere | src/parser.rs:50-225 | It parses back before every following text if and only if it is clean, its declared lengths fit i32 and, in an array, no payload looks like a header. |
| Pipeline.FramesCount | src/parser.rs:29-44 | The scan cuts as many frames as the text offers places, and one if it offers none. |
| Pipeline.FramesJoin | src/parser.rs:29-44 | Cutting loses nothing and keeps the order. |
| Pipeline.StreamRead | src/parser.rs:23-48 | A stream that is read does not end in `*` and is its frames, one for each place, each read by itself. |
| Pipeline.StreamOutcome | src/parser.rs:29-44 | A stream that ends in `*` panics after its frames are parsed; any other has the outcome of its frames. |
| Pipeline.FramesOfConcat | src/parser.rs:29-44 | Cutting a concatenation of frames gives exactly those frames, in order. |
| Pipeline.StarsOfValue | src/parser.rs:35 | A printed value offers one cut for each array header and those inside its strings, none at the seams between lines. |
| Pipeline.PipelineExact | src/parser.rs:23-48 | Pipelined arrays come back as they were, in order, if and only if each survives alone and none has a `*digit` inside. |
| Commands.ParseSetValue | src/command_parser.rs:375-426 | The SET that is broadcast parses back to the same key, value and u64 expiry. |
| Commands.ParseGetackValue | src/command_parser.rs:174-191 | A printed REPLCONF GETACK parses back to the same command. |
| Commands.ParsedCommandClean | src/command_parser.rs:60-96 | Commands read from clean values have single-line arguments, the rewritten KEYS pattern and the PSYNC id included. |
| CommandWords.ParseSpelled | src/command_parser.rs:60-373 | Every command is read back from its words, with its name in any mix of capitals and small letters. |
| CommandWords.LastPxWins | src/command_parser.rs:381-414 | The last PX decides the expiry whatever options come before it, and a bad number is an error. |
| CommandWords.UnknownOptionSkipped | src/command_parser.rs:407-408 | An option that is not PX changes nothing, wherever it stands among the others. |
| CommandExact.UpperExact | src/command_parser.rs:72 | Upper-casing gives a name if and only if the word is that name letter by letter, in capitals or small letters. |
| CommandExact.GlobStar | src/command_parser.rs:293-295 | A star in a pattern becomes a dot and a star, and what is around it is rewritten by itself. |
| CommandExact.GlobExact | src/command_parser.rs:291-299 | The rewritten pattern joins with `.*` exactly the pieces that the text joins with `*`. |
| CommandExact.OptionsExact | src/command_parser.rs:381-414 | The options of SET are read if and only if they are words other than PX and PXs with an unsigned number, and the last PX counts. |
| CommandExact.CapaExact | src/command_parser.rs:193-219 | The capabilities kept are those named by the words, in order, and anything but bulk strings is refused. |
| CommandExact.ParseCommandExact | src/command_parser.rs:60-426 | Values are read as a command if and only if they denote it: for every command, its words in any letter case, its arguments, its numbers and their limits. |
| CommandExact.ParseCommandRefuses | src/command_parser.rs:60-426 | Everything else is refused with an error, never a panic. |
| CommandParser.ParseSetCommand | src/command_parser.rs:375-426 | The option loop with its mutable `px` computes `Commands.ParseSet`, error cases included. |
| CommandParser.ParseReplconfCapaCommand | src/command_parser.rs:193-219 | The loop keeps the known capabilities in order and refuses an empty list. |
| CommandParser.ParseInfoCommand | src/command_parser.rs:241-261 | The loop keeps the known sections in order and refuses anything but bulk strings. |
| CommandParser.ParseKeysPattern | src/command_parser.rs:291-299 | The loop joins with `.*` the pieces that the text joins with `*`. |
| CommandParser.GenerateResp | src/utils.rs:11-41 | What is broadcast for a SET is the protocol encoding of its three or five bulk strings. |
| Framing.ValueFrame | src/parser.rs:151-173 | A printed value closes the quota exactly at its end if and only if what its payloads announce is a multiple of 2^32 and no part of it comes to such a multiple before; as long as they announce fewer than 2^32 lines, if and only if they announce none. |
| Framing.BulkFrame | src/main.rs:539-541 | A printed bulk string is one frame if and only if its length fits i32 and it does not look like a header. |
| Framing.BulksFrame | src/main.rs:570-576 | A printed array of any strings is one frame if and only if the strings settle: what they announce, less those read and those too long, cancels the missing children modulo 2^32 at the end and never before. |
| Framing.SettledPlain | src/main.rs:570-576 | While lengths fit i32 and announcements do not add up to 2^32, strings settle if and only if none looks like a header. |
| Framing.ChildrenExact | src/parser.rs:151-173 | The parser splits concatenated replies into exactly those replies if and only if each is one frame. |
| Framing.ArrayReply | src/parser.rs:125-182 | A text that begins with an array header parses to what its collected children parse to. |
| Executor.ExecuteAllAppend | src/main.rs:460-674 | Running two lists of commands one after the other is running their concatenation. |
| Replies.ExecuteClean | src/main.rs:500-602 | No command puts a CRLF into a clean store. |
| Replies.ExecuteAllClean | src/main.rs:460-674 | No run of commands does. |
| Replies.GetReplyLines | src/main.rs:535-543 | From a clean state a successful GET replies with a correct length line and one data line. |
| Replies.ReplyEncodes | src/main.rs:468-666 | Replies written with `format!` are the protocol encoding of the value they stand for; INFO as long as its length fits usize. |
| Replies.InfoEmpty | src/main.rs:603-642 | INFO without a section prints a wrapped length, and its reply is no frame. |
| Replies.ReplyFramed | src/main.rs:461-673 | From any clean state a single reply is one frame if and only if no branch that breaks it is taken: expiry overflow, invalid pattern, INFO whose counted length does not fit i32 (so without a section), REPLCONF ACK, unsupported command, a stored text that looks like a header or is too long, or found keys that do not settle. |
| Replies.FoundKeys | src/main.rs:564-568 | The filter loop of KEYS finds exactly the keys of the map that match. |
| Replies.ExecReplyExact | src/main.rs:454-677 | The reply to EXEC is `*n` and a body that the parser splits into exactly the n individual replies if and only if every command's reply is framed; nothing is asked of the sizes of replies. |
| Replies.ExecReplyParses | src/main.rs:454-677 | The repository's parser reads a framed EXEC reply as the array of what it reads from the individual replies. |
| Observations.SetThenGet | src/main.rs:500-549 | SET at t and GET at u: the value comes back exactly while u is before t plus the expiry in milliseconds, without an expiry always, and a GET from then on removes it. |
| Observations.SetOverflows | src/main.rs:504-513 | A SET whose expiry the clock cannot hold is refused and changes nothing, and no other SET is refused. |
| Observations.SetTouches | src/main.rs:515-527 | SET touches its key only, and is broadcast exactly if the server is a master with a replica. |
| Observations.GetRemoves | src/main.rs:529-549 | GET answers nil exactly if the key is absent or its expiry has come; then the key is gone, otherwise nothing has changed. |
| Observations.GetThenIncr | src/main.rs:529-602 | After a GET at the same reading INCR agrees with the store that never deletes. |
| Observations.ExpiredCounter | src/main.rs:529-602 | An expired counter that is read starts again from 1, without its expiry. |
| Observations.IncrObserved | src/main.rs:585-600 | INCR counts every number below 9223372036854775807 up, leaves that one, and refuses what is no i64. |
| Observations.IncrTouches | src/main.rs:578-602 | INCR touches its key only and keeps its expiry. |
| Observations.InfoObserved | src/main.rs:603-642 | INFO replies with one bulk string of the sections asked for, each its role, replication id and decimal offset on three lines. |
| Observations.OthersLeave | src/main.rs:460-674 | Every command but SET, GET and INCR leaves the server as it is. |
| Observations.FixedReplies | src/main.rs:461-673 | The fixed replies, and that of ECHO. |
| Observations.ConfigObserved | src/main.rs:467-498 | CONFIG GET replies with the parameter's name and its value or nil. |
| Observations.AckObserved | src/main.rs:653-667 | GETACK is answered with the offset in decimal. |
| Observations.KeysInOrder | src/main.rs:564-568 | KEYS lists the matching keys in the order in which the map visits them. |
| Expiry.LazyStep | src/main.rs:500-602 | One command keeps the relation between the lazy store and the one that never deletes, with equal replies; KEYS may list the same keys in another order. |
| Expiry.LazyRefines | src/main.rs:500-602 | With a non-decreasing clock every reply of a run equals that of a store that never deletes, as long as no INCR meets an entry that is expired but not yet removed, and no KEYS one that matches. |
| Expiry.SetGetTimely | src/main.rs:500-549 | Runs of SET and GET always satisfy that condition. |
| Expiry.IncrExact | src/main.rs:578-602 | INCR agrees with the store that never deletes if and only if its entry is not expired and still there. |
| Expiry.KeysExact | src/main.rs:550-576 | KEYS lists the keys that the store that never deletes lists if and only if no key that matches is expired and still there. |
| Expiry.IncrRun | src/main.rs:578-602 | k INCRs of a decimal n, or of an absent key, leave the canonical decimal of n + k saturated at the largest i64, keep the expiry, touch no other key, and reply with each value on the way. |
| Expiry.IncrRefused | src/main.rs:598-600 | A value that is no i64 is never altered by any number of INCRs. |
| Stream.SetItemSafe | src/main.rs:264-270 | A SET reaches the replica's executor intact if and only if key and value are single lines without `*digit`, fit i32 in length and do not look like headers; a value at the very end may announce one line. |
| Stream.ChunkOutcomes | src/main.rs:254-300 | A read that is empty or panics ends the replica's loop, and one that does not parse is dropped whole. |
| Stream.SilentCommand | src/main.rs:264-295 | What is no command is dropped; every command but SET and GETACK is executed without an answer and without being counted. |
| Stream.CountedIsFrame | src/main.rs:279-291 | The closed form of the byte count is the length of the whole frame less nine. |
| Stream.ChunkRefines | src/main.rs:262-299 | One read that ends at a frame boundary has the effect of running its commands. |
| Stream.StreamRefines | src/main.rs:254-300 | However the stream is cut at frame boundaries into non-empty reads, reading it gives the store, offset, acknowledgements and clock use of running its commands. |
| Stream.StreamStore | src/main.rs:266-273 | The replica's state is, but for the offset, the one that executing the commands directly gives. |
| Stream.OffsetAccounting | src/main.rs:277-295 | The offset advances by the bytes of every SET frame less nine for each, modulo 2^64, and by nothing else. |
| Stream.SetStreamBytes | src/utils.rs:11-41 | In a stream of SETs those bytes are all bytes. |
| Stream.GetackReply | src/main.rs:653-667 | A GETACK anywhere in the stream is answered with exactly the offset reached before it. |
| StreamExact.SetEffectRead | src/main.rs:262-299 | A replica that ends up as after one SET has read a SET whose frame is as long as the one sent. |
| StreamExact.ReadSize | src/parser.rs:125-182 | A SET read from a text prints at most two bytes longer than the text. |
| StreamExact.SetRead | src/parser.rs:75-182 | A printed SET that is read as a SET of at least its size was read string by string: nothing in it looks like a header, except a value at the very end. |
| StreamExact.SetStreamExact | src/main.rs:254-300 | What a replica does with one SET is that SET's effect on store, offset and clock if and only if the SET is safe; otherwise the text is dropped, the loop ends or other commands run. |
| Replication.CriticalSection | src/main.rs:515-527 | The four steps of a client, uninterrupted, are the executor's SET. |
| Replication.Exclusive | src/main.rs:515-527 | While a client holds the map lock no other takes it or counts up, the holder's steps come in order, and no client touches a replica. |
| Replication.ExplainsRun | src/main.rs:266-273 | Applying SETs keeps a map explained by the SETs applied so far. |
| Replication.ExplainsCount | src/main.rs:578-602 | An INCR on the master keeps its map explained by its writes. |
| Replication.InitInv | src/main.rs:429-446 | Equal maps, an empty log and free lock satisfy the invariant. |
| Replication.StepInv | src/main.rs:429-446 | Every step of every task keeps the invariant. |
| Replication.Safety | src/main.rs:254-300 | In every reachable state the master's map is explained by its writes, whose SETs are those broadcast and the lock holder's unsent one, and each replica's by the prefix of the log it has applied. |
| Replication.CatchUp | src/main.rs:429-446 | From every reachable state a replica can read the whole log by steps of its own, and nothing else changes. |
| Replication.ReachableReplay | src/main.rs:515-527 | Without expiries these maps are exactly the replays of those writes on the starting map. |
| Replication.Convergence | src/main.rs:429-446 | Without INCR a replica that has read everything holds the master's keys and values, and an expiry exactly where the master has one. |
| Replication.DriftMoves | src/main.rs:578-602 | INCRs since the last SET of a key either leave its value as it was or move it to one that no further INCR turns back. |
| Replication.ConvergenceExact | src/main.rs:578-602 | A replica that has read everything agrees with the master on a key if and only if no INCR since that key's last SET changed its value. |
| Connection.TimelineInv | src/main.rs:310-425 | In every run the queue is empty outside a transaction and never holds MULTI, EXEC, DISCARD or PSYNC. |
| Connection.TimelineClean | src/main.rs:313-425 | Whatever buffers a client sends, no key or value comes to contain CRLF. |
| Connection.RefusedOutside | src/main.rs:386-410 | Outside a transaction EXEC and DISCARD are refused, each with its own line, and nothing else happens. |
| Connection.RefusedRun | src/main.rs:386-410 | However often they come, they change neither server, queue nor clock. |
| Connection.BufferOutcomes | src/main.rs:321-384 | A text that does not parse ends the connection, as does PSYNC without an id; what is no command does nothing, as does PSYNC with an id. |
| Connection.ClosedStays | src/main.rs:313-321 | After its end a connection answers nothing and touches nothing. |
| Connection.QueueRun | src/main.rs:411-420 | Inside a transaction commands are queued in order and answered with QUEUED, the server moves only as others move it, and no clock reading is taken. |
| Connection.TransactionRefines | src/main.rs:386-400 | MULTI, any buffers, EXEC, while other connections act between any two commands, also those of the transaction: the server ends where running the queued commands in order among the others leads, and the replies are OK, those of the buffers, and `*n` with the individual replies. |
| Connection.DiscardLeavesNoTrace | src/main.rs:401-410 | MULTI, any buffers, DISCARD leaves the server as the others left it and the connection as it was, with every reply as stated. |
| Connection.DirectRun | src/main.rs:411-416 | Outside a transaction buffers run one by one among the others, each with its own reply. |
| Connection.ExecIsDirectRun | src/main.rs:386-416 | EXEC does to the server what its commands do when sent one by one outside a transaction under the same moves of the others, and replies `*n` and the same replies. |
| Connection.QuietExecute | src/main.rs:454-677 | When nobody else acts this is the executor's loop alone. |
| RdbLanguage.DecodeLengthText | src/rdb_file_reader.rs:285-386 | Every width and special encoding of a number is decoded back to it, and nothing after it is touched. |
| RdbLanguage.DecodeStringText | src/rdb_file_reader.rs:250-283 | Raw strings with any length width and numbers stored as strings are decoded back. |
| RdbLanguage.ReadPairText | src/rdb_file_reader.rs:138-193 | A pair with no expiry, seconds or milliseconds is read back. |
| RdbLanguage.ReadDatabaseText | src/rdb_file_reader.rs:125-203 | A database is read back with as many pairs as one of its two table sizes, and no fewer than the other. |
| RdbLanguage.ReadRdbText | src/rdb_file_reader.rs:38-226 | A whole file is read back for every version, aux list, datasets and choice of encodings, whatever follows the final flag. |
| RdbExact.DeriveRdb | src/rdb_file_reader.rs:38-226 | Every accepted byte string was generated by some file. |
| RdbExact.ReadRdbExact | src/rdb_file_reader.rs:38-226 | The reader accepts a byte string, with a given file and remainder, if and only if it is a legal text of that file followed by a remainder that begins with 0xff. |
| RdbExact.AppendStable | src/rdb_file_reader.rs:51-219 | Bytes appended to an accepted string change nothing but the remainder. |
| RdbExact.TrailerIgnored | src/rdb_file_reader.rs:214-217 | The bytes after the final flag may change freely. |
| RdbExact.PrefixRejected | src/rdb_file_reader.rs:51-219 | Every prefix that stops before the final flag is rejected with an error. |
| RdbExact.OnlyErrors | src/rdb_file_reader.rs:38-386 | Every outcome of the reader is a file or its one kind of error. |
| RdbExact.OutputBound | src/rdb_file_reader.rs:136-200 | At most a third as many pairs as bytes, and at most two characters of text for each byte. |
| RdbReader.ReadLittle | src/rdb_file_reader.rs:144-155 | Shifting each byte to its place and adding computes the little-endian number. |
| RdbReader.ReadBig | src/rdb_file_reader.rs:350-364 | Shifting the result and adding each byte computes the big-endian number. |
| RdbReader.DecodeLength | src/rdb_file_reader.rs:285-386 | The match on the two high bits computes `RdbSpec.DecodeLength`. |
| RdbReader.DecodeString | src/rdb_file_reader.rs:250-283 | The byte loop computes `RdbSpec.DecodeString`. |
| RdbReader.ParseData | src/rdb_file_reader.rs:228-248 | Only the string type is read, as key and value. |
| RdbReader.ReadEntry | src/rdb_file_reader.rs:138-199 | One turn of the table loop reads one pair with its expiry. |
| RdbReader.ReadEntries | src/rdb_file_reader.rs:136-200 | The table loop reads the given number of pairs. |
| RdbReader.ReadTable | src/rdb_file_reader.rs:125-203 | A database after its flag. |
| RdbReader.ReadRdb | src/rdb_file_reader.rs:38-226 | The phase loop computes `RdbSpec.ReadRdb`; it ends because bytes left and then the phase's rank decrease. |
| Data.LoadedKeys | src/data.rs:115-117 | A loaded database holds exactly the keys of its pairs. |
| Data.LoadedIsLast | src/data.rs:115-117 | A loaded key holds the value and expiry of its last pair in file order. |
| Data.Collect | src/data.rs:102-117 | Collecting the pairs into a map gives the last-wins map. |
| Data.Admin.constructor | src/data.rs:97-125 | There are n or 16 databases, whichever is more; database i holds the last-wins map of dataset i in a map of its own, and the databases not loaded share one empty map. |
| Data.Admin.SelectDatabase | src/data.rs:127-131 | The index changes only to one in range, so it stays in range. |
| Data.Admin.GetStringDataMap | src/data.rs:133-136 | The map of the current database is returned itself, not a copy. |
| Data.Admin.InsertCurrent | src/data.rs:133-136 | An insert through the current map changes that database and those that share its map, and no other. |
| Data.Load | src/main.rs:103-128 | Start-up gives n or 16 databases, whichever is more, the first n those of the file if it is accepted, and all others empty. |
| Data.ReplicationInfo.ChangeRole | src/data.rs:42-44 | The role is replaced and nothing else. |
| Data.ReplicationInfo.IncrementOffset | src/data.rs:51-53 | The offset grows, modulo 2^64. |
| Server.Server.ExecuteCommand | src/main.rs:460-674 | One turn of the executor's loop changes the state and replies as `Executor.Execute` says. |
| Server.Server.ExecuteSet | src/main.rs:500-528 | Overflow check, insert, then broadcast if there is a replica. |
| Server.Server.ExecuteGet | src/main.rs:529-549 | An expired entry is removed and answered with nil. |
| Server.Server.ExecuteKeys | src/main.rs:550-576 | The pattern is compiled, the map's keys are filtered and printed. |
| Server.Server.ExecuteIncr | src/main.rs:578-602 | The entry is created if absent, counted up unless it is the largest i64, and left alone if it is no integer. |
| Server.Server.PrintInfo | src/main.rs:603-642 | The section loop with its running count prints the INFO reply. |
| Server.PrintKeys | src/main.rs:570-576 | The loop over the matched keys prints them as an array. |
| Server.FilterKeys | src/main.rs:564-568 | The loop over the map's keys keeps those that match, in order. |
| Server.CountSet | src/main.rs:279-291 | The running count computes the closed form. |
| Server.Server.ExecuteMultiCommands | src/main.rs:454-677 | The loop over commands computes `Executor.ExecuteMulti` on the state it updates in place. |
| Server.Server.ApplyBytes | src/main.rs:255-299 | One read of the replica loop computes `Stream.ApplyChunk`; an empty read ends the loop. |
| Server.Server.HandleBuffer | src/main.rs:314-424 | One turn of the connection loop computes `Connection.Advance` while nobody else acts. |
| Server.Server.HandleCommands | src/main.rs:307-427 | The connection loop with its mutable `is_multi` and `queue` computes `Connection.Timeline` while nobody else acts. |
| Counterexamples.HeaderLikePayload | src/parser.rs:160 | The array of `$1` and `x` is clean and does not come back. |
| Counterexamples.HeaderLikeLast | src/parser.rs:160 | The array of `x` and `$1` comes back alone and is broken by a header that follows. |
| Counterexamples.StarInValue | src/parser.rs:35 | SET of `a*1` does not have its effect on a replica. |
| Counterexamples.KeysCancel | src/parser.rs:160 | Over the keys `*2147483647`, `*+2147483647` and `*2` the reply of KEYS is one frame although each key looks like a header, because what they announce wraps around to nothing. |
| Counterexamples.StaleIncr | src/main.rs:578-602 | SET of 5 for a millisecond and INCR after two: the code replies 6, the store that never deletes 1. |
| Counterexamples.CountedOnMaster | src/main.rs:578-602 | An INCR after a SET makes a replica differ, one before it does not. |

## Left out

- Non-ASCII text, Unicode upper-casing and lossy UTF-8 decoding; the RDB version is kept as its four bytes.
- TCP, chunking below frame boundaries, task scheduling, the replication handshake and the bytes sent in reply to PSYNC; in the model PSYNC without an id ends the connection's loop.
- The regular expression library behind KEYS: which patterns it accepts and what they match is arbitrary.
- Random replication ids, command-line arguments, file opening, debug printing and error message text.
- Broadcast lag beyond the channel's capacity, replicas that join late or disconnect, and messages lost by either.
- Expiry instants on replicas: each replica adds PX to its own clock, so only the presence of an expiry is compared with the master, and GET on a replica or on the master during replication, which may delete an expired entry, is not a step.
- The RDB checksum and LZF strings, which the code does not read; negative special integers, which it reads as unsigned.
- Atomicity of a whole transaction between connections: the code does not provide it, and `Connection.TransactionRefines` does not claim it.
- Features of the repository's README without code (append-only file, snapshots, DEL) and the commented-out executor.
- RoundTrip.RoundTripAlone: stated for values of fewer than 2^31 - 3 lines, because beyond 2^32 lines even the counter of a harmless value may wrap to 0; `RoundTrip.ComesBackSurvives`, the other direction, has no bound.
- RoundTrip.RoundTripAnywhere: stated under the same bound.
- Pipeline.PipelineExact: stated under the same bound for each array.
- Framing.ValueFrame: that a value without header-like payloads is a frame is stated under the same bound.
- Stream.StreamRefines: what a stream does that holds several SETs, one of them not safe, is not stated; `StreamExact.SetStreamExact` is about one SET.
- StreamExact.SetStreamExact: stated for frames of fewer than 2^63 bytes, the most that a string of the source's language can hold.
- Replies.ReplyEncodes: INFO is excluded if its text is longer than usize can count, which no memory holds.
- Observations.InfoObserved: INFO is excluded in the same case.
