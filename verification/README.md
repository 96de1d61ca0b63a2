# HoneyStrike in Dafny

A model of the stateful and byte-level cores of HoneyStrike, with proofs about all their inputs and all
their runs. Each module follows one source file. Code that works by changing things step by step is kept
in that form (methods with loops, classes with fields) and is proved equal to a specification function;
the theorems are lemmas about those functions.

| files | models |
|---|---|
| `bytes`, `utf8`, `decimal`, `numbers`, `sets` | byte strings with Python's slicing, UTF-8 text, `str(n)` and `int(b)`, minimum and maximum, cardinalities |
| `resp_protocol`, `resp_errors`, `resp_replies`, `redis_session`, `redis_pipeline`, `redis_quits`, `redis_trim` | the RESP parser, the canned replies, and the read and drain loop of one Redis connection |
| `ja3`, `client_hello`, `ja3_text` | the ClientHello parser, a printer for well-formed records, the JA3 string |
| `aggregator`, `aggregator_runs`, `aggregator_history` | the per-session event buffers of the intel worker |
| `worker`, `worker_runs`, `worker_theorems`, `worker_outcomes` | the intel worker's tracking map, persisting and acknowledging |
| `progression`, `progression_history` | XP, streaks, lessons, activity, badges |
| `duels`, `duel_runs`, `duel_effects`, `arena`, `arena_effects` | the two competitive games |
| `limiter` | the launch limiter of the play endpoints |
| `replay` | the replay score timeline |
| `shell`, `telnet`, `rdp` | the fake shell's line reader, Telnet option handling, the X.224 connection request |

Sockets, clocks, random ids, the database and Redis appear as inputs of the steps: the bytes of a read, a
`now`, a drawn id, whether a persist or an XACK succeeded. Every HTTP handler is one atomic step with one
`now`. Every handler method is proved equal to its case of the module's step function; the table below
lists those with loops and the theorems about runs of steps. Text is UTF-8 bytes: its
blanks are those of `str.isspace`, and `upper` is exact as far as its result is ASCII. Clock readings of the
aggregator and the limiter are exact reals.

## Where the code does not do what one might expect

Each of these is proved, together with the condition under which the expected property does hold.

* **A negative bulk length.** `int()` accepts one, and the slice then counts from the other end of the
  buffer. A finished command is final, whatever bytes follow, if and only if no bulk length points before
  the buffer (`RespProtocol.ParseStableIff`). It makes no progress if and only if its last body ends where
  Python counts back to the start (`RespProtocol.ConsumesNothingIff`); `*1 CRLF $-12 CRLF` is such a
  command, which the loop records until the cap (`RedisPipeline.StuckOnNegativeLength`).
* **QUIT.** It ends only the inner loop; the connection goes on reading. What is pipelined behind it waits
  for another read, and is lost when none comes. No cut of a stream loses a command if and only if, for
  every t, fewer than t QUITs with a command behind them complete within the last 4096 t bytes
  (`RedisQuits.ChunkInvarianceIff`). `upper` makes ASCII letters of ten other characters, so that a name
  with a dotless i is a QUIT as well (`RedisPipeline.DotlessQuit`).
* **The Redis buffer cap.** Where no command follows a QUIT, no cut of a stream is trimmed if and only if
  every unfinished frame leaves room for the next read (`RedisTrim.NeverTrimmedIff`). A command of one byte
  more than the cap is recorded as something else under every cut (`RedisTrim.TrimDamages`).
* **Two replies that cannot be read.** An unknown command whose name holds a CRLF breaks the one-line error
  that echoes it, and an echoed argument that is not ASCII is announced with its characters but sent with
  its bytes. Every other reply reads back as itself (`RespReplies.ReplyReadableIff`).
* **`max_sessions = 0`** evicts a new session before its event is stored: conservation holds for all runs
  if and only if the cap is positive (`AggregatorRuns.ConservationIff`).
* **Eviction does not touch the pending ids.** Under any limits, an evicted session that comes back has its
  old ids acknowledged although their events were never persisted (`WorkerTheorems.EvictedYetAcked`). With
  distinct events, an acknowledged event is in the database if and only if it was not evicted
  (`WorkerTheorems.AckedPersistedIff`), and a run evicts nothing if and only if it never opens a session
  while the buffers are at their cap (`WorkerTheorems.NoEvictionIff`).
* **Lessons are counted by `family:lesson`.** `lessonsDone` is the number of distinct lessons if and only
  if no two of them share that key (`ProgressionHistory.LessonsDoneCountIff`).
* **A final score of 0** is replayed as a bar that first rises (`Replay.WithinFinalIff`).
* **An unknown scenario** counts as a launch all the same, although nothing starts (`Limiter.LaunchDecides`).
* **A byte that is no dollar sign** where a bulk string should start leaves the Redis parser waiting for
  good (`RespErrors.NoDollarBlocks`).
* **An RDP request without a cookie** is read as such if and only if its protocol mask holds no CRLF, which
  is taken for the end of a cookie (`Rdp.NoLineIff`).
* **Blanks around an RDP user name** are stripped: the name comes back unchanged if and only if it neither
  starts nor ends with one (`Rdp.UserReturnedIff`).
* **Telnet subnegotiations.** `strip_iac` ends one at its first byte 0xF0, which may be data, and drops a
  doubled IAC, which is data: the text comes back exactly if and only if it holds no IAC and no payload has
  anything but IACs behind that byte (`Telnet.StripReturnsText`).
  `refuse_options` does not know them at all: it answers every request if and only if no DO or WILL stands
  behind a nonempty one with nothing but subnegotiations in between (`Telnet.RepliesAreRefusalsIff`). It
  even answers data that holds an IAC and a DO or WILL (`Telnet.DataIsAnswered`).
* **Long shell lines.** When a read overflows the buffer, the comment in
  `src/honeystrike/services/ssh/shell.py` says that what lies past the cap is dropped; the code drops the
  oldest 8192 bytes. No cut does this if and only if every pending part of a line, up to the end of the
  first exit line, leaves room for the next read (`Shell.NeverTrimmedIff`). A line of 15361 bytes is enough to
  change a command (`Shell.DamageIsVisible`).
* **An injected aggregator** that is empty has length 0 and counts as absent, so that the worker runs with
  the default limits whatever limits were injected (`Worker.FingerprintWorker.constructor`).

Three more comments differ from the code, which the model follows. The docstring of
`src/honeystrike/workers/intel/aggregator.py` flushes a buffer by the age of its oldest event; the code
uses its last event. A comment in `_flush` of `src/honeystrike/workers/intel/fingerprint.py` expects an
unacknowledged entry to be delivered again; the worker reads only entries never delivered before, so within
one process such an entry stays unacknowledged for good. In `src/honeystrike/services/rdp/pdu.py` the user
is said to follow the last `=` of the cookie line; the code takes what follows the first.

## Model

| member | source | states |
|---|---|---|
| Decimal.ParseIntOfPrint | src/honeystrike/services/redis_honeypot/protocol.py:45 | `int(str(n)) == n` for the model of Python's `int`, within the interpreter's digit limit |
| Decimal.PrintInjective | src/honeystrike/services/http/ja3.py:163-169 | different numbers have different decimal texts |
| Decimal.ParseIntForms | src/honeystrike/services/redis_honeypot/protocol.py:45 | digits may carry a sign and stand between blanks; more than 4300 of them are refused |
| Decimal.Underscores | src/honeystrike/services/redis_honeypot/protocol.py:58 | one underscore may stand between digits, two may not, nor a point |
| Bytes.FindCrlf | src/honeystrike/services/redis_honeypot/protocol.py:31 | the position found is a CRLF, no earlier one exists, and -1 means there is none |
| Bytes.FindCrlfStable | src/honeystrike/services/redis_honeypot/protocol.py:41 | the first CRLF does not move when more bytes arrive |
| RespProtocol.ParseCommand | src/honeystrike/services/redis_honeypot/protocol.py:19-37 | the branches as written compute the parse on which all results below are proved |
| RespProtocol.ParseRespArray | src/honeystrike/services/redis_honeypot/protocol.py:40-67 | the loop over the announced arguments, with all its early exits, computes that parse |
| RespProtocol.ParseStable | src/honeystrike/services/redis_honeypot/protocol.py:19-67 | a completed parse is unchanged by appended bytes, which only extend the rest, and it consumes something |
| RespProtocol.ParseStableIff | src/honeystrike/services/redis_honeypot/protocol.py:58-67 | a completed parse is final for every continuation exactly when no bulk length points before the buffer |
| RespProtocol.ConsumesNothingIff | src/honeystrike/services/redis_honeypot/protocol.py:58-67 | a completed parse makes no progress exactly when the last body ends at a position that Python takes for the start of the buffer |
| RespProtocol.RoundTrip | src/honeystrike/services/redis_honeypot/protocol.py:40-67 | parsing an encoded command followed by any bytes returns its arguments, CRLF included, and those bytes |
| RespProtocol.SplitGivesWords | src/honeystrike/services/redis_honeypot/protocol.py:36 | splitting any line gives nonempty words in which no blank starts |
| RespProtocol.InlineRoundTrip | src/honeystrike/services/redis_honeypot/protocol.py:30-37 | an inline line of words with any Unicode blanks but CR around them parses to exactly those words and leaves what follows; an empty line is one empty argument |
| RespErrors.BadCount | src/honeystrike/services/redis_honeypot/protocol.py:44-48 | an array header that is no number is consumed as a command of one empty argument |
| RespErrors.NoCount | src/honeystrike/services/redis_honeypot/protocol.py:49-67 | a count of zero or less is a command without arguments |
| RespErrors.BadLength | src/honeystrike/services/redis_honeypot/protocol.py:56-59 | a bulk length that is no number drops the arguments before it, and the rest starts behind its line |
| RespErrors.NoDollarBlocks | src/honeystrike/services/redis_honeypot/protocol.py:52-53 | a byte other than a dollar sign where a bulk string should start stops the parser, whatever follows |
| Utf8.TextCount | src/honeystrike/services/redis_honeypot/protocol.py:92-93 | the bytes that start a character count the characters of a text, which are as many as its bytes exactly for ASCII |
| Utf8.TakeCharsOfText | src/honeystrike/services/ssh/shell.py:167-169 | cutting the bytes of a text after n characters gives the bytes of its first n characters |
| Utf8.BlankRune | src/honeystrike/services/redis_honeypot/protocol.py:36 | the bytes taken for a blank are exactly the characters of `str.isspace` |
| Utf8.UpperOfRune | src/honeystrike/services/redis_honeypot/protocol.py:104 | upper-casing the bytes gives the ASCII letters of exactly the characters that have some, the ten beyond ASCII included |
| Utf8.StripSplits | src/honeystrike/services/ssh/shell.py:167-169 | stripping removes blanks at both ends, and all of them |
| RespReplies.ReadPrintIff | src/honeystrike/services/redis_honeypot/protocol.py:84-93 | a printed reply reads back as itself exactly when no CRLF breaks a one-line reply and no bulk string has more bytes than characters |
| RespReplies.ReplyReadableIff | src/honeystrike/services/redis_honeypot/protocol.py:96-134 | for arguments that are UTF-8 texts, every reply reads back as itself except an unknown command name containing CRLF and an echoed PING or CONFIG GET argument that is not ASCII |
| RespReplies.AccentUnreadable | src/honeystrike/services/redis_honeypot/protocol.py:92-93 | PING with an accented letter is answered with bytes that are no reply |
| RespReplies.RceIff | src/honeystrike/services/redis_honeypot/protocol.py:116-127 | exactly CONFIG SET of dir or dbfilename, in any case, is flagged as an attempt |
| RespReplies.CloseIff | src/honeystrike/services/redis_honeypot/protocol.py:132-133 | exactly QUIT closes |
| RespReplies.CannedAnswers | src/honeystrike/services/redis_honeypot/protocol.py:104-133 | the bytes that answer PING, AUTH, INFO, COMMAND, GET and the commands answered with OK |
| RespReplies.ConfigAnswers | src/honeystrike/services/redis_honeypot/protocol.py:116-127 | CONFIG GET sends back the key and, for dir and dbfilename, a path; CONFIG with anything else is answered with OK |
| RespReplies.OtherAnswers | src/honeystrike/services/redis_honeypot/protocol.py:134 | any other command is echoed in an error |
| RedisSession.Serve | src/honeystrike/services/redis_honeypot/__main__.py:62-96 | for any reads, the nested loops record the specified commands, at most the cap, and count those among them that set dir or dbfilename |
| RedisSession.DrainBuffer | src/honeystrike/services/redis_honeypot/__main__.py:70-94 | the inner loop takes out complete commands and stops after a QUIT or at the cap |
| RedisSession.DrainSplit | src/honeystrike/services/redis_honeypot/__main__.py:70-94 | draining can pause at any byte: the commands drained so far and those still to come are the stream's frames |
| RedisSession.SessionIsPrefix | src/honeystrike/services/redis_honeypot/__main__.py:62-96 | without a trim, the recorded commands are a prefix of the stream's frames however it is cut, QUIT or not |
| RedisSession.FitsUntrimmed | src/honeystrike/services/redis_honeypot/__main__.py:66-68 | a stream whose unfinished frames leave room for the next read is never trimmed, however it is cut |
| RedisTrim.NeverTrimmedIff | src/honeystrike/services/redis_honeypot/__main__.py:66-68 | where no command follows a QUIT, no cut of a stream is trimmed exactly when every unfinished frame leaves room for the next read |
| RedisTrim.TrimDamages | src/honeystrike/services/redis_honeypot/__main__.py:66-68 | under every cut, a command of 65537 bytes loses its star and is recorded as other commands |
| RedisSession.ChunkInvariance | src/honeystrike/services/redis_honeypot/__main__.py:62-96 | any split into reads records the same first commands as parsing the whole stream |
| RedisQuits.CutIff | src/honeystrike/services/redis_honeypot/__main__.py:70-96 | a given cut of an untrimmed stream records all commands exactly when before every read fewer QUITs with a command behind them lie ahead than reads |
| RedisQuits.ChunkInvarianceIff | src/honeystrike/services/redis_honeypot/__main__.py:70-96 | no cut of an untrimmed stream loses a command exactly when, for every t, fewer than t such QUITs complete within the last 4096 t bytes |
| RedisQuits.SmallInvarianceIff | src/honeystrike/services/redis_honeypot/__main__.py:62-96 | the same for every stream of at most 64 KiB, which no cut trims |
| RedisPipeline.UnfinishedCommand | src/honeystrike/services/redis_honeypot/protocol.py:52-64 | no proper prefix of an encoded command is taken for a command |
| RedisPipeline.PipelineRecorded | src/honeystrike/services/redis_honeypot/__main__.py:62-96 | end to end: pipelined commands are recorded in order up to the cap, whatever their bytes and however cut, as long as the read that completes a command finds room |
| RedisPipeline.AttemptsRecorded | src/honeystrike/services/redis_honeypot/__main__.py:76-78 | end to end: of a recorded pipeline the loop counts exactly the commands that set dir or dbfilename |
| RedisPipeline.QuitDependsOnTheCut | src/honeystrike/services/redis_honeypot/__main__.py:93-94 | a command behind QUIT is recorded if it comes in a later read and lost otherwise |
| RedisPipeline.DotlessQuit | src/honeystrike/services/redis_honeypot/protocol.py:104 | a QUIT spelled with a dotless i loses what is pipelined behind it |
| RedisPipeline.StuckOnNegativeLength | src/honeystrike/services/redis_honeypot/protocol.py:58-67 | a concrete input that is parsed without progress and fills the log to the cap |
| Ja3.ComputeJa3 | src/honeystrike/services/http/ja3.py:75-161 | on every byte string the cursor code, all reads in range, computes the specified outcome |
| Ja3.ReadU16s | src/honeystrike/services/http/ja3.py:110-113 | the list of 16-bit numbers |
| Ja3.WalkExtensions | src/honeystrike/services/http/ja3.py:133-157 | the while loop over the extensions computes the walk |
| Ja3.NoteExtension | src/honeystrike/services/http/ja3.py:139-157 | one extension, with the read that can raise |
| Ja3.RaisedIff | src/honeystrike/services/http/ja3.py:62-72 | the only exceptional rejection, on any input, is a supported_groups list that overruns its extension when rounded up to even |
| Ja3.RejectedIff | src/honeystrike/services/http/ja3.py:75-125 | a record is rejected exactly when, within its announced length, it does not start with the fixed fields, a session id, an even list of suites and a compression length |
| Ja3.ParsedFields | src/honeystrike/services/http/ja3.py:87-161 | a record that is read, cut short or not, tells its version, its suites and the types of all extensions whose header it holds |
| Ja3.GreasePattern | src/honeystrike/services/http/ja3.py:34-37 | the GREASE set is the set of section 2 of RFC 8701 |
| ClientHello.RoundTrip | src/honeystrike/services/http/ja3.py:75-161 | every well-formed record with any trailing bytes parses to its version, SNI and formats and its GREASE-filtered ciphers, extensions and groups |
| ClientHello.GreaseInvariance | src/honeystrike/services/http/ja3.py:58-59 | records that differ only in GREASE ciphers, groups and extensions, of any payload, have the same outcome |
| Ja3Text.DecodeString | src/honeystrike/services/http/ja3.py:163-169 | a decoder undoes the comma and dash format, empty lists included |
| Ja3Text.Ja3StringInjective | src/honeystrike/services/http/ja3.py:163-169 | two fingerprints print the same string exactly when they are equal |
| Ja3Text.StringCharacters | src/honeystrike/services/http/ja3.py:163-169 | the string holds four commas, a dash between any two numbers of a list, and digits |
| Aggregator.SessionAggregator.IngestEvent | src/honeystrike/workers/intel/aggregator.py:72-102 | the whole new state and the returned buffer, for new and known sessions, close, cap and eviction |
| Aggregator.SessionAggregator.FindOrOpen | src/honeystrike/workers/intel/aggregator.py:78-93 | the session's buffer moves to the recent end; what overflows leaves from the old end |
| Aggregator.SessionAggregator.EvictIfFull | src/honeystrike/workers/intel/aggregator.py:128-130 | exactly the oldest surplus buffers are evicted, oldest first |
| Aggregator.SessionAggregator.DrainIdleBuffers | src/honeystrike/workers/intel/aggregator.py:104-118 | returns and removes the stale buffers in front of the first fresh one |
| Aggregator.SessionAggregator.DrainAllBuffers | src/honeystrike/workers/intel/aggregator.py:120-123 | hands over every buffer in order |
| AggregatorRuns.Conservation | src/honeystrike/workers/intel/aggregator.py:72-130 | in every run, a session's emitted events followed by its buffered ones are exactly its ingested events in order |
| AggregatorRuns.ConservationIff | src/honeystrike/workers/intel/aggregator.py:91-95 | this holds for all runs exactly when the session cap is positive |
| AggregatorRuns.RunHealthy | src/honeystrike/workers/intel/aggregator.py:72-130 | live buffers are never empty, mixed, closed or at the cap, one a session, at most max_sessions; nothing empty or mixed leaves |
| AggregatorRuns.RunByRecency | src/honeystrike/workers/intel/aggregator.py:87-93 | with a clock that never goes back, every operation keeps the buffers in order of their last event |
| AggregatorRuns.EarlyBreakIsFullScan | src/honeystrike/workers/intel/aggregator.py:109-118 | stopping at the first fresh buffer drains exactly what a full scan would, in every run |
| AggregatorHistory.ReturnedIff | src/honeystrike/workers/intel/aggregator.py:96-102 | in every run, ingest hands over a session's buffered events and this one exactly when it is a close or makes them as many as the cap, and returns None otherwise |
| AggregatorHistory.EvictsTheOldest | src/honeystrike/workers/intel/aggregator.py:81-95 | in every run, exactly a session without a buffer that comes when the buffers are at their cap pushes one out, the one in front |
| AggregatorHistory.DrainedIff | src/honeystrike/workers/intel/aggregator.py:104-118 | in every run with an ordered clock, an idle drain takes exactly the sessions whose last event lies more than the timeout back |
| AggregatorHistory.RunOpened | src/honeystrike/workers/intel/aggregator.py:81-90 | in every run, every buffer carries the service and source of its first event and the time when that came |
| Worker.FingerprintWorker.constructor | src/honeystrike/workers/intel/fingerprint.py:90 | an injected aggregator that is empty is replaced by one with the default limits |
| Worker.FingerprintWorker.FlushEach | src/honeystrike/workers/intel/fingerprint.py:152-155 | flushing a list of buffers, each with its own outcome, is the fold of the flush steps |
| WorkerRuns.WRunAgrees | src/honeystrike/workers/intel/fingerprint.py:152-202 | in every run the tracking map, the buffers, the database and the acknowledged ids all match the ledger of entries |
| WorkerTheorems.LedgerLists | src/honeystrike/workers/intel/fingerprint.py:143-145 | the ledger lists every delivered entry, in order |
| WorkerTheorems.RunEvolves | src/honeystrike/workers/intel/fingerprint.py:159-202 | once settled, an entry's status never changes, and its event leaves the buffer once |
| WorkerTheorems.ExactlyOnePlace | src/honeystrike/workers/intel/fingerprint.py:152-202 | each delivered id is tracked, acknowledged (once) or settled without acknowledgement, and only one of these |
| WorkerTheorems.AckedWasPersisted | src/honeystrike/workers/intel/fingerprint.py:180-194 | an acknowledged decoded entry was persisted, or its event had been evicted |
| WorkerTheorems.AckedPersistedIff | src/honeystrike/workers/intel/fingerprint.py:180-194 | with distinct events, the event of an acknowledged entry was persisted exactly when it had not been evicted |
| WorkerTheorems.TrackedIdsAlign | src/honeystrike/workers/intel/fingerprint.py:170-173 | without an eviction, a session's tracked ids are one to one, in order, those of its buffered events |
| WorkerTheorems.NoEvictionIff | src/honeystrike/workers/intel/aggregator.py:81-93 | no event is evicted exactly in the runs that never open a session while the buffers are at their cap |
| WorkerTheorems.FewSessionsFit | src/honeystrike/workers/intel/aggregator.py:128-130 | a run with no more sessions than the cap is such a run |
| WorkerTheorems.AckedImpliesPersisted | src/honeystrike/workers/intel/fingerprint.py:180-194 | in such a run every acknowledged decoded entry was persisted |
| WorkerTheorems.EvictedYetAcked | src/honeystrike/workers/intel/aggregator.py:128-130 | under any limits, the defaults included: after as many other sessions as fit, closing the first one acknowledges an entry whose event was never persisted |
| WorkerOutcomes.FeedsAggregator | src/honeystrike/workers/intel/fingerprint.py:159-178 | in every run the worker's aggregator is in the state of its own run over the decoded entries and drains |
| WorkerOutcomes.MalformedDecides | src/honeystrike/workers/intel/fingerprint.py:160-168 | a malformed entry is acknowledged unless XACK fails, and changes nothing else |
| WorkerOutcomes.EntryDecides | src/honeystrike/workers/intel/fingerprint.py:170-194 | in every run, an entry that closes or fills its session has the buffered events saved unless the persist raises and all their ids acknowledged exactly when neither call fails; any other is tracked |
| WorkerOutcomes.DrainDecides | src/honeystrike/workers/intel/fingerprint.py:152-155 | in every run, a drain stops tracking each drained session, saves it unless its persist raises, and acknowledges its ids exactly when neither of its calls fails |
| Progression.ProgressRecord.EvaluateBadges | src/honeystrike/core/progression.py:164-185 | stamps and returns exactly the newly earned badges |
| ProgressionHistory.XpClosedForm | src/honeystrike/core/progression.py:115-122 | XP floored at each step is max(x0 + S_n, max over k of S_n - S_k) |
| ProgressionHistory.SumByAction | src/honeystrike/core/progression.py:17-25 | the total of any actions is 15 a lesson, 10 a correct and -2 a wrong label, 5 a canary, 3 a block, 10 a duel and 25 a win |
| ProgressionHistory.StreakClosedForm | src/honeystrike/core/progression.py:133-139 | `streak` and `best_streak` are the current and the longest run of correct labels with no wrong one between |
| ProgressionHistory.CountersClosedForm | src/honeystrike/core/progression.py:120-156 | every counter counts its own action and nothing else |
| ProgressionHistory.LessonsDoneCountIff | src/honeystrike/core/progression.py:125-131 | `lessonsDone` is the number of distinct completed lessons exactly when no two share a key; colon-free families suffice |
| ProgressionHistory.ColonMergesLessons | src/honeystrike/core/progression.py:126-131 | two lessons that count as one |
| ProgressionHistory.ActivityIsNewest | src/honeystrike/core/progression.py:158-160 | `activity` is the last 50 known actions, newest first |
| ProgressionHistory.BadgesKept | src/honeystrike/core/progression.py:172-185 | a badge once earned is never lost and keeps its date |
| ProgressionHistory.EvaluateExact | src/honeystrike/core/progression.py:172-185 | an evaluation leaves exactly the old and the satisfied badges; repeating it awards nothing |
| ProgressionHistory.ProgressBadges | src/honeystrike/core/progression.py:70-82 | the thresholds of the badges for XP and streaks |
| ProgressionHistory.CounterBadges | src/honeystrike/core/progression.py:83-107 | the thresholds of the badges for what was done |
| ProgressionHistory.ContextBadges | src/honeystrike/core/progression.py:61-98 | the badges for statistics, and for all lessons of a kind if there are any |
| Duels.DuelServer.ChallengePlayer | src/honeystrike/api/routers/duels.py:191-222 | all four refusals and the new row |
| Duels.DuelServer.LabelWave | src/honeystrike/api/routers/duels.py:373-406 | expiry first, then the refusals or the guess on the first wave of that id |
| Duels.DuelServer.MyDuels | src/honeystrike/api/routers/duels.py:239-255 | expires all due duels of one user and touches no other |
| DuelRuns.DuelAccounting | src/honeystrike/api/routers/duels.py:141-156 | in every run: 2 awards a finished duel, 1 win a decisive one, 20 and 25 XP, and each user's counters and XP match their own duels |
| DuelRuns.ReachableTable | src/honeystrike/api/routers/duels.py:134-222 | in every run: one open duel a pair, distinct players, resolved iff correct, wave cap, both score equations |
| DuelRuns.RunEvolves | src/honeystrike/api/routers/duels.py:284-421 | over any run, declined and finished duels never change, statuses only advance, resolved waves are final |
| DuelRuns.BlockedOnlyByDefender | src/honeystrike/api/routers/duels.py:373-406 | a wave becomes blocked only by the defender's label, in time, with an expected technique |
| DuelEffects.LabelDecides | src/honeystrike/api/routers/duels.py:373-406 | whatever was guessed before, the defender's label of an unresolved wave of a running duel blocks it exactly when the technique is expected, and a block moves ten points; nothing else changes |
| DuelEffects.LabelRefused | src/honeystrike/api/routers/duels.py:373-393 | why a label is refused, which changes nothing but a duel that is due |
| DuelEffects.FireAdds | src/honeystrike/api/routers/duels.py:319-353 | exactly the attacker's fire of a known scenario in a running duel with fewer than 20 waves adds one, unresolved |
| DuelEffects.WavesAreFires | src/honeystrike/api/routers/duels.py:319-353 | in every run a duel's waves are its accepted fires in order, each with the upper-cased techniques of its scenario |
| DuelEffects.DuelsLive | src/honeystrike/api/routers/duels.py:134-421 | every operation changes every duel's status and times exactly as its players, its status and the time say |
| DuelEffects.Replies | src/honeystrike/api/routers/duels.py:281-421 | what accepting, declining, finishing and viewing reply, and that no operation finds a missing duel |
| DuelEffects.ChallengeOpens | src/honeystrike/api/routers/duels.py:191-222 | exactly when a challenge opens a duel, and why it does not |
| DuelEffects.FinalScores | src/honeystrike/api/routers/duels.py:134-138 | in every run a finished duel has ten points a blocked wave for the defender and ten for each other wave for the attacker |
| DuelEffects.EndAwards | src/honeystrike/api/routers/duels.py:141-156 | the end of a duel awards both players a game and the win to whoever most waves speak for |
| DuelEffects.AwardEvaluates | src/honeystrike/api/routers/duels.py:79-98 | an award changes one user's record by one event, after which the user holds every badge that it earns |
| Arena.ArenaServer.DoClose | src/honeystrike/api/routers/arena.py:71-80 | times out every unresolved wave in favour of its firer, once |
| Arena.ArenaServer.LabelWave | src/honeystrike/api/routers/arena.py:189-215 | the refusals in order, or the first correct label wins |
| Arena.RunInv | src/honeystrike/api/routers/arena.py:62-215 | in every run: points are ten a credited wave, all points are ten a resolved wave, nobody blocks their own, a closed window leaves nothing open |
| Arena.PointsSplit | src/honeystrike/api/routers/arena.py:71-80 | a user's points are ten for each wave they blocked and each of their own that timed out |
| Arena.ClosedTotals | src/honeystrike/api/routers/arena.py:71-80 | once the window is closed all points sum to ten times all waves |
| Arena.StepEvolves | src/honeystrike/api/routers/arena.py:149-215 | until the next window, waves are only added, resolved once, and blocked only by another user's correct label in time |
| ArenaEffects.LabelDecides | src/honeystrike/api/routers/arena.py:189-215 | in a running window anybody but its firer blocks an unresolved wave and scores ten points exactly with an expected technique; any other guess changes nothing |
| ArenaEffects.LabelRefused | src/honeystrike/api/routers/arena.py:189-204 | why a label is refused, without effect in a running window |
| ArenaEffects.FireAdds | src/honeystrike/api/routers/arena.py:149-171 | exactly a fire of a known scenario in a running window with fewer than 60 waves adds one, unresolved, in the user's name |
| ArenaEffects.WavesAreFires | src/honeystrike/api/routers/arena.py:125-171 | in every run the waves are the accepted fires since the window was opened, in order, with their users and the upper-cased techniques of their scenarios |
| ArenaEffects.OpenClears | src/honeystrike/api/routers/arena.py:127-141 | opening for one minute to one hour starts an empty window that ends then; any other duration is refused |
| ArenaEffects.PointsByFires | src/honeystrike/api/routers/arena.py:71-80 | in every run a user has ten points for each wave they blocked and for each of their own accepted fires whose wave timed out |
| ArenaEffects.WindowEnds | src/honeystrike/api/routers/arena.py:62-80 | exactly when the window ends, and that every unresolved wave times out then |
| Shell.FakeShell.Run | src/honeystrike/services/ssh/shell.py:135-177 | for any reads, the loop yields the specified commands |
| Shell.FakeShell.Feed | src/honeystrike/services/ssh/shell.py:152-177 | after a read the buffer is bounded and, unless an exit was met, holds no line end |
| Shell.FakeShell.SplitOneLine | src/honeystrike/services/ssh/shell.py:179-190 | the scan finds the first line end; CRLF is one |
| Shell.DrainSplit | src/honeystrike/services/ssh/shell.py:158-177 | draining can pause at any byte, also between CR and LF |
| Shell.DrainExit | src/honeystrike/services/ssh/shell.py:158-175 | draining stops exactly when the first exit line of the stream is complete |
| Shell.ChunkInvariance | src/honeystrike/services/ssh/shell.py:135-190 | however cut, the commands are the non-blank pieces between CRs and LFs up to the first exit, and nothing is trimmed, if every pending part of a line up to that exit leaves room for the next read |
| Shell.ShortLinesFit | src/honeystrike/services/ssh/shell.py:153-156 | which it does when no line exceeds 15360 bytes |
| Shell.NeverTrimmedIff | src/honeystrike/services/ssh/shell.py:153-156 | no cut overflows the buffer exactly when every pending part of a line, up to the end of the first exit line, leaves room for the next read |
| Shell.LongLineDamaged | src/honeystrike/services/ssh/shell.py:153-156 | a line that the next read overflows is taken without its first 8192 bytes, whatever it holds |
| Shell.DamageIsVisible | src/honeystrike/services/ssh/shell.py:153-156 | a stream whose longest line has 15361 bytes, and a cut of it that yields another command than the stream holds |
| Shell.CommandOfText | src/honeystrike/services/ssh/shell.py:167-169 | the command of a line of text is its first 4096 characters, stripped |
| Shell.ExitIff | src/honeystrike/services/ssh/shell.py:172 | the commands that end the session are those whose first word is exit, logout or quit |
| Limiter.PlayServer.EnforceRateLimit | src/honeystrike/api/routers/play.py:79-103 | both refusals and the pruned list, for any list of times |
| Limiter.RunKept | src/honeystrike/api/routers/play.py:91-103 | although old times are pruned, the list is always the end of the full launch history, and what was pruned lies a window back |
| Limiter.WindowBound | src/honeystrike/api/routers/play.py:91-103 | no half-open window of 60 seconds, wherever it starts, holds more than 12 admitted launches |
| Limiter.AdmittedIff | src/honeystrike/api/routers/play.py:79-103 | a rate refusal happens exactly when the window is full in the full history |
| Limiter.RetryAfterIsRight | src/honeystrike/api/routers/play.py:94-102 | there is room again exactly from the true wait on; `retry_after` exceeds it by more than 0 and at most 1 second |
| Limiter.RunHealthy | src/honeystrike/api/routers/play.py:71-103 | at most 3 run at any moment |
| Limiter.LaunchDecides | src/honeystrike/api/routers/play.py:71-103 | in every run, a launch is refused exactly when three tasks run or twelve launches were let through in the last 60 seconds; one of an unknown scenario counts as let through and starts nothing |
| Limiter.FinishMarks | src/honeystrike/api/routers/play.py:346-357 | the end of a run marks its task done or failed, once; looking at the tasks collects those that ended more than ten minutes ago |
| Limiter.LimitsHold | src/honeystrike/api/routers/play.py:50-52 | in every run at most 3 tasks run, and no 60 seconds hold more than 12 launches |
| Replay.BuildScoreTimeline | src/honeystrike/api/routers/replay.py:59-130 | the two loops and the pin compute the specified frames |
| Replay.RunningIsSaturatedSum | src/honeystrike/api/routers/replay.py:113-121 | before the pin the k-th score is min(final, sum of the first k contributions) |
| Replay.TimelineClimbs | src/honeystrike/api/routers/replay.py:113-130 | for a positive final score the bar never falls, never passes it and lands on it |
| Replay.WithinFinalIff | src/honeystrike/api/routers/replay.py:115-121 | with two frames or more, the bar stays within the final score exactly when that is positive |
| Replay.OffsetsRise | src/honeystrike/api/routers/replay.py:117-121 | time-ordered events give non-decreasing, non-negative offsets |
| Replay.PinIsSmall | src/honeystrike/api/routers/replay.py:113-130 | the pin adds between 0 and n/2 points for n frames |
| Replay.FrameByFrame | src/honeystrike/api/routers/replay.py:80-121 | there is a frame for each event that weighs something, at its offset in milliseconds; before the pin it adds its share of the final score, rounded half to even but at least 1, or its weight without a positive score |
| Replay.RoundedUnique | src/honeystrike/api/routers/replay.py:118 | the rounded share is determined by being nearest, even if two are |
| Replay.KindWeights | src/honeystrike/api/routers/replay.py:87-111 | the weight of each kind of event |
| Replay.PinShifts | src/honeystrike/api/routers/replay.py:123-129 | the pin changes the last frame only, its score and its contribution alike |
| Replay.RunningUnclamped | src/honeystrike/api/routers/replay.py:119 | for a final score of 0 the bar is the plain sum before the pin |
| Telnet.RefuseOptions | src/honeystrike/services/telnet/protocol.py:25-44 | the scan computes the refusals |
| Telnet.StripIac | src/honeystrike/services/telnet/protocol.py:47-70 | the scan computes the stripped text |
| Telnet.ReplyNeedsNoReply | src/honeystrike/services/telnet/protocol.py:25-44 | negotiation cannot loop: a reply asks for none and is no longer than its cause |
| Telnet.StripIdempotent | src/honeystrike/services/telnet/protocol.py:47-70 | stripping twice is stripping once, and no IAC is left but possibly as last byte |
| Telnet.StripLeaks | src/honeystrike/services/telnet/protocol.py:47-70 | from any mix of text, option triples and subnegotiations with any data, the text remains without IAC, and with it the payload behind every first SE |
| Telnet.StripReturnsText | src/honeystrike/services/telnet/protocol.py:47-70 | exactly the text remains if and only if it holds no IAC and nothing but IACs stands behind an SE in a payload |
| Telnet.WidthLeaks | src/honeystrike/services/telnet/protocol.py:57-62 | a window size of 240 columns leaks a byte into the text |
| Telnet.RepliesAreRefusals | src/honeystrike/services/telnet/protocol.py:25-44 | for any mix of text and option triples the replies are exactly the refusals, in order |
| Telnet.RepliesAreRefusalsIff | src/honeystrike/services/telnet/protocol.py:33-43 | with IAC only where commands start, the replies are exactly the refusals if and only if no DO or WILL stands behind a nonempty subnegotiation with nothing but subnegotiations in between |
| Telnet.DataIsAnswered | src/honeystrike/services/telnet/protocol.py:33-43 | an IAC and a DO or WILL in the data of a subnegotiation draw a reply |
| Telnet.SubnegotiationHidesRequest | src/honeystrike/services/telnet/protocol.py:33-43 | a DO or WILL directly behind any nonempty subnegotiation goes unanswered |
| Telnet.CommandCodes | src/honeystrike/services/telnet/protocol.py:12-44 | WILL is answered with DONT, DO with WONT, the other two with nothing, in the codes of RFC 854 |
| Rdp.ParseConnectionRequest | src/honeystrike/services/rdp/pdu.py:70-121 | on every byte string the parser terminates with all reads in range and the specified result |
| Rdp.RoundTrip | src/honeystrike/cli/attack/runners.py:256-260 | the PDU that the runner prints parses to its cookie line, the stripped user, the mask and the full length |
| Rdp.UserReturnedIff | src/honeystrike/services/rdp/pdu.py:70-121 | the user comes back unchanged exactly when no blank starts or ends it |
| Rdp.LineRoundTrip | src/honeystrike/services/rdp/pdu.py:70-121 | any nonempty line, such as a routing token, is found, stripped, with the mask and the length; what follows the request is ignored |
| Rdp.BogusLength | src/honeystrike/services/rdp/pdu.py:75-78 | an announced length below 7 or beyond the bytes at hand changes nothing |
| Rdp.RejectedIff | src/honeystrike/services/rdp/pdu.py:65-84 | exactly what is rejected |
| Rdp.HashIff | src/honeystrike/services/rdp/pdu.py:103-106 | a line yields a user name exactly when it holds mstshash=, in any case |
| Rdp.HashValue | src/honeystrike/services/rdp/pdu.py:103-106 | the name is what follows the line's first equals sign, stripped |
| Rdp.NoLineIff | src/honeystrike/services/rdp/pdu.py:88-115 | a request without a line is read as such exactly when its protocol mask holds no CRLF |
| Rdp.StripSplits | src/honeystrike/services/rdp/pdu.py:97-106 | stripping removes blanks at both ends, and all of them |

## Left out

- RedisSession.ChunkInvariance: assumes that no bulk length points before the buffer, no command follows a QUIT and no trim happens; `RedisPipeline.PipelineRecorded` shows the first of every stream of encoded commands, `RedisQuits` states the second exactly; the trim itself is modelled in `Serve`.
- RespProtocol.RoundTrip: lengths are limited to the 4300 digits that the interpreter's `int()` accepts.
- Shell.ChunkInvariance: says nothing about streams that some cut overflows, where the outcome depends on the cut and on the line's content.
- Telnet.RepliesAreRefusalsIff: text, payloads and option bytes hold no IAC, where what is lost and what is answered in addition can cancel out (`Telnet.DataIsAnswered`).
- RedisQuits.ChunkInvarianceIff: for streams that no cut trims, and without bulk lengths that point before the buffer.
- Replacement characters for malformed UTF-8: arguments, commands and names keep the malformed bytes that these would stand for.
- Upper case beyond ASCII: a technique or command that is not ASCII in upper case keeps its own case.
- MD5 of the JA3 string, and the fields of the record that only carry its parts along.
- Floating-point rounding of clock readings, offsets and proportional scores: reals and exact rationals instead.
- Concurrent database transactions on one duel or progress row, cancelled runs, a clock that goes back.
- Negative `max_sessions` and the aliasing of `SessionBuffer` objects: the buffers are values in an ordered sequence.
- The text, tokens and echo of the fake shell's output, its time limit and its prompt.
- What the enrichment of a flushed buffer computes, and Redis delivering one id twice.
- `rank_for`, the icons and texts of the activity log, the sorted order of lesson ids, serialisation of badges.
- Progress events posted by clients outside the duels, and the XP that the arena awards for a correct label.
- Duel and arena views, leaderboards, inboxes and lobby; firing the real attack behind a wave.
- `build_connection_confirm`, `clean_credential`, JA3S and the other honeypots' protocols.
- The Redis and shell sockets: a read is a chunk of at most 4096 or 1024 bytes, a timeout ends the list of chunks.
