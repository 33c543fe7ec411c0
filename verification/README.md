# Verified model of Java Service Steward

Java Service Steward is a Windows service host. A supervisor written in Rust launches one JVM, watches it over a framed
loopback protocol, restarts, pauses and stops it, and keeps a rotating log; a bridge written in Java runs inside the JVM
and answers. This Dafny project models that behaviour and proves what holds of it on every input, every run and every
interleaving. `dafny verify dfyconfig.toml` checks all of it.

## The parts

- **Log filters and the rotating log.** `Wildcard` gives patterns a declarative meaning and proves the greedy matcher
  against it; `Filters` builds the trigger search on it. `Rotation` treats a log directory as a map from numbers to
  contents, and `RotatingLog` is the writer with its history of segments.
- **The control protocol.** `Framing` defines the wire format as a relation between byte streams and packets, proves
  that every stream has one reading or one point of rejection, and proves the Rust framer against it; `JavaFraming` does
  the same for the Java decoder. `Handshake` is the listener with its worklist of unauthenticated sockets, and
  `Connections` the hand-over to the reader thread and its bounded channel.
- **Text that must survive a trip.** `PropertyCodec` (properties to the JVM), `ArgumentFragment` (Windows argument
  quoting), `CommandLines` (the command line and its registered form), `ConfigText` (continued lines, comments,
  variables) and `OutputSplitter` (JVM output cut into lines). `Text` holds the string functions they share.
- **Configuration loading.** `IncludeLoader` is the loader class. What a file amounts to is a function, `FileEffect`,
  from the open files and the environment to a list of assignments and an outcome.
- **The supervisor.** `Journals` lists the observable steps of a supervisor and the rule each step obeys. `Hosts` is its
  surroundings, where processes, time, arriving controls and the choice among ready events are arbitrary, writes and
  launches may be refused unless the host is called reliable, and the control queue is first in, first out. The classes
  `JvmRun` and `Supervisor` follow the source method by method, and every step they take is noted in a ghost journal,
  where a note requires that the rules permit it. What a wakeup calls for must be done before the next one is noted.
  `Lifecycle` proves what the rules add up to from run to run, and `Watchdogs` what they add up to within a run; both
  state their results in words of the journal and the settings alone.
- **Ending a JVM.** `ExitProtocol` interleaves the bridge's control thread, the application, the shutdown hook, a
  shutdown or crash from outside, and the supervisor, which takes announcements off a channel that can be lost, sends its
  own STOP, waits, and kills. Shared flags are read and written one at a time.

`Prelude` holds bytes, options, results and joined sequences.

## Where the obvious claim is false

- The framer answers an oversize payload with an error for the whole chunk, so packets completed earlier in that chunk
  are lost. The chunks of a stream make no difference if and only if no packet is complete before an oversize payload
  (`Framing.ChunksMatterIff`; `Framing.APacketIsLost` is such a stream).
- The Java side sends payloads with a NUL unchecked; what it sends is read back as itself if and only if it holds none
  (`Framing.JavaPacketIsReadBackIff`).
- A configured argument of backslashes only disappears: every token becomes an argument if and only if none is made of
  backslashes (`ArgumentFragment.EveryTokenCounts`).
- A rotation deletes a file even though a lower number is free: it does so if and only if there is one at the limit
  (`Rotation.LosesAFileIff`), and that file is the oldest if and only if none lies above the limit
  (`Rotation.TheOldestGoesIff`).
- Lines of output are what line feeds separate if and only if each, with its line end, is at most 64 KiB
  (`OutputSplitter.LinesAreSegmentsIff`); a full line before a line feed is followed by an empty one.
- A property whose name holds `=`, or begins with a tab without being the first, does not arrive; all others do
  (`PropertyCodec.RoundTrip`). The configuration parser never makes such a name (`IncludeLoader.EveryNameIsClean`).
- The watchdog's extension for a heap dump ends in the tick that sees the dump complete, before that tick looks at the
  deadline: a JVM in the longer window survives that tick if and only if it is within the shorter one
  (`Watchdogs.TheLongerWindowEndsWithTheDump`).
- A stop that waits when a JVM is to be restarted need not be taken before the next launch. It is, if and only if the
  supervisor reads the clock before the deadline more often than there are controls before the stop
  (`Lifecycle.AWaitingStopIsTakenIff`), so it can be only if there is a delay and another launch at all
  (`Lifecycle.AStopCanBeTakenIff`); else it stays in the queue until somebody looks, if anybody does
  (`Lifecycle.AStopOutlivesTheDelay`).
- An override `set.X=%Y%` gives the property its expanded value, but the variable X the text as written; they agree if
  and only if expanding changes nothing (`IncludeLoader.PropertyAndVariableAgreeIff`). `set.default.X=v` on the command
  line locks a variable named `DEFAULT.X` (`IncludeLoader.DefaultsLockAnotherName`).
- The exit code of an unannounced `System.exit` may be replaced by 0, as the bridge's own comment says; it is kept in
  every interleaving if and only if it is 0 or the shutdown hook is disabled (`ExitProtocol.SilentExitIsKeptIff`).

## Model

| member | source | states |
|---|---|---|
| Wildcard.MatchesPrefixGreedily | src/logging.rs:397-428 | The matcher that backtracks only to the last `*` ends, and answers yes exactly when some prefix of the text can be cut into one fitting piece per pattern byte |
| Wildcard.PrefixIsMatchesPrefix | src/logging.rs:397-428 | Reading the pattern from the left agrees with the meaning by pieces, in both directions |
| Wildcard.NextStarSubsumes | src/logging.rs:397-428 | Once a later star is reached no earlier choice matters: the leftmost fit of a segment is as good as any other, which is why one remembered star is enough |
| Wildcard.OnMismatch | src/logging.rs:415-426 | A mismatch rules out one place for the segment after the last star and no other; without a star, or at the end of the text, it rules out every match |
| Filters.WildcardContains | src/logging.rs:393-395 | Trying every start, the end included, finds exactly the matching substrings |
| Filters.PlainContains | src/logging.rs:380-383 | The search without wildcards finds exactly the occurrences of the trigger |
| Filters.TriggerMatches | src/logging.rs:367-391 | An empty trigger never matches; otherwise wildcards and the encoding of the line decide what is searched in what |
| Filters.InspectBytes | src/logging.rs:160-172 | A line sets off exactly the first configured filter whose trigger it contains, or none when no trigger is contained |
| Filters.WildcardFreeIsPlainSearch | src/logging.rs:367-395 | Allowing wildcards changes nothing for a trigger without `*` and `?` |
| Rotation.LogDirectory.Rotate | src/logging.rs:482-504 | A finished rotation is a pure shift by one, gaps included; only the archive at the limit is deleted; a refused one leaves what some interruption would leave, and where the system refuses nothing it is refused exactly when numbers have run out |
| Rotation.LogDirectory.ShiftUp | src/logging.rs:495-503 | The renames go from the top down, no rename lands on an existing file, and stopping after any of them leaves a partial shift |
| Rotation.LogDirectory.HighestRolledIndex | src/logging.rs:506-525 | The number found is the highest there is, names that merely parse as a number included |
| Rotation.ShiftOneMore | src/logging.rs:495-503 | Widening the shift by one number is one rename onto a free name |
| Rotation.ShiftKeepsHistory | src/logging.rs:495-503 | Read in number order, the files hold the same contents in the same order after any number of renames |
| Rotation.InterruptionKeepsHistory | src/logging.rs:482-504 | Wherever a rotation stops, in any directory, it has cost at most the file at the limit and kept all others in order; with no archive above the limit that file is the oldest; the active content still exists |
| Rotation.TrimTakesOneFile | src/logging.rs:488-494 | Deleting the archive at the limit takes exactly that one entry out of the history, between the older and the newer ones |
| Rotation.TheOldestGoesIff | src/logging.rs:482-504 | The file that a rotation costs is the oldest if and only if no archive lies above the limit |
| Rotation.LosesAFileIff | src/logging.rs:482-504 | A rotation costs a file, and exactly one, if and only if there is one at the limit, whether or not a lower number is free |
| Rotation.LoweredLimitDropsFromTheMiddle | src/logging.rs:488-494 | A directory in which the deleted file is not the oldest |
| Rotation.GapIsNotReused | src/logging.rs:488-494 | A directory in which, after an interruption, the file at the limit is deleted although a number is free |
| RotatingLog.Perform | src/logging.rs:251-303 | Any run of writes and rolls from an orderly directory makes exactly the segments that the size limit and the roll mode call for; with unlimited archives the files hold every record in order, otherwise exactly the last `maxfiles` + 1 of those segments; with a limit it fails only if the system refuses something |
| RotatingLog.OnlyFullSegmentsAreClosed | src/logging.rs:287-293 | Where no roll is asked for, a segment is closed only once it has reached the size limit, never without a limit, and no record joins a segment that has reached it |
| RotatingLog.LevelsAreOrdered | src/logging.rs:20-30 | A message passes exactly the thresholds that are not above it in the order of the levels, and nothing passes the highest one |
| RotatingLog.LogWriter.WriteBytes | src/logging.rs:263-303 | Copies the message to the console, and appends exactly one record to the last segment, or to a new one exactly when that has reached the size limit, each for its own threshold; a write that fails leaves all earlier contents, with at most part of the record |
| RotatingLog.LogWriter.RollForJvmRestart | src/logging.rs:251-261 | Starts a new segment exactly when the roll mode says so |
| RotatingLog.LogWriter.StartNewFile | src/logging.rs:251-261 | A rotation followed by an empty active file begins a segment and keeps the writer's invariant |
| RotatingLog.LogWriter.Open | src/logging.rs:196-245 | In any directory: four roll modes rotate an active file first, otherwise it is kept as it is and appended to; in an orderly directory the writer starts with the segments found |
| RotatingLog.RotationStartsSegment | src/logging.rs:482-504 | A rotation drops at most the oldest segment kept and leaves the numbers without gaps |
| RotatingLog.ReadingBack | src/logging.rs:482-529 | The archives read from the highest number down, then the active file, are the last segments in order; no record spans two files |
| RotatingLog.UnlimitedLogLosesNothing | src/logging.rs:482-494 | With no archive limit the files hold every byte ever written, in order, and nothing else |
| Framing.Framer.Feed | src/protocol.rs:117-143 | A chunk completes exactly the packets that end in it; the first byte too many drops the packets the same chunk completed |
| Framing.FeedAll | src/protocol.rs:117-143 | A stream fed in chunks is rejected if and only if the wire format rejects it; if not, the packets are its reading, and if so, those of the chunks before the offending one |
| Framing.ChunksMatterIff | src/protocol.rs:117-143 | How a stream is cut decides nothing about its packets if and only if none is complete before an oversize payload |
| Framing.DeliveryIsUnique | src/protocol.rs:117-143 | The chunks determine the packets that come out |
| Framing.RejectedStreamsDependOnTheirChunks | src/protocol.rs:131-135 | Every way of cutting a rejected stream yields the packets before the bad byte if and only if there are none |
| Framing.APacketIsLost | src/protocol.rs:131-135 | One stream that yields a packet in two chunks and none in one |
| Framing.EveryStreamIsDecoded | src/protocol.rs:117-147 | The wire format leaves no stream undecided: it is read to its end or rejected at a byte |
| Framing.WriteTo | src/protocol.rs:82-100 | A packet is refused exactly when its frame would not be read back as that packet; otherwise the wire gets the whole frame, or as much of it as there is room for before it breaks |
| Framing.ReadFrom | src/protocol.rs:59-80 | Reads one packet and not a byte more, and tells apart a clean end, an end inside a packet, an oversize payload and a reader that fails at a given byte |
| Framing.ReadingIsUnique | src/protocol.rs:117-147 | Every byte stream is read in at most one way |
| Framing.ReadingGrows | src/protocol.rs:117-147 | A longer stream only adds packets to those of a shorter one |
| Framing.RejectionIsFinal | src/protocol.rs:131-135 | No stream is readable beyond the byte at which it is rejected |
| Framing.VerdictIsUnique | src/protocol.rs:117-147 | Packets and the place of rejection belong to the stream alone, so any two decoders that meet the wire format agree |
| Framing.SentPacketsAreReadBack | src/protocol.rs:59-100 | Packets accepted for sending are read back as themselves, nothing is left over and nothing is rejected |
| Framing.JavaPacketIsReadBackIff | java/bridge/src/main/java/io/github/jayyanez/jss/bridge/BackendClient.java:318-332 | Whatever the Java side accepts for sending is readable, and is read back as itself if and only if it holds no NUL |
| Framing.NulSplitsPayload | java/bridge/src/main/java/io/github/jayyanez/jss/bridge/BackendClient.java:318-332 | A NUL in a payload ends the packet there, so that another one is read |
| JavaFraming.Send | java/bridge/src/main/java/io/github/jayyanez/jss/bridge/BackendClient.java:318-332 | Refuses exactly without a connection or for a payload that is too long; otherwise the wire gets the whole frame, or as much as there is room for before it breaks |
| JavaFraming.PacketReader.ReadPacket | java/bridge/src/main/java/io/github/jayyanez/jss/bridge/BackendClient.java:287-316 | The second decoder meets the same wire format; a read timeout inside a packet loses nothing, rejection happens at the same byte, and what a call reports is what it read last |
| JavaFraming.PacketReader.ReadUntilClosed | java/bridge/src/main/java/io/github/jayyanez/jss/bridge/BackendClient.java:156-175 | The control thread's reads amount to the one verdict that the part of the stream it read has, however timeouts fall. It ends with a stop or a refused key, with the packet whose handling fails, with the first timeout that makes it give up, with the end of the stream, or at a rejected byte, and not before |
| Handshake.PendingHandshake.Advance | src/protocol.rs:353-392 | One read with a given state of the network. The socket is dropped if and only if it is late or broken, its stream has ended, its first packet is another than the key, or a payload is too long; admitted if and only if the read completes the key; kept otherwise. A peer with another first packet gets the refusal as far as there is room, and nobody else gets anything |
| Handshake.PendingHandshake.Judge | src/protocol.rs:369-390 | The first packet alone decides, in both directions, and what came in with it is kept |
| Handshake.FewPacketsPerRead | src/protocol.rs:36-38 | A read of n bytes that ends the first packet ends at most (n - 1) / 2 more, hence fewer than 256 for 512 bytes |
| Handshake.BackendListener.AcceptOne | src/protocol.rs:312-333 | Exactly a loopback peer whose socket can be configured, with fewer than eight pending, becomes pending with its deadline; an interrupted accept is no error |
| Handshake.BackendListener.AcceptAll | src/protocol.rs:312-333 | Of those who connect, exactly the welcome ones become pending, in order, as long as there is room; it fails exactly when the listening socket does |
| Handshake.BackendListener.AdvanceOne | src/protocol.rs:335-349 | One turn of the worklist drops and admits exactly who is to be, and keeps the set of sockets still to visit |
| Handshake.BackendListener.AdvanceAll | src/protocol.rs:335-351 | Every pending socket is advanced once, or at most once if one is admitted; nobody is dropped who is not to be; where nobody is admitted, exactly those to be dropped are gone, and nobody was to be admitted |
| Handshake.SwapRemove | src/protocol.rs:341-348 | Removing by swapping with the last element takes out that element and no other |
| Handshake.SwapRemoveFrom | src/protocol.rs:341-348 | The elements from the index on are the same as before but for the removed one, so the scan skips nobody |
| Connections.Connection.ReaderReads | src/protocol.rs:209-233 | One read of the reader thread with a given state of the network: nothing ready changes nothing; the end, an error or a payload that is too long stops it behind what it had; otherwise it holds back exactly the packets the bytes complete, continuing the half-filled decoder it was handed |
| Connections.Connection.ReaderSends | src/protocol.rs:209-233 | Handing one event to the bounded channel neither loses nor repeats any; when nobody receives any more the thread ends |
| Connections.Connection.Receive | src/protocol.rs:193-200 | The supervisor takes events in the order in which they were decoded |
| Connections.DeliveredIsTheStream | src/protocol.rs:165-233 | However the stream was cut between handshake and reader thread, the supervisor receives the packets after the key in order, and all of them once it sees the stream end |
| Connections.Spawn | src/protocol.rs:165-184 | Queueing the early packets one by one can never overflow the channel of 256, and they come out first; it fails exactly when the system refuses |
| Connections.PollAuthentication | src/protocol.rs:306-351 | A connection is handed out only behind the expected key, at most one per poll; where none is, nobody was to be admitted and exactly those to be dropped are gone; it fails only if the listening socket does or the system refuses |
| PropertyCodec.ProtocolProperties | src/config.rs:179-193 | The encoding loop writes one chunk per property that is not sensitive, with one tab between each two: the test for earlier output never misplaces a separator |
| PropertyCodec.SecretsAreWithheld | src/config.rs:642-647 | Of the properties, the JVM is sent exactly those in whose names none of six words occurs, in capitals or not |
| PropertyCodec.Client.LoadProperties | java/bridge/src/main/java/io/github/jayyanez/jss/bridge/BackendClient.java:350-370 | The index loop replaces all properties by those of the pieces between single tabs, tabs being paired from the left |
| PropertyCodec.Client.AddProperty | java/bridge/src/main/java/io/github/jayyanez/jss/bridge/BackendClient.java:372-377 | A piece without `=` changes nothing; a piece that is a name without `=`, an equals sign and a value sets that name to that value |
| PropertyCodec.PieceIsAdded | java/bridge/src/main/java/io/github/jayyanez/jss/bridge/BackendClient.java:372-377 | Those two facts about a piece hold of exactly one resulting map |
| PropertyCodec.ScanDoubled | java/bridge/src/main/java/io/github/jayyanez/jss/bridge/BackendClient.java:350-370 | Doubled tabs are paired with each other whatever follows, so values may end in any run of tabs |
| PropertyCodec.RoundTrip | src/config.rs:179-193 | The JVM receives exactly the properties that are not sensitive if and only if no name sent holds `=` and none but the first begins with a tab |
| PropertyCodec.UnsendableIsLost | java/bridge/src/main/java/io/github/jayyanez/jss/bridge/BackendClient.java:350-377 | A name that holds `=`, or begins with a tab and is not the first, never arrives |
| PropertyCodec.ConfiguredPropertiesArrive | src/config.rs:512-515 | Properties named by configuration lines or overrides always arrive unchanged, whatever tabs their values hold |
| Text.SplitNamesAreClean | src/config.rs:512-515 | A name that was split off at the first `=` and trimmed holds no `=` and does not begin with a tab |
| Text.TrimmingTakesTheSides | src/config.rs:512-515 | Trimming takes away the whitespace on both sides and nothing else |
| Text.PropertyIsSplit | src/config.rs:512-515 | A line is split at its first `=` and only the name is trimmed; without one it is no property |
| ArgumentFragment.ParseLegacyWindowsFragment | src/jvm.rs:242-296 | The nested loops compute the parser's recursive form; every round of the outer loop moves on |
| ArgumentFragment.ParseToken | src/jvm.rs:255-290 | The token ends at the first whitespace that is not quoted, where a quote behind an even number of backslashes switches quoting; it is worth what it means, where a quote behind an odd number is kept; and it counts as an argument exactly when it held something else than backslashes |
| ArgumentFragment.AnArgumentAndTheRest | src/jvm.rs:242-296 | A stretch with no whitespace outside quotes, followed by some, is one argument with its meaning, unless it is only backslashes, and parsing goes on behind it |
| ArgumentFragment.AnEscapedQuoteIsKept | src/jvm.rs:269-274 | An escaped quote outside quotes is kept and quotes nothing, so the argument ends at the next space |
| ArgumentFragment.TokensEndUnquoted | src/jvm.rs:255-290 | From any point of a token on, its length and value agree with quoting and meaning as read from the end of what precedes |
| ArgumentFragment.RoundTrip | src/jvm.rs:242-296 | Any list of arguments, each quoted with backslash runs doubled before quotes and joined by spaces, is parsed back to exactly that list |
| ArgumentFragment.TokenByToken | src/jvm.rs:242-296 | Parsing in one pass equals splitting at unquoted whitespace and then unquoting each token, except for tokens of backslashes only |
| ArgumentFragment.EveryTokenCounts | src/jvm.rs:255-292 | Every token becomes an argument if and only if none consists of backslashes only |
| ArgumentFragment.ABackslashIsLost | src/jvm.rs:276-278 | A fragment that is one backslash gives no argument |
| OutputSplitter.ReadLines | src/supervisor.rs:1298-1336 | Whatever the reads of the pipe bring, the lines sent are those of the whole stream, or the first of them, as many as somebody receives; every round consumes a byte or a read |
| OutputSplitter.CutInOneWay | src/supervisor.rs:1298-1336 | A stream has exactly one cut into lines that lose only line ends, never exceed 64 KiB and are broken only when full; the reader finds it |
| OutputSplitter.SameByteByByte | src/supervisor.rs:1298-1336 | The lines are those of a reader that takes one byte at a time |
| OutputSplitter.LinesAreSegmentsIff | src/supervisor.rs:1298-1336 | The lines sent are those that line feeds separate if and only if every one of them, its line end included, is at most 64 KiB |
| OutputSplitter.TheLimitAddsLines | src/supervisor.rs:1314-1330 | The limit only ever adds lines, and at least one where a segment is too long |
| OutputSplitter.FullLineThenNewline | src/supervisor.rs:1314-1330 | A line of exactly 64 KiB before a line feed is sent as that line and an empty one |
| ConfigText.LogicalLines | src/config.rs:535-558 | The loop gives the logical lines of the text: the pieces between line feeds, without the carriage returns at their ends, put together where they are continued |
| ConfigText.LogicalLinesAreFixed | src/config.rs:535-558 | That description fixes the lines of every text: it is cut at its line feeds in one way, the last piece unterminated only if not empty, and the lines fall into groups in one way |
| ConfigText.LinesArePieces | src/config.rs:535-539 | However a text is cut into pieces without line feeds, its physical lines are those pieces without the carriage returns at their ends |
| ConfigText.OddBackslashesContinue | src/config.rs:540-547 | Exactly an odd number of backslashes at its end continues a line, and the last of them is the mark |
| ConfigText.JoiningKeepsTheText | src/config.rs:535-558 | Joining loses nothing but the continuation marks, and every line without one ends exactly one logical line |
| ConfigText.DecodeHashComments | src/config.rs:517-533 | The peeking loop turns `##` into a hash and stops at a single one |
| ConfigText.WrittenValueIsRead | src/config.rs:517-533 | Any value with its hashes doubled, followed by any comment, is read back as itself |
| ConfigText.ExpandEnvironment | src/config.rs:601-623 | The search loop replaces known `%name%` from left to right without looking at what it put in |
| ConfigText.VariableIsReplaced | src/config.rs:601-623 | The text before a variable is kept and the expansion goes on behind it; a known variable gives way to its value, another stays as written |
| ConfigText.UnknownVariablesAreKept | src/config.rs:615-619 | Text without a known variable is kept, percent signs included |
| ConfigText.ALonePercentIsKept | src/config.rs:601-612 | A single percent sign begins no variable |
| ConfigText.DirectivesAreRecognised | src/config.rs:498-510 | Each of the three include directives is recognised with any spaces, tabs and equals signs before its argument |
| ConfigText.OnlyDirectivesInclude | src/config.rs:498-510 | No line is an include that is not one of the three directives, alone or before whitespace or `=` |
| IncludeLoader.Loader.New | src/config.rs:206-232 | Fails exactly on an override without `=`; each `set.` override defines and locks its variable, the last one deciding |
| IncludeLoader.AnOverrideLocksItsVariable | src/config.rs:212-222 | An override `set.NAME=value` defines and locks the variable with the upper-case name, and no other override does |
| IncludeLoader.Loader.LoadFile | src/config.rs:234-284 | Ends for every include graph; the include stack has no repetition and never more than 11 files; the assignments and the outcome are exactly the file's effect |
| IncludeLoader.TheFileDecides | src/config.rs:234-284 | Loading fails beyond ten open files, for a file that is open already, unreadable, or missing where it is required; a missing file that is not required changes nothing; otherwise the file's logical lines take effect |
| IncludeLoader.Loader.ParseLine | src/config.rs:286-331 | A line has exactly its effect: a property, an include, an error for an empty name, or nothing |
| IncludeLoader.AWrittenPropertyIsRead | src/config.rs:313-330 | A property in any layout, with whitespace around its name and its value, doubled hashes and perhaps a comment, makes exactly the assignment of its expanded value |
| IncludeLoader.OtherLines | src/config.rs:286-320 | Empty lines, comments and lines without `=` do nothing, and a property without a name is an error |
| IncludeLoader.AnIncludeLoadsItsFile | src/config.rs:292-306 | An include loads the file it names, in quotes or not, and requires it only where it says so |
| IncludeLoader.Loader.ApplyEnvironmentProperty | src/config.rs:333-347 | A variable takes the value exactly when the property is about it, it is not locked, and a default finds it without a value; no other variable changes and none is undefined |
| IncludeLoader.AnAssignmentChangesOneVariable | src/config.rs:333-347 | What an assignment may change is exactly what it changes: one resulting environment meets that description |
| IncludeLoader.WhatAssignmentsDefine | src/config.rs:333-347 | `set.` defines the variable with the upper-case name, `set.default.` only one without a value, neither a locked one, and no other property defines any |
| IncludeLoader.Loader.ApplyOverrides | src/config.rs:349-359 | One assignment per override, in order, each expanded in the environment that the ones before it left |
| IncludeLoader.Loader.Load | src/config.rs:54-73 | Loading succeeds exactly when every override has a `=` and the root file's effect succeeds; then the assignments are that effect followed by the overrides |
| IncludeLoader.LockedVariablesKeepTheirOverride | src/config.rs:212-222 | A variable defined on the command line keeps its last override's value through all files and the override pass |
| IncludeLoader.OverridesBeatFiles | src/config.rs:349-359 | A property given on the command line ends up with the value of its last override |
| IncludeLoader.PropertyAndVariableAgreeIff | src/config.rs:212-222 | An override that defines a variable gives it the text as written and the property the expanded text: they agree if and only if expanding changes nothing, and so whenever no known variable occurs in it |
| IncludeLoader.NoPercentNothingKnown | src/config.rs:601-607 | A text without percent signs holds no known variable, whatever is defined |
| IncludeLoader.AnExpandedOverride | src/config.rs:212-222 | One load in which the override `set.X=%Y%` makes the property 1 and the variable `%Y%` |
| IncludeLoader.DefaultsLockAnotherName | src/config.rs:217-221 | An override of `set.default.` and a name locks the variable called by the upper-case form of `default.` and that name |
| IncludeLoader.DefaultXIsLocked | src/config.rs:217-221 | `set.default.X=v` locks `DEFAULT.X` |
| IncludeLoader.OnlyItsOwnSetChangesAVariable | src/config.rs:333-347 | A variable that is defined changes only by a `set.` of its own name |
| IncludeLoader.EveryNameIsClean | src/config.rs:313-328 | Every property name of a loaded configuration survives the trip to the JVM |
| IncludeLoader.OpenFilesOnlyForbid | src/config.rs:264-269 | The files that are open can make an include fail but never give it another meaning |
| IncludeLoader.IncludedLinesMayStandInPlace | src/config.rs:234-284 | A successful include is textual: the included lines in its place give the same assignments and outcome |
| CommandLines.Parse | src/cli.rs:46-109 | The cursor loop computes the parser's functional form, its errors and their order included |
| CommandLines.ParsedIffSpelled | src/cli.rs:46-109 | The parser accepts exactly the command lines of the grammar, and each means one thing |
| CommandLines.CommandsAreNamed | src/cli.rs:125-159 | An argument is a command exactly when it is one of its names, in capitals or not, or a control code with a number |
| CommandLines.NumbersAreRead | src/cli.rs:144-152 | A number up to 2^32 - 1 is read from its decimal digits, with leading zeros or a plus sign, and a larger one is none |
| CommandLines.OnlyNumbersAreRead | src/cli.rs:144-152 | Nothing but digits, perhaps behind a plus sign, is a number |
| CommandLines.InstalledLaunchArguments | src/service.rs:7-23 | The registered arguments are `-s`, the configuration, every override but the password, and the application arguments behind `--` |
| CommandLines.InstalledArgumentsAreReparsed | src/service.rs:7-23 | Parsing the registered arguments gives back the configuration, the application arguments and every override but the password, under the Service command |
| Supervisors.Supervisor.Run | src/supervisor.rs:153-354 | Every step obeys the rules of the journal. A normal return has the stopped marker as its last step and no JVM alive, and its code is 0 if a stop was taken, otherwise the one the last run ended with; where the system refuses nothing it fails only if the observed part of the run ends |
| Supervisors.Supervisor.LaunchLoop | src/supervisor.rs:230-354 | `failed_invocations` is below the maximum at every launch, a launch needs a reason and its delay, and each end is a permitted one |
| Supervisors.Supervisor.AfterRun | src/supervisor.rs:275-353 | The end of a run leads to the exit code it calls for, or to another launch with the counter reset or raised, once the pause or the delay is over |
| Supervisors.Supervisor.RunOnce | src/supervisor.rs:357-474 | A normal return leaves the JVM exited or never started, whatever happened in between, with the outcome that was called for |
| Supervisors.Supervisor.WaitForRestart | src/supervisor.rs:476-488 | True exactly when a stop, or the end of the control queue, was taken during the delay; false only once the whole delay has passed; between launches the only way to let time pass is a look into the queue, and a delay of zero takes no look |
| Supervisors.Supervisor.LookForControl | src/supervisor.rs:479-485 | Each clock reading before the deadline takes the control at the head of the queue, if one waits |
| Supervisors.Supervisor.WaitWhilePaused | src/supervisor.rs:490-506 | Ends with a stop, or with a resume taken as the last control; all other controls are ignored |
| JvmRuns.JvmRun.EventLoop | src/supervisor.rs:564-604 | Each wakeup is seen to before the next, every step keeps the rules, and a normal return means that the JVM has exited with the outcome that was called for; where the system refuses nothing it fails only if the observed part of the run ends |
| JvmRuns.JvmRun.HandleOutputBatch | src/supervisor.rs:606-634 | Every line of a batch is recorded and every action it triggers is carried out, in order, up to one that ends the run |
| JvmRuns.JvmRun.HandleControl | src/supervisor.rs:717-768 | Takes the control at the head of the queue. A stop ends the run with code 0, a pause only when configured to stop the JVM, nothing else ends it; a pause or resume that applies is sent over an open channel, one that does not changes nothing; a user control is passed on, and a thread dump tried |
| JvmRuns.JvmRun.HandleProtocol | src/supervisor.rs:770-834 | STOP ends the run with the number in the packet, or 0 where that is no 32-bit number, and RESTART with a requested restart; any other packet is noted and ends nothing, and a lost channel is given up |
| JvmRuns.JvmRun.Hear | src/supervisor.rs:770-801 | Every packet is a sign of life; STARTED lifts the start-up deadline and START_PENDING moves it where there is one |
| JvmRuns.JvmRun.ApplyFilterAction | src/supervisor.rs:636-714 | Restart, shutdown and pause alone can end the run, each with its own outcome; GC, and a pause or resume that applies, are sent over an open channel; a dump is tried; the other actions, and a pause or resume that does not apply, change nothing; and the actions behind it are left to be carried out |
| JvmRuns.JvmRun.HandleTick | src/supervisor.rs:836-934 | A tick polls the heap dump, looks for the exit of the process, polls the listener while there is no channel, pings and judges the deadlines; one that does not end the run is journaled as one within every deadline that applies |
| JvmRuns.JvmRun.CheckDeadlines | src/supervisor.rs:879-934 | A run is ended only by a missed deadline, as an automatic restart with code 1; if it goes on, the tick was within every deadline |
| JvmRuns.JvmRun.PingIfDue | src/supervisor.rs:906-910 | A ping is sent exactly when the interval since the last has passed while connected, and a failed one loses the connection |
| JvmRuns.JvmRun.PollAuthentication | src/supervisor.rs:849-876 | A new connection is greeted with the four packets in order before it counts as connected, and whoever has presented the key is admitted |
| JvmRuns.JvmRun.PauseJvm | src/supervisor.rs:953-964 | Pausing stops the JVM or sends PAUSE, as configured, and the JVM counts as paused only if it was sent |
| JvmRuns.JvmRun.SendIfConnected | src/supervisor.rs:979-993 | Either the packet is sent over an open channel, or the channel is closed afterwards and nothing was sent; an open channel is lost only if the write is refused |
| JvmRuns.JvmRun.StartHeapDump | src/supervisor.rs:1065-1115 | A dump begins only after STARTED and only when none is under way, and then it does unless it is refused; otherwise the request changes nothing |
| JvmRuns.JvmRun.ShutdownAndDrain | src/supervisor.rs:1153-1198 | Whatever branch the escalation takes, the process has exited when it returns normally |
| JvmRuns.JvmRun.TerminateChild | src/supervisor.rs:1338-1344 | A JVM is killed only if it could not be asked to stop or has had the shutdown timeout; after a normal return it has exited |
| JvmRuns.JvmRun.WaitForExit | src/supervisor.rs:1202-1227 | True only when the process was seen to exit, and false only once the timeout has passed |
| Lifecycle.OneJvmAtATime | src/supervisor.rs:230-474 | On every run at most one launched JVM has not been seen to exit, and none between runs |
| Lifecycle.TheExitPolicy | src/supervisor.rs:255-273 | After a JVM has ended by itself with a code that is to shut the wrapper down, no launch follows and the wrapper exits with that code; with one that is to pause, where a pause is possible, no launch follows without a resume; with any other, the end counts exactly as an automatic restart with that code |
| Lifecycle.NothingFollowsAShutdownCode | src/supervisor.rs:255-282 | However long the journal goes on after such an end, there is no other launch in it |
| Lifecycle.WhatALaunchFollows | src/supervisor.rs:224-353 | Every launch but the first follows the end of a run that asked for a permitted restart, or a resume after one that ended in a pause; no stop has been taken by then, and fewer runs in a row were short than the maximum |
| Lifecycle.TheReturnCode | src/supervisor.rs:274-353 | The supervisor exits with 0 if a stop was taken, and otherwise with the code that its last run ended with |
| Lifecycle.NothingIsLaunchedAfterAStop | src/supervisor.rs:476-506 | Once any of the three consumers has taken a stop, no launch is announced and no process is started |
| Lifecycle.LaunchesAreSpaced | src/supervisor.rs:224-351 | At every launch in a run the start-up delay, or the restart delay since the last run ended, has passed |
| Lifecycle.AWaitingStopIsTakenIff | src/supervisor.rs:476-488 | In any run, a stop that waits behind n other controls when a JVM is to be restarted is taken before the next launch if and only if the queue is looked into more than n times; with a zero delay it never is |
| Lifecycle.AStopCanBeTakenIff | src/supervisor.rs:298-351 | Some course of events takes such a stop before the next launch if and only if restarts are not disabled, the failures are below the maximum and the restart delay is not zero |
| Lifecycle.LooksTakeInOrder | src/supervisor.rs:479-485 | Each look takes the control that is first in the queue, until a stop has been taken |
| Lifecycle.AStopOutlivesTheDelay | src/supervisor.rs:476-488 | One run with zero delay in which a stop waits, and another JVM is started before anybody takes it |
| Lifecycle.NothingIsTakenWithoutADelay | src/supervisor.rs:476-488 | In a whole run, a control is taken between a restart and its launch only where the delay is not zero |
| Lifecycle.TheMarkerIsLast | src/supervisor.rs:274-354 | The stopped marker is written at most once, and nothing happens after it |
| Lifecycle.LaunchesAreThrottled | src/supervisor.rs:292-354 | Launches since the count of short runs last began anew never exceed the configured maximum, which is at least one |
| Lifecycle.GivesUpAfterTheMaximum | src/supervisor.rs:319-346 | If every run is short and asks for a permitted restart, the supervisor ends after exactly the maximum of launches with the last run's code |
| Lifecycle.DisabledRestartsNeedAResume | src/supervisor.rs:298-318 | With restarts disabled every launch after the first follows a resume |
| Watchdogs.EveryWakeupIsSeenTo | src/supervisor.rs:564-604 | In any run, before the event loop waits again it has taken the control, heard the packet, given up the lost channel, or judged the deadlines in a tick that it was woken for; of a batch of output it has looked at every line in order and carried out every action triggered |
| Watchdogs.LinesTriggerTheirActions | src/supervisor.rs:624-644 | A line is answered with the actions of the first filter, in configured order, whose trigger is found in it |
| Watchdogs.WhyARunEnds | src/supervisor.rs:564-934 | A run ends in a stop, a pause, a requested restart or an automatic one if and only if that was called for, by a control, a packet, a filter or a missed deadline, or the launch failed; else the JVM has ended by itself |
| Watchdogs.TheWatchdogIsExact | src/supervisor.rs:879-934 | Where a tick has come to the deadlines, the JVM is replaced if and only if it has not started within the time configured or asked for, or has been silent for longer than timeout, interval and a dump's time together; and a connected JVM is pinged once the interval has passed |
| Watchdogs.PingsAreSpaced | src/supervisor.rs:906-910 | Two pings of a JVM are an interval apart |
| Watchdogs.TheWatchdogIsArmed | src/supervisor.rs:444-472 | A launched JVM is always under a deadline: one for starting, or the ping window |
| Watchdogs.SilentJvmIsReplaced | src/supervisor.rs:836-934 | A JVM that goes silent survives no tick past its window, through disconnects and failed sends; only a heap dump widens the window |
| Watchdogs.OnlyTheLateAreReplaced | src/supervisor.rs:879-934 | An automatic restart of a launched JVM follows a step at which the journal shows a deadline missed |
| Watchdogs.TheLongerWindowEndsWithTheDump | src/supervisor.rs:836-838 | A tick that sees a heap dump complete replaces the JVM if and only if it has been silent for longer than the window without a dump; one that sees it under way, if and only if for longer than the window with it |
| Watchdogs.SomeAreReplacedDuringADump | src/supervisor.rs:911-916 | For every such tick there is a time at which the completion of the dump alone makes the difference |
| Watchdogs.NobodyIsKilledUnasked | src/supervisor.rs:1153-1198 | No JVM is killed while its channel is open without having been asked to stop, nor before the shutdown timeout since it was asked |
| Watchdogs.PacketsNeedAChannel | src/supervisor.rs:979-1005 | Packets are received and, greetings apart, sent only over a channel that was opened and not lost since; a new one is admitted only when there is none |
| Watchdogs.PausesAlternate | src/supervisor.rs:953-972 | PAUSE and RESUME sent to a JVM alternate, beginning with PAUSE, and only where pausing in place is configured; the JVM counts as paused exactly after a PAUSE |
| Watchdogs.OneHeapDumpAtATime | src/supervisor.rs:1065-1147 | At most one heap dump is under way, and none before STARTED |
| Watchdogs.ExitCodeIsTheJvms | src/supervisor.rs:814-846 | The code of a JVM that ended by itself is the number in its first STOP packet, or 0 where that is no 32-bit number; without such a packet it is the exit status, or 1 without one |
| ExitProtocol.AlwaysConsistent | java/bridge/src/main/java/io/github/jayyanez/jss/bridge/BackendClient.java:128-285 | Every interleaving of control thread, application, shutdown hook, system and supervisor, one flag access at a time, keeps the invariants of the exit conversation |
| ExitProtocol.TheHooksCloseIsHarmless | java/bridge/src/main/java/io/github/jayyanez/jss/bridge/BackendClient.java:128-154 | The hook's closing of the socket never drives the control thread to end the JVM as failed, packets that arrived before it included |
| ExitProtocol.TheHookSpeaksForNobodyElse | java/bridge/src/main/java/io/github/jayyanez/jss/bridge/BackendClient.java:279-285 | The hook announces a stop only for a JVM that neither the wrapper nor a failure ended, keeps silent only for a recorded stop or failure, and says nothing where it is disabled |
| ExitProtocol.TheAnnouncedCodeComesBack | src/supervisor.rs:814-823 | A JVM that ends because the wrapper told it to exits with the one code that was sent; if an announcement was answered, that is the announced code and the verdict |
| ExitProtocol.TheVerdictIsTheJvms | src/supervisor.rs:814-846 | An end counted as the JVM's own is over and has the code announced first; or it has the process's own status, and then the supervisor has neither asked nor killed, over a channel that may be lost at any time |
| ExitProtocol.SilentExitIsKeptIff | java/bridge/src/main/java/io/github/jayyanez/jss/bridge/BackendClient.java:271-285 | The code of an unannounced `System.exit` reaches the supervisor in every interleaving if and only if it is 0 or the shutdown hook is disabled |
| ExitProtocol.SystemExitCodeMayBeLost | java/bridge/src/main/java/io/github/jayyanez/jss/bridge/BackendClient.java:271-285 | After `System.exit(code)` both outcomes occur: the hook's 0 and the real code |

## Left out

- The capacity of the control queue: a sender that finds it full waits or gives up outside the model.
- Running for ever: a run is observed for an arbitrary finite number of waits, after which the model's methods return
  `Failure(Cut)`. All claims are about what happens up to any such point or at a normal return; that a stop completes
  within a time is not claimed, since draining continuous output has no bound.
- Payloads of packets that the supervisor sends: the journal holds only their codes, so the exit code inside a STOP and
  the text of a PING are not modelled.
- JvmRuns.JvmRun.HandleProtocol: takes any packet whatever while connected, which includes every sequence that
  `Connections` delivers; the two models are not joined into one state.
- JvmRuns.JvmRun.RequestThreadDump: is noted, takes time and may fail; the command `jcmd` and console events are not modelled.
- JvmRuns.JvmRun.StartHeapDump: a dump is a task that completes at an arbitrary tick; its file is not modelled.
- Supervisors.Supervisor.RunOnce: port binding, key generation, PID files, the job object and the command line of the
  JVM are one step that may be refused.
- The telemetry events, `resuming` (which only selects such an event), warnings, help, version and log texts.
- ExitProtocol.TheAnnouncedCodeComesBack: holds of the `SimpleApp` handler; `Steward` exits with the code that its
  application's listener returns, which may be another.
- RotatingLog.LogWriter.WriteBytes: rendering (timestamps, columns) is an opaque byte string, and a writer is not used
  again after a write has failed.
- Filters.TriggerMatches: the windows-1252 reading of a line and whether it is UTF-8 are given with the line.
- ExitProtocol.AlwaysConsistent: advisory packets, the first connection attempt and the waiting inside `Steward` are not
  steps of the model; a send by the JVM succeeds while its socket is open, and is then lost if the supervisor has lost
  the channel. Timeouts are arbitrary; `JvmRuns` has them.
- IncludeLoader.Loader.Load: the file system does not change while loading; decoding of files (byte order marks,
  `#encoding=`) and the upper-casing of variable names are parameters; the texts of warnings are not modelled.
- Text.SplitNamesAreClean: strings are sequences of Unicode characters; in the codec, surrogate pairs on the Java side
  play no part because only tabs and `=` are looked for.
- UTF-8 decoding of packet payloads, and packets a peer sends that are not valid UTF-8.
- Sockets, threads and channels as such: a socket is a byte sequence cut at arbitrary points, a channel a bounded
  sequence, and a choice among ready events is arbitrary. What the network has for a read, and how much a peer takes
  before a write fails, are parameters.
- Win32 and service-control calls, classpath scanning, main-class and path resolution, reflection and class loading.
